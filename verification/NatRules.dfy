/**
  Which entries and rules the NAT manager has applied, and which it must have:
  what every event keeps, and how a change of interfaces, a sweep over a port or a
  prefix, or a zone change moves it.
 */
module NatRules {
  import opened DnatPool
  import opened NatInterfaces
  import opened NatPairs
  import opened NatUses
  import opened Wrappers

  // ---------- what every event keeps ----------

  /** An applied destination entry sits on the interface of its address, a source entry on no port. */
  ghost predicate Fresh(enabled: bool, interfaces: set<Interface>, k: Ip, entry: Static) {
    entry.interface.Some? ==>
      if entry.natType == Dnat then enabled && Home(interfaces, k, entry.interface) else entry.interface == Some("")
  }

  /** An applied binding has a pool and sits on the interface of its first address. */
  ghost predicate Live(enabled: bool, interfaces: set<Interface>, pools: map<Key, Pool>, binding: Binding) {
    && binding.natType != Some(Dnat)
    && (binding.interface.Some? ==>
          && enabled && binding.pool in pools && pools[binding.pool].Range?
          && Home(interfaces, pools[binding.pool].low, binding.interface))
  }

  ghost predicate NoPairs(statics: map<Ip, Static>, bindings: map<Key, Binding>) {
    (forall k <- statics.Keys :: !statics[k].added) && (forall b <- bindings.Keys :: !bindings[b].added)
  }

  /**
    Pairs are well formed and, while NAT is disabled, there are none.  The
    hypotheses the code relies on are part of it: two users per id, one binding
    per pool, disjoint prefixes.
   */
  ghost predicate Sound(enabled: bool, interfaces: set<Interface>, statics: map<Ip, Static>,
                        bindings: map<Key, Binding>, pools: map<Key, Pool>) {
    && Matched(statics, bindings, pools)
    && AtMostTwoUsers(statics, bindings) && OneBindingPerPool(bindings)
    && DisjointPrefixes(interfaces)
    && (forall i <- interfaces :: i.port != "" && 1 <= i.prefix.length <= 32)
    && AllFresh(enabled, interfaces, statics) && AllLive(enabled, interfaces, bindings, pools)
    && (!enabled ==> NoPairs(statics, bindings))
  }

  ghost predicate AllFresh(enabled: bool, interfaces: set<Interface>, statics: map<Ip, Static>) {
    forall k {:trigger Fresh(enabled, interfaces, k, statics[k])} ::
      k in statics ==> Fresh(enabled, interfaces, k, statics[k])
  }

  ghost predicate AllLive(enabled: bool, interfaces: set<Interface>, bindings: map<Key, Binding>,
                          pools: map<Key, Pool>) {
    forall b {:trigger Live(enabled, interfaces, pools, bindings[b])} ::
      b in bindings ==> Live(enabled, interfaces, pools, bindings[b])
  }

  /** While NAT is disabled no destination entry and no binding is applied. */
  lemma NoneLeftWhileDisabled(interfaces: set<Interface>, statics: map<Ip, Static>, bindings: map<Key, Binding>,
                              pools: map<Key, Pool>)
    requires Sound(false, interfaces, statics, bindings, pools)
    ensures NoneLeftBut(statics, bindings, pools, {}, {})
  {
    forall k <- statics.Keys ensures statics[k].natType == Dnat ==> statics[k].interface.None? {
      assert Fresh(false, interfaces, k, statics[k]);
    }
    forall b <- bindings.Keys ensures bindings[b].interface.None? {
      assert Live(false, interfaces, pools, bindings[b]);
    }
  }

  // ---------- what must be applied ----------

  /** An entry is applied exactly when an interface holds its address; a source entry always is. */
  ghost predicate Applied(interfaces: set<Interface>, k: Ip, entry: Static) {
    if entry.natType == Snat then entry.interface == Some("") else Home(interfaces, k, entry.interface)
  }

  ghost predicate AppliedBut(interfaces: set<Interface>, statics: map<Ip, Static>, ks: set<Ip>) {
    forall k {:trigger Applied(interfaces, k, statics[k])} ::
      k in statics && k !in ks ==> Applied(interfaces, k, statics[k])
  }

  /** The rules of a binding without an id are applied exactly when an interface holds its pool. */
  ghost predicate RuleApplied(interfaces: set<Interface>, pools: map<Key, Pool>, binding: Binding) {
    binding.id == "" ==>
      if binding.pool in pools && pools[binding.pool].Range?
      then Home(interfaces, pools[binding.pool].low, binding.interface) else binding.interface.None?
  }

  ghost predicate RulesAppliedBut(interfaces: set<Interface>, bindings: map<Key, Binding>, pools: map<Key, Pool>,
                                  bs: set<Key>) {
    forall b {:trigger RuleApplied(interfaces, pools, bindings[b])} ::
      b in bindings && b !in bs ==> RuleApplied(interfaces, pools, bindings[b])
  }

  lemma AppliedStays(interfaces: set<Interface>, before: map<Ip, Static>, after: map<Ip, Static>, ks: set<Ip>)
    requires AppliedBut(interfaces, before, ks)
    requires forall k <- after.Keys - ks ::
      k in before && after[k].natType == before[k].natType && after[k].interface == before[k].interface
    ensures AppliedBut(interfaces, after, ks)
  {
    forall k <- after.Keys - ks ensures Applied(interfaces, k, after[k]) {
      assert Applied(interfaces, k, before[k]);
    }
  }

  lemma RulesStay(interfaces: set<Interface>, before: map<Key, Binding>, after: map<Key, Binding>,
                  pools: map<Key, Pool>, bs: set<Key>)
    requires RulesAppliedBut(interfaces, before, pools, bs)
    requires forall b <- after.Keys - bs ::
      b in before && after[b].id == before[b].id
      && after[b].pool == before[b].pool && after[b].interface == before[b].interface
    ensures RulesAppliedBut(interfaces, after, pools, bs)
  {
    forall b <- after.Keys - bs ensures RuleApplied(interfaces, pools, after[b]) {
      assert RuleApplied(interfaces, pools, before[b]);
    }
  }

  /** Another range for a pool concerns its binding alone. */
  lemma RulesStayWithPools(interfaces: set<Interface>, bindings: map<Key, Binding>, pools: map<Key, Pool>,
                           after: map<Key, Pool>, name: Key)
    requires RulesAppliedBut(interfaces, bindings, pools, UsersOf(bindings, name))
    requires forall p :: p != name ==> (p in after <==> p in pools) && (p in after ==> after[p] == pools[p])
    ensures RulesAppliedBut(interfaces, bindings, after, UsersOf(bindings, name))
  {
    forall b <- bindings.Keys - UsersOf(bindings, name) ensures RuleApplied(interfaces, after, bindings[b]) {
      assert RuleApplied(interfaces, pools, bindings[b]);
    }
  }

  lemma FreshAfterFlags(enabled: bool, interfaces: set<Interface>, statics: map<Ip, Static>, k: Ip, m: Ip, added: bool,
                        intf: Option<Port>)
    requires forall n <- statics.Keys :: Fresh(enabled, interfaces, n, statics[n])
    requires k in statics && m in statics && (intf == statics[k].interface || intf.None?)
    ensures forall n <- statics.Keys :: Fresh(enabled, interfaces, n, WithFlags(statics, k, m, added, intf)[n])
  {
    forall n <- statics.Keys ensures Fresh(enabled, interfaces, n, WithFlags(statics, k, m, added, intf)[n]) {
      assert Fresh(enabled, interfaces, n, statics[n]);
    }
  }

  /** Only the pairs and the applied entries have to be looked at after a step on static entries. */
  lemma SoundStatics(enabled: bool, interfaces: set<Interface>, before: map<Ip, Static>, after: map<Ip, Static>,
                     bindings: map<Key, Binding>, pools: map<Key, Pool>)
    requires Sound(enabled, interfaces, before, bindings, pools)
    requires Matched(after, bindings, pools) && SameStatics(before, after)
    requires forall k <- after.Keys :: Fresh(enabled, interfaces, k, after[k])
    requires !enabled ==> forall k <- after.Keys :: !after[k].added
    ensures Sound(enabled, interfaces, after, bindings, pools)
  {
    HypothesesStay(before, bindings, after, bindings);
  }

  method Joined(enabled: bool, interfaces: set<Interface>, statics: map<Ip, Static>, bindings: map<Key, Binding>,
                pools: map<Key, Pool>, k: Ip, m: Ip)
    returns (after: map<Ip, Static>)
    requires Sound(enabled, interfaces, statics, bindings, pools) && enabled
    requires k in statics && m in statics && CanPair(statics, k, m) && statics[k].id != ""
    ensures Sound(enabled, interfaces, after, bindings, pools) && SameStaticsOn(statics, after)
    ensures after[k].added && after[m].added && forall n <- after.Keys :: statics[n].added ==> after[n].added
    ensures forall n <- after.Keys - {k, m} :: after[n] == statics[n]
  {
    after := WithFlags(statics, k, m, true, statics[k].interface);
    JoinStatics(statics, bindings, pools, k, m);
    FlagsAreNotConfig(statics, k, m, true, statics[k].interface);
    FreshAfterFlags(enabled, interfaces, statics, k, m, true, statics[k].interface);
    SoundStatics(enabled, interfaces, statics, after, bindings, pools);
  }

  method Split(enabled: bool, interfaces: set<Interface>, statics: map<Ip, Static>, bindings: map<Key, Binding>,
               pools: map<Key, Pool>, k: Ip, m: Ip)
    returns (after: map<Ip, Static>)
    requires Sound(enabled, interfaces, statics, bindings, pools) && PairedStatics(statics, k, m)
    ensures Sound(enabled, interfaces, after, bindings, pools) && OnlyWithdrew(statics, after, k)
    ensures !after[k].added && !after[m].added && after[k].interface.None?
    ensures forall n <- after.Keys - {k, m} :: after[n] == statics[n]
    ensures NoneLeftBut(statics, bindings, pools, {}, {}) ==> NoneLeftBut(after, bindings, pools, {}, {})
  {
    after := WithFlags(statics, k, m, false, None);
    if NoneLeftBut(statics, bindings, pools, {}, {}) {
      NoneLeftAfterSplit(statics, bindings, pools, k, m);
    }
    SplitStatics(statics, bindings, pools, k, m, None);
    FlagsAreNotConfig(statics, k, m, false, None);
    FreshAfterFlags(enabled, interfaces, statics, k, m, false, None);
    SoundStatics(enabled, interfaces, statics, after, bindings, pools);
  }

  /** Pairing moves no entry and no binding to another interface. */
  lemma AppliedAsBefore(enabled: bool, interfaces: set<Interface>, statics: map<Ip, Static>,
                        bindings: map<Key, Binding>, pools: map<Key, Pool>, after: map<Ip, Static>,
                        bound: map<Key, Binding>)
    requires Sound(enabled, interfaces, statics, bindings, pools)
    requires SameStaticsOn(statics, after) && SameBindingsOn(bindings, bound)
    ensures AllFresh(enabled, interfaces, after) && AllLive(enabled, interfaces, bound, pools)
  {
    forall k <- after.Keys ensures Fresh(enabled, interfaces, k, after[k]) {
      assert Fresh(enabled, interfaces, k, statics[k]);
    }
    forall b <- bound.Keys ensures Live(enabled, interfaces, pools, bound[b]) {
      assert Live(enabled, interfaces, pools, bindings[b]);
    }
  }

  lemma SoundAfterBind(enabled: bool, interfaces: set<Interface>, statics: map<Ip, Static>,
                       bindings: map<Key, Binding>, pools: map<Key, Pool>,
                       k: Ip, b: Key)
    requires Sound(enabled, interfaces, statics, bindings, pools) && enabled
    requires k in statics && b in bindings && CanBind(statics, bindings, pools, k, b) && statics[k].id != ""
    ensures Sound(enabled, interfaces, Bound(statics, k, Some(b)), Rebound(bindings, b, Some(k)), pools)
  {
    JoinBinding(statics, bindings, pools, k, b);
    HypothesesStay(statics, bindings, Bound(statics, k, Some(b)), Rebound(bindings, b, Some(k)));
    AppliedAsBefore(enabled, interfaces, statics, bindings, pools, Bound(statics, k, Some(b)),
                    Rebound(bindings, b, Some(k)));
  }

  lemma SoundAfterUnbind(enabled: bool, interfaces: set<Interface>, statics: map<Ip, Static>,
                         bindings: map<Key, Binding>, pools: map<Key, Pool>,
                         k: Ip, b: Key)
    requires Sound(enabled, interfaces, statics, bindings, pools)
    requires PairedBinding(statics, bindings, pools, k, b)
    ensures Sound(enabled, interfaces, Bound(statics, k, None), Rebound(bindings, b, None), pools)
  {
    SplitBinding(statics, bindings, pools, k, b);
    HypothesesStay(statics, bindings, Bound(statics, k, None), Rebound(bindings, b, None));
    AppliedAsBefore(enabled, interfaces, statics, bindings, pools, Bound(statics, k, None), Rebound(bindings, b, None));
  }

  lemma AppliedAtHome(enabled: bool, interfaces: set<Interface>, k: Ip, entry: Static, home: Option<Port>)
    requires DisjointPrefixes(interfaces) && Fresh(enabled, interfaces, k, entry) && Home(interfaces, k, home)
    ensures entry.natType == Dnat && entry.interface.Some? ==> entry.interface == home
  {
    if entry.natType == Dnat && entry.interface.Some? { HomeIsUnique(interfaces, k, home, entry.interface); }
  }

  /** What pairing an entry with a binding keeps and adds. */
  lemma AfterBind(enabled: bool, interfaces: set<Interface>, statics: map<Ip, Static>, bindings: map<Key, Binding>,
                  pools: map<Key, Pool>, k: Ip, b: Key)
    requires Sound(enabled, interfaces, statics, bindings, pools) && enabled
    requires k in statics && b in bindings && CanBind(statics, bindings, pools, k, b) && statics[k].id != ""
    ensures var after, bound := Bound(statics, k, Some(b)), Rebound(bindings, b, Some(k));
            && Sound(enabled, interfaces, after, bound, pools)
            && (NoneLeftBut(statics, bindings, pools, {k}, {}) || NoneLeftBut(statics, bindings, pools, {}, {b}) ==>
                  NoneLeftBut(after, bound, pools, {}, {}))
            && (forall ip: Ip ::
                  Uses(after, bound, pools, ip)
                  == Uses(statics, bindings, pools, ip) + One(statics[k].localIp, ip)
                     + InRange(pools[bindings[b].pool], ip))
  {
    SoundAfterBind(enabled, interfaces, statics, bindings, pools, k, b);
    NoneLeftAfterBind(statics, bindings, pools, k, b);
    assert Live(enabled, interfaces, pools, bindings[b]);
    UsesOfBoundPair(statics, bindings, pools, k, Bound(statics, k, Some(b))[k], b, Rebound(bindings, b, Some(k))[b]);
  }

  lemma AfterUnbind(enabled: bool, interfaces: set<Interface>, statics: map<Ip, Static>, bindings: map<Key, Binding>,
                    pools: map<Key, Pool>, k: Ip, b: Key)
    requires Sound(enabled, interfaces, statics, bindings, pools) && PairedBinding(statics, bindings, pools, k, b)
    ensures var after, bound := Bound(statics, k, None), Rebound(bindings, b, None);
            && Sound(enabled, interfaces, after, bound, pools)
            && (NoneLeftBut(statics, bindings, pools, {}, {}) ==>
                  NoneLeftBut(after, bound, pools, {k}, {}) && NoneLeftBut(after, bound, pools, {}, {b}))
            && (forall ip: Ip ::
                  Uses(statics, bindings, pools, ip)
                  == Uses(after, bound, pools, ip) + One(statics[k].localIp, ip) + InRange(pools[bindings[b].pool], ip))
            && bound - {b} == bindings - {b}
  {
    SoundAfterUnbind(enabled, interfaces, statics, bindings, pools, k, b);
    if NoneLeftBut(statics, bindings, pools, {}, {}) {
      NoneLeftAfterUnbind(statics, bindings, pools, k, b);
    }
    assert Live(enabled, interfaces, pools, bindings[b]);
    BackAndForth(statics, bindings, k, b);
    UsesOfBoundPair(Bound(statics, k, None), Rebound(bindings, b, None), pools, k, statics[k], b, bindings[b]);
  }

  /** A binding without a partner may be applied or withdrawn. */
  lemma SoundWithBinding(enabled: bool, interfaces: set<Interface>, statics: map<Ip, Static>,
                         bindings: map<Key, Binding>, pools: map<Key, Pool>, name: Key, binding: Binding)
    requires Sound(enabled, interfaces, statics, bindings, pools) && name in bindings
    requires !bindings[name].added || bindings[name].id == ""
    requires binding == bindings[name].(interface := binding.interface) && Live(enabled, interfaces, pools, binding)
    ensures Sound(enabled, interfaces, statics, bindings[name := binding], pools)
    ensures NoneLeftBut(statics, bindings, pools, {}, {name}) ==>
      NoneLeftBut(statics, bindings[name := binding], pools, {},
                  if binding.interface.None? || binding.id == "" then {} else {name})
  {
    assert BindingMatched(statics, bindings, pools, name);
    ChangeUnpairedBinding(statics, bindings, pools, name, binding);
    HypothesesStay(statics, bindings, statics, bindings[name := binding]);
    if NoneLeftBut(statics, bindings, pools, {}, {name}) {
      StillNoneLeft(statics, bindings, pools, {}, {name}, statics, bindings[name := binding], pools, {},
                    if binding.interface.None? || binding.id == "" then {} else {name});
    }
  }

  /** A removal of the scope withdraws the binding; one without a partner belongs to every scope. */
  predicate InRemoval(scope: Scope, pools: map<Key, Pool>, binding: Binding) {
    binding.interface.Some? &&
    ((binding.id != "" && !binding.added)
     || match scope
        case Everything => true
        case OnPort(port) => binding.interface == Some(port)
        case OnPrefix(port, prefix) =>
          && binding.interface == Some(port)
          && binding.pool in pools && pools[binding.pool].Range? && InSubnet(prefix, pools[binding.pool].low))
  }

  /** A binding before and after a removal. */
  predicate RemovedFrom(scope: Scope, pools: map<Key, Pool>, before: Binding, after: Binding) {
    if InRemoval(scope, pools, before) then after == before.(interface := None, added := false, staticKey := None)
    else after == before
  }

  /** The scope of a removal does not depend on empty pools cached meanwhile. */
  lemma SameScope(scope: Scope, pools0: map<Key, Pool>, pools: map<Key, Pool>, before: Binding, after: Binding)
    requires SameRanges(pools0, pools) && RemovedFrom(scope, pools, before, after)
    ensures RemovedFrom(scope, pools0, before, after)
  {
  }

  /**
    A binding before and after an addition: applied when it was not and its pool
    starts at an interface in the scope.
   */
  ghost predicate AddedTo(scope: Scope, interfaces: set<Interface>, pools: map<Key, Pool>, before: Binding,
                          after: Binding) {
    if && before.interface.None? && before.pool in pools && pools[before.pool].Range?
       && HasHome(interfaces, scope, pools[before.pool].low)
    then after.interface.Some? && Home(interfaces, pools[before.pool].low, after.interface)
    else after.interface == before.interface
  }

  /** A binding before and after a zone change on a port. */
  ghost predicate ZoneChanged(port: Port, interfaces: set<Interface>, pools: map<Key, Pool>, before: Binding,
                              after: Binding) {
    if before.pool in pools && pools[before.pool].Range? && Home(interfaces, pools[before.pool].low, Some(port))
    then after.interface == Some(port)
    else if before.id != "" && !before.added then after.interface.None?
    else after.interface == before.interface
  }

  lemma RemovedAndAdded(port: Port, interfaces: set<Interface>, pools0: map<Key, Pool>, pools: map<Key, Pool>,
                        before: Binding, between: Binding, after: Binding)
    requires DisjointPrefixes(interfaces) && Live(true, interfaces, pools0, before) && SameRanges(pools0, pools)
    requires RemovedFrom(OnPort(port), pools0, before, between)
    requires AddedTo(OnPort(port), interfaces, pools, between, after)
    ensures ZoneChanged(port, interfaces, pools0, before, after)
  {
    if before.pool in pools0 && pools0[before.pool].Range? {
      var low := pools0[before.pool].low;
      if Home(interfaces, low, Some(port)) && before.interface.Some? {
        HomeIsUnique(interfaces, low, Some(port), before.interface);
      }
      if Home(interfaces, low, Some(port)) {
        HomeIsUnique(interfaces, low, Some(port), after.interface);
      }
    }
  }

  lemma OneMoreAdded(scope: Scope, interfaces: set<Interface>, pools: map<Key, Pool>, bindings0: map<Key, Binding>,
                     bindings1: map<Key, Binding>, bindings: map<Key, Binding>, todo: set<Key>, name: Key)
    requires SameBindings(bindings0, bindings1) && SameBindings(bindings1, bindings) && name in bindings && name in todo
    requires AddedBut(scope, interfaces, pools, bindings0, bindings1, todo)
    requires forall b <- bindings.Keys - {name} :: bindings[b].interface == bindings1[b].interface
    requires AddedTo(scope, interfaces, pools, bindings1[name], bindings[name])
    ensures SameBindings(bindings0, bindings)
    ensures AddedBut(scope, interfaces, pools, bindings0, bindings, todo - {name})
  {
  }

  /** The bindings not in `todo` have been looked at. */
  ghost predicate AddedBut(scope: Scope, interfaces: set<Interface>, pools: map<Key, Pool>,
                           before: map<Key, Binding>, after: map<Key, Binding>, todo: set<Key>)
    requires after.Keys == before.Keys
  {
    forall b <- after.Keys ::
      if b in todo then after[b].interface == before[b].interface
      else AddedTo(scope, interfaces, pools, before[b], after[b])
  }

  /** Only source entries with an id may still have an interface. */
  predicate AllWithdrawn(statics: map<Ip, Static>) {
    forall k <- statics.Keys :: statics[k].natType == Dnat || statics[k].id == "" ==> statics[k].interface.None?
  }

  /** Applied, or a destination entry of the prefix that still has to be. */
  ghost predicate ToApply(interfaces: set<Interface>, prefix: Prefix, k: Ip, entry: Static) {
    Applied(interfaces, k, entry) || (entry.natType == Dnat && InSubnet(prefix, k) && entry.interface.None?)
  }

  /** An entry before and after a removal: in its scope there is no pair, and no interface for a destination. */
  ghost predicate Gone(scope: Scope, k: Ip, before: Static, after: Static) {
    match scope
    case Everything => !after.added && !ActiveStatic(after) && (after.natType == Dnat ==> after.interface.None?)
    case OnPort(_) => true
    case OnPrefix(port, prefix) =>
      after.interface == if after.natType == Dnat && InSubnet(prefix, k) then None else before.interface
  }

  lemma GoneStays(scope: Scope, statics0: map<Ip, Static>, before: map<Ip, Static>, after: map<Ip, Static>, key: Ip,
                  todo: set<Ip>)
    requires OnlyWithdrew(before, after, key) && SameStatics(statics0, before) && key !in todo && key in after
    requires forall k <- before.Keys - todo - {key} :: Gone(scope, k, statics0[k], before[k])
    requires Gone(scope, key, before[key], after[key]) && before[key].interface == statics0[key].interface
    ensures forall k <- after.Keys - todo :: Gone(scope, k, statics0[k], after[k])
  {
  }

  lemma NothingPaired(enabled: bool, interfaces: set<Interface>, statics: map<Ip, Static>, bindings: map<Key, Binding>,
                      pools: map<Key, Pool>)
    requires Sound(enabled, interfaces, statics, bindings, pools)
    requires forall k <- statics.Keys :: statics[k].natType == Dnat ==> statics[k].interface.None?
    requires forall b <- bindings.Keys :: bindings[b].interface.None?
    ensures Sound(false, interfaces, statics, bindings, pools)
  {
    forall b <- bindings.Keys ensures !bindings[b].added {
      assert BindingMatched(statics, bindings, pools, b);
    }
    forall k <- statics.Keys ensures !statics[k].added {
      assert StaticMatched(statics, bindings, pools, k);
    }
    forall k <- statics.Keys ensures Fresh(false, interfaces, k, statics[k]) {
      assert Fresh(enabled, interfaces, k, statics[k]);
    }
    forall b <- bindings.Keys ensures Live(false, interfaces, pools, bindings[b]) {
      assert Live(enabled, interfaces, pools, bindings[b]);
    }
  }

  lemma NothingAway(interfaces: set<Interface>, statics: map<Ip, Static>, bindings: map<Key, Binding>,
                    pools: map<Key, Pool>)
    requires Sound(false, interfaces, statics, bindings, pools)
    ensures Sound(true, interfaces, statics, bindings, pools)
    ensures forall b <- bindings.Keys :: bindings[b].interface.None?
  {
    forall k <- statics.Keys ensures Fresh(true, interfaces, k, statics[k]) {
      assert Fresh(false, interfaces, k, statics[k]);
    }
    forall b <- bindings.Keys ensures Live(true, interfaces, pools, bindings[b]) && bindings[b].interface.None? {
      assert Live(false, interfaces, pools, bindings[b]);
    }
  }

  /** One more disjoint prefix moves no entry that is applied. */
  lemma FreshWithMore(enabled: bool, interfaces: set<Interface>, more: Interface, statics: map<Ip, Static>,
                      bindings: map<Key, Binding>, pools: map<Key, Pool>)
    requires AllFresh(enabled, interfaces, statics)
    requires AllLive(enabled, interfaces, bindings, pools)
    ensures AllFresh(enabled, interfaces + {more}, statics)
    ensures AllLive(enabled, interfaces + {more}, bindings, pools)
  {
    forall b <- bindings.Keys ensures Live(enabled, interfaces + {more}, pools, bindings[b]) {
      assert Live(enabled, interfaces, pools, bindings[b]);
      if bindings[b].interface.Some? {
        var low := pools[bindings[b].pool].low;
        var i :| i in interfaces && i.port == bindings[b].interface.value && InSubnet(i.prefix, low);
        assert i in interfaces + {more};
      }
    }
    forall k <- statics.Keys ensures Fresh(enabled, interfaces + {more}, k, statics[k]) {
      assert Fresh(enabled, interfaces, k, statics[k]);
      if statics[k].natType == Dnat && statics[k].interface.Some? {
        var i :| i in interfaces && i.port == statics[k].interface.value && InSubnet(i.prefix, k);
        assert i in interfaces + {more};
      }
    }
  }

  lemma FreshWithout(enabled: bool, interfaces: set<Interface>, less: Interface, statics: map<Ip, Static>)
    requires AllFresh(enabled, interfaces, statics)
    requires enabled ==> forall k <- statics.Keys ::
      statics[k].natType == Dnat && InSubnet(less.prefix, k) ==> statics[k].interface.None?
    ensures AllFresh(enabled, interfaces - {less}, statics)
  {
    forall k <- statics.Keys ensures Fresh(enabled, interfaces - {less}, k, statics[k]) {
      assert Fresh(enabled, interfaces, k, statics[k]);
      if statics[k].natType == Dnat && statics[k].interface.Some? {
        var i :| i in interfaces && i.port == statics[k].interface.value && InSubnet(i.prefix, k);
        assert i in interfaces - {less};
      }
    }
  }

  lemma LiveWithout(enabled: bool, interfaces: set<Interface>, less: Interface, bindings0: map<Key, Binding>,
                    pools0: map<Key, Pool>, bindings: map<Key, Binding>, pools: map<Key, Pool>)
    requires bindings.Keys == bindings0.Keys && SameRanges(pools0, pools)
    requires AllLive(enabled, interfaces, bindings, pools)
    requires enabled ==>
      forall b <- bindings.Keys :: RemovedFrom(OnPrefix(less.port, less.prefix), pools0, bindings0[b], bindings[b])
    ensures AllLive(enabled, interfaces - {less}, bindings, pools)
  {
    forall b <- bindings.Keys ensures Live(enabled, interfaces - {less}, pools, bindings[b]) {
      assert Live(enabled, interfaces, pools, bindings[b]);
      if bindings[b].interface.Some? {
        assert RemovedFrom(OnPrefix(less.port, less.prefix), pools0, bindings0[b], bindings[b]);
        var low := pools[bindings[b].pool].low;
        var i :| i in interfaces && i.port == bindings[b].interface.value && InSubnet(i.prefix, low);
        assert i in interfaces - {less};
      }
    }
  }

  /** Before NAT is enabled no rules are applied. */
  lemma RulesAfterEnabling(interfaces: set<Interface>, bindings0: map<Key, Binding>, bindings: map<Key, Binding>,
                           pools: map<Key, Pool>)
    requires SameBindings(bindings0, bindings) && forall b <- bindings0.Keys :: bindings0[b].interface.None?
    requires forall b <- bindings.Keys :: AddedTo(Everything, interfaces, pools, bindings0[b], bindings[b])
    ensures RulesAppliedBut(interfaces, bindings, pools, {})
  {
    forall b <- bindings.Keys ensures RuleApplied(interfaces, pools, bindings[b]) {
      assert AddedTo(Everything, interfaces, pools, bindings0[b], bindings[b]);
    }
  }

  /** Only destination entries of a new prefix have to be applied. */
  lemma ToApplyWithMore(interfaces: set<Interface>, more: Interface, statics: map<Ip, Static>)
    requires DisjointPrefixes(interfaces + {more}) && more !in interfaces && AppliedBut(interfaces, statics, {})
    ensures forall k <- statics.Keys :: ToApply(interfaces + {more}, more.prefix, k, statics[k])
  {
    MoreHomes(interfaces, more.port, more.prefix);
    forall k <- statics.Keys ensures ToApply(interfaces + {more}, more.prefix, k, statics[k]) {
      assert Applied(interfaces, k, statics[k]);
    }
  }

  lemma RulesWithMore(interfaces: set<Interface>, more: Interface, bindings0: map<Key, Binding>,
                      bindings: map<Key, Binding>, pools: map<Key, Pool>)
    requires DisjointPrefixes(interfaces + {more}) && more !in interfaces && SameBindings(bindings0, bindings)
    requires RulesAppliedBut(interfaces, bindings0, pools, {})
    requires forall b <- bindings.Keys ::
      AddedTo(OnPrefix(more.port, more.prefix), interfaces + {more}, pools, bindings0[b], bindings[b])
    ensures RulesAppliedBut(interfaces + {more}, bindings, pools, {})
  {
    MoreHomes(interfaces, more.port, more.prefix);
    forall b <- bindings.Keys ensures RuleApplied(interfaces + {more}, pools, bindings[b]) {
      assert RuleApplied(interfaces, pools, bindings0[b]);
      assert AddedTo(OnPrefix(more.port, more.prefix), interfaces + {more}, pools, bindings0[b], bindings[b]);
    }
  }

  /** Without a prefix its destination entries have no interface. */
  lemma AppliedWithout(interfaces: set<Interface>, less: Interface, statics0: map<Ip, Static>,
                       statics: map<Ip, Static>)
    requires DisjointPrefixes(interfaces) && less in interfaces && AppliedBut(interfaces, statics0, {})
    requires SameStatics(statics0, statics)
    requires forall k <- statics.Keys :: Gone(OnPrefix(less.port, less.prefix), k, statics0[k], statics[k])
    ensures AppliedBut(interfaces - {less}, statics, {})
  {
    assert interfaces - {less} + {less} == interfaces;
    MoreHomes(interfaces - {less}, less.port, less.prefix);
    forall k <- statics.Keys ensures Applied(interfaces - {less}, k, statics[k]) {
      assert Applied(interfaces, k, statics0[k]);
      if statics[k].natType == Dnat && InSubnet(less.prefix, k) {
        OnlyHome(interfaces, less, k);
      }
    }
  }

  lemma RulesWithout(interfaces: set<Interface>, less: Interface, bindings0: map<Key, Binding>,
                     pools0: map<Key, Pool>, bindings: map<Key, Binding>, pools: map<Key, Pool>)
    requires DisjointPrefixes(interfaces) && less in interfaces && SameBindings(bindings0, bindings)
    requires SameRanges(pools0, pools) && RulesAppliedBut(interfaces, bindings0, pools0, {})
    requires forall b <- bindings.Keys ::
      RemovedFrom(OnPrefix(less.port, less.prefix), pools0, bindings0[b], bindings[b])
    ensures RulesAppliedBut(interfaces - {less}, bindings, pools, {})
  {
    assert interfaces - {less} + {less} == interfaces;
    MoreHomes(interfaces - {less}, less.port, less.prefix);
    forall b <- bindings.Keys ensures RuleApplied(interfaces - {less}, pools, bindings[b]) {
      assert RuleApplied(interfaces, pools0, bindings0[b]);
      var pool := bindings[b].pool;
      if pool in pools0 && pools0[pool].Range? && InSubnet(less.prefix, pools0[pool].low) {
        OnlyHome(interfaces, less, pools0[pool].low);
        if bindings[b].id == "" {
          HomeIsUnique(interfaces, pools0[pool].low, Some(less.port), bindings0[b].interface);
        }
      }
    }
  }

  /** An address of one of the disjoint prefixes has no interface without it. */
  lemma OnlyHome(interfaces: set<Interface>, less: Interface, ip: Ip)
    requires DisjointPrefixes(interfaces) && less in interfaces && InSubnet(less.prefix, ip)
    ensures Home(interfaces, ip, Some(less.port)) && Home(interfaces - {less}, ip, None)
  {
  }

  /** A zone change leaves the rules of bindings without an id applied as they were. */
  lemma RulesAfterZone(port: Port, interfaces: set<Interface>, bindings0: map<Key, Binding>, pools0: map<Key, Pool>,
                       bindings: map<Key, Binding>, pools: map<Key, Pool>)
    requires SameBindings(bindings0, bindings) && SameRanges(pools0, pools)
    requires RulesAppliedBut(interfaces, bindings0, pools0, {})
    requires forall b <- bindings.Keys :: ZoneChanged(port, interfaces, pools0, bindings0[b], bindings[b])
    ensures RulesAppliedBut(interfaces, bindings, pools, {})
  {
    forall b <- bindings.Keys ensures RuleApplied(interfaces, pools, bindings[b]) {
      assert RuleApplied(interfaces, pools0, bindings0[b]);
      assert ZoneChanged(port, interfaces, pools0, bindings0[b], bindings[b]);
    }
  }
}
