/**
  The static entries and pool bindings of the NAT manager.  Two that carry the
  same twice_nat_id are paired: a source and a destination static entry, or a
  static entry and a pool binding of one type.  What the flags and cross keys
  that record the pairs must say, and how pairs are made and broken.
 */
module NatPairs {
  import opened NatInterfaces
  import opened Wrappers

  datatype Static = Static(localIp: Ip, natType: NatType, id: string, interface: Option<Port>,
                           added: bool, bindingKey: Option<Key>)

  /** `natType` is None unless the binding was configured with an explicit one. */
  datatype Binding = Binding(pool: Key, natType: Option<NatType>, id: string, interface: Option<Port>,
                             added: bool, staticKey: Option<Ip>)

  // ---------- the pairs ----------

  ghost predicate PairedStatics(statics: map<Ip, Static>, k: Ip, m: Ip) {
    && k != m && k in statics && m in statics
    && statics[k].added && statics[m].added
    && statics[k].bindingKey.None? && statics[m].bindingKey.None?
    && statics[k].id == statics[m].id != ""
    && statics[k].natType != statics[m].natType
    && statics[k].interface.Some? && statics[m].interface.Some?
  }

  predicate UsablePool(pools: map<Key, Pool>, pool: Key) {
    pool in pools && pools[pool].Range? && pools[pool].ports == ""
  }

  ghost predicate PairedBinding(statics: map<Ip, Static>, bindings: map<Key, Binding>, pools: map<Key, Pool>, k: Ip,
                                b: Key) {
    && k in statics && b in bindings
    && statics[k].added && bindings[b].added
    && statics[k].bindingKey == Some(b) && bindings[b].staticKey == Some(k)
    && statics[k].id == bindings[b].id != ""
    && bindings[b].natType == Some(statics[k].natType)
    && statics[k].interface.Some? && bindings[b].interface.Some?
    && UsablePool(pools, bindings[b].pool)
  }

  ghost predicate StaticMatched(statics: map<Ip, Static>, bindings: map<Key, Binding>, pools: map<Key, Pool>, k: Ip) {
    k in statics &&
    if !statics[k].added then statics[k].bindingKey.None?
    else if statics[k].bindingKey.Some? then PairedBinding(statics, bindings, pools, k, statics[k].bindingKey.value)
    else exists m <- statics.Keys :: PairedStatics(statics, k, m)
  }

  ghost predicate BindingMatched(statics: map<Ip, Static>, bindings: map<Key, Binding>, pools: map<Key, Pool>, b: Key)
    requires b in bindings
  {
    if !bindings[b].added then bindings[b].staticKey.None?
    else bindings[b].staticKey.Some? && PairedBinding(statics, bindings, pools, bindings[b].staticKey.value, b)
  }

  /** The flags and cross keys describe pairs. */
  ghost predicate Matched(statics: map<Ip, Static>, bindings: map<Key, Binding>, pools: map<Key, Pool>) {
    && (forall k {:trigger StaticMatched(statics, bindings, pools, k)} ::
         k in statics ==> StaticMatched(statics, bindings, pools, k))
    && (forall b {:trigger BindingMatched(statics, bindings, pools, b)} ::
         b in bindings ==> BindingMatched(statics, bindings, pools, b))
  }

  ghost function StaticUsers(statics: map<Ip, Static>, id: string): set<Ip> {
    set k | k in statics && statics[k].id == id
  }

  ghost function BindingUsers(bindings: map<Key, Binding>, id: string): set<Key> {
    set b | b in bindings && bindings[b].id == id
  }

  /** Each twice_nat_id is carried by at most two objects. */
  ghost predicate AtMostTwoUsers(statics: map<Ip, Static>, bindings: map<Key, Binding>) {
    forall id: string | id != "" :: |StaticUsers(statics, id)| + |BindingUsers(bindings, id)| <= 2
  }

  lemma SubsetIsSmaller<T>(s: set<T>, some: set<T>)
    requires some <= s
    ensures |some| <= |s|
  {
    assert s == some + (s - some);
  }

  lemma NoThirdUser(statics: map<Ip, Static>, bindings: map<Key, Binding>, id: string)
    requires AtMostTwoUsers(statics, bindings) && id != ""
    ensures forall k, m, n | k in StaticUsers(statics, id)
      && m in StaticUsers(statics, id) && n in StaticUsers(statics, id) && k != m ::
              n == k || n == m
    ensures forall k, m, b | k in StaticUsers(statics, id)
      && m in StaticUsers(statics, id) && b in BindingUsers(bindings, id) :: k == m
    ensures forall k, b, c | k in StaticUsers(statics, id)
      && b in BindingUsers(bindings, id) && c in BindingUsers(bindings, id) :: b == c
  {
    var ks, bs := StaticUsers(statics, id), BindingUsers(bindings, id);
    assert |ks| + |bs| <= 2;
    forall k, m, n | k in ks && m in ks && n in ks && k != m ensures n == k || n == m {
      if n != k && n != m { SubsetIsSmaller(ks, {k, m, n}); }
    }
    forall k, m, b | k in ks && m in ks && b in bs ensures k == m {
      if k != m { SubsetIsSmaller(ks, {k, m}); SubsetIsSmaller(bs, {b}); }
    }
    forall k, b, c | k in ks && b in bs && c in bs ensures b == c {
      if b != c { SubsetIsSmaller(ks, {k}); SubsetIsSmaller(bs, {b, c}); }
    }
  }

  /** A static entry has one partner, and its partner has it. */
  lemma PartnerIsUnique(statics: map<Ip, Static>, bindings: map<Key, Binding>, pools: map<Key, Pool>, k: Ip, m: Ip)
    requires Matched(statics, bindings, pools) && AtMostTwoUsers(statics, bindings)
    requires PairedStatics(statics, k, m)
    ensures PairedStatics(statics, m, k)
    ensures forall n :: PairedStatics(statics, k, n) ==> n == m
    ensures forall b :: !PairedBinding(statics, bindings, pools, k, b)
  {
    NoThirdUser(statics, bindings, statics[k].id);
    forall n | PairedStatics(statics, k, n) ensures n == m {
      assert k in StaticUsers(statics, statics[k].id) && m in StaticUsers(statics, statics[k].id);
      assert n in StaticUsers(statics, statics[k].id);
    }
  }

  lemma BindingPartnerIsUnique(statics: map<Ip, Static>, bindings: map<Key, Binding>, pools: map<Key, Pool>, k: Ip,
                               b: Key)
    requires Matched(statics, bindings, pools) && AtMostTwoUsers(statics, bindings)
    requires PairedBinding(statics, bindings, pools, k, b)
    ensures forall m :: !PairedStatics(statics, k, m)
    ensures forall n, c :: PairedBinding(statics, bindings, pools, n, c) ==> (n == k <==> c == b)
  {
  }

  /** An entry is flagged exactly when it has a partner, and then it has one, of one kind. */
  lemma FlaggedIffPartnered(statics: map<Ip, Static>, bindings: map<Key, Binding>, pools: map<Key, Pool>, k: Ip)
    requires Matched(statics, bindings, pools) && AtMostTwoUsers(statics, bindings) && k in statics
    ensures statics[k].added <==>
              (exists m :: PairedStatics(statics, k, m)) || (exists b :: PairedBinding(statics, bindings, pools, k, b))
    ensures forall m, n :: PairedStatics(statics, k, m) && PairedStatics(statics, k, n) ==> m == n
    ensures forall m, b :: !(PairedStatics(statics, k, m) && PairedBinding(statics, bindings, pools, k, b))
    ensures forall b, c ::
      PairedBinding(statics, bindings, pools, k, b) && PairedBinding(statics, bindings, pools, k, c) ==> b == c
  {
    assert StaticMatched(statics, bindings, pools, k);
    forall m, n | PairedStatics(statics, k, m) && PairedStatics(statics, k, n) ensures m == n {
      PartnerIsUnique(statics, bindings, pools, k, m);
    }
  }

  // ---------- pairs still to be made ----------

  /** An applied entry with an id and no partner. */
  predicate WaitingStatic(statics: map<Ip, Static>, k: Ip) {
    k in statics && statics[k].id != "" && !statics[k].added && statics[k].interface.Some?
  }

  predicate WaitingBinding(bindings: map<Key, Binding>, pools: map<Key, Pool>, b: Key) {
    && b in bindings && bindings[b].id != "" && !bindings[b].added && bindings[b].interface.Some?
    && UsablePool(pools, bindings[b].pool)
  }

  /** Two waiting entries that could be partners. */
  ghost predicate MayPair(statics: map<Ip, Static>, k: Ip, m: Ip) {
    && WaitingStatic(statics, k) && WaitingStatic(statics, m) && k != m
    && statics[k].id == statics[m].id && statics[k].natType != statics[m].natType
  }

  ghost predicate MayBind(statics: map<Ip, Static>, bindings: map<Key, Binding>, pools: map<Key, Pool>, k: Ip,
                          b: Key) {
    && WaitingStatic(statics, k) && WaitingBinding(bindings, pools, b)
    && statics[k].id == bindings[b].id && bindings[b].natType == Some(statics[k].natType)
  }

  /** Whatever could still be paired involves one of the given objects. */
  ghost predicate NoneLeftBut(statics: map<Ip, Static>, bindings: map<Key, Binding>, pools: map<Key, Pool>,
                              ks: set<Ip>, bs: set<Key>) {
    && (forall k, m {:trigger MayPair(statics, k, m)} :: MayPair(statics, k, m) ==> k in ks || m in ks)
    && (forall k, b {:trigger MayBind(statics, bindings, pools, k, b)} ::
         MayBind(statics, bindings, pools, k, b) ==> k in ks || b in bs)
  }

  /** Objects that wait for no other reason than before make no new candidates. */
  lemma StillNoneLeft(statics0: map<Ip, Static>, bindings0: map<Key, Binding>, pools0: map<Key, Pool>,
                      ks0: set<Ip>, bs0: set<Key>, statics: map<Ip, Static>, bindings: map<Key, Binding>,
                      pools: map<Key, Pool>, ks: set<Ip>, bs: set<Key>)
    requires NoneLeftBut(statics0, bindings0, pools0, ks0, bs0)
    requires forall k {:trigger WaitingStatic(statics, k)} :: WaitingStatic(statics, k) ==>
      k in ks || (&& k !in ks0 && WaitingStatic(statics0, k)
                  && statics[k].id == statics0[k].id && statics[k].natType == statics0[k].natType)
    requires forall b {:trigger WaitingBinding(bindings, pools, b)} :: WaitingBinding(bindings, pools, b) ==>
      b in bs || (&& b !in bs0 && WaitingBinding(bindings0, pools0, b)
                  && bindings[b].id == bindings0[b].id && bindings[b].natType == bindings0[b].natType)
    ensures NoneLeftBut(statics, bindings, pools, ks, bs)
  {
    forall k, m | MayPair(statics, k, m) ensures k in ks || m in ks {
      if k !in ks && m !in ks { assert MayPair(statics0, k, m); }
    }
    forall k, b | MayBind(statics, bindings, pools, k, b) ensures k in ks || b in bs {
      if k !in ks && b !in bs { assert MayBind(statics0, bindings0, pools0, k, b); }
    }
  }

  /** The partner a split leaves behind finds no other. */
  lemma NoneLeftAfterSplit(statics: map<Ip, Static>, bindings: map<Key, Binding>, pools: map<Key, Pool>, k: Ip, m: Ip)
    requires AtMostTwoUsers(statics, bindings) && PairedStatics(statics, k, m)
    requires NoneLeftBut(statics, bindings, pools, {}, {})
    ensures NoneLeftBut(WithFlags(statics, k, m, false, None), bindings, pools, {}, {})
  {
    var after := WithFlags(statics, k, m, false, None);
    NoThirdUser(statics, bindings, statics[k].id);
    assert k in StaticUsers(statics, statics[k].id) && m in StaticUsers(statics, statics[k].id);
    StillNoneLeft(statics, bindings, pools, {}, {}, after, bindings, pools, {m}, {});
    assert forall x <- statics.Keys :: statics[x].id == statics[k].id ==> x in StaticUsers(statics, statics[k].id);
    assert forall b <- bindings.Keys :: bindings[b].id == statics[k].id ==> b in BindingUsers(bindings, statics[k].id);
  }

  /** A new pair makes no new candidates. */
  lemma NoneLeftAfterBind(statics: map<Ip, Static>, bindings: map<Key, Binding>, pools: map<Key, Pool>, k: Ip, b: Key)
    requires k in statics && b in bindings
    ensures NoneLeftBut(statics, bindings, pools, {k}, {}) || NoneLeftBut(statics, bindings, pools, {}, {b}) ==>
      NoneLeftBut(Bound(statics, k, Some(b)), Rebound(bindings, b, Some(k)), pools, {}, {})
  {
    if NoneLeftBut(statics, bindings, pools, {k}, {}) || NoneLeftBut(statics, bindings, pools, {}, {b}) {
      StillNoneLeft(statics, bindings, pools, {k}, {b}, Bound(statics, k, Some(b)), Rebound(bindings, b, Some(k)),
                    pools, {}, {});
    }
  }

  lemma BackAndForth(statics: map<Ip, Static>, bindings: map<Key, Binding>, k: Ip, b: Key)
    requires k in statics && b in bindings
    ensures Bound(statics, k, None)[k := statics[k]] == statics
    ensures Rebound(bindings, b, None)[b := bindings[b]] == bindings
  {
  }

  /** The two sides of a binding pair that is split find no other partners than each other. */
  lemma NoneLeftAfterUnbind(statics: map<Ip, Static>, bindings: map<Key, Binding>, pools: map<Key, Pool>, k: Ip,
                            b: Key)
    requires AtMostTwoUsers(statics, bindings) && PairedBinding(statics, bindings, pools, k, b)
    requires NoneLeftBut(statics, bindings, pools, {}, {})
    ensures NoneLeftBut(Bound(statics, k, None), Rebound(bindings, b, None), pools, {k}, {})
    ensures NoneLeftBut(Bound(statics, k, None), Rebound(bindings, b, None), pools, {}, {b})
  {
    var after, bound := Bound(statics, k, None), Rebound(bindings, b, None);
    NoThirdUser(statics, bindings, statics[k].id);
    assert k in StaticUsers(statics, statics[k].id) && b in BindingUsers(bindings, statics[k].id);
    StillNoneLeft(statics, bindings, pools, {}, {}, after, bound, pools, {k}, {b});
    assert forall x <- statics.Keys :: statics[x].id == statics[k].id ==> x in StaticUsers(statics, statics[k].id);
    assert forall c <- bindings.Keys :: bindings[c].id == statics[k].id ==> c in BindingUsers(bindings, statics[k].id);
  }

  ghost predicate OneBindingPerPool(bindings: map<Key, Binding>) {
    forall a <- bindings.Keys, b <- bindings.Keys | bindings[a].pool == bindings[b].pool :: a == b
  }

  // ---------- making and breaking one pair ----------

  /** A pair stays one as long as neither of its entries changes. */
  lemma PairStays(before: map<Ip, Static>, after: map<Ip, Static>, k: Ip, m: Ip)
    requires PairedStatics(before, k, m) && k in after && m in after
    requires after[k] == before[k] && after[m] == before[m]
    ensures PairedStatics(after, k, m)
  {
  }

  ghost predicate Unchanged(before: map<Ip, Static>, after: map<Ip, Static>, k: Ip) {
    k in before && k in after && after[k] == before[k]
  }

  /** Entries outside a set of unpaired ones keep their partners when only the set changes. */
  lemma OthersStayMatched(before: map<Ip, Static>, after: map<Ip, Static>, bindings: map<Key, Binding>,
                          pools: map<Key, Pool>, some: set<Ip>)
    requires Matched(before, bindings, pools)
    requires forall n <- before.Keys - some :: Unchanged(before, after, n)
    requires forall n <- some :: n in before ==> before[n].bindingKey.None?
    requires forall n, p :: PairedStatics(before, n, p) && p in some ==> n in some
    ensures forall n <- before.Keys - some :: StaticMatched(after, bindings, pools, n)
    ensures forall b <- bindings.Keys :: BindingMatched(after, bindings, pools, b)
  {
    forall n <- before.Keys - some ensures StaticMatched(after, bindings, pools, n) {
      assert StaticMatched(before, bindings, pools, n) && Unchanged(before, after, n);
      if before[n].added && before[n].bindingKey.None? {
        var p :| p in before.Keys && PairedStatics(before, n, p);
        assert Unchanged(before, after, p);
        PairStays(before, after, n, p);
      }
    }
    forall b <- bindings.Keys ensures BindingMatched(after, bindings, pools, b) {
      assert BindingMatched(before, bindings, pools, b);
      if bindings[b].added {
        assert Unchanged(before, after, bindings[b].staticKey.value);
      }
    }
  }

  /** The entries with the flags of a pair set, and the interface of its first entry. */
  function WithFlags(statics: map<Ip, Static>, k: Ip, m: Ip, added: bool, intf: Option<Port>): map<Ip, Static> {
    map n | n in statics ::
      if n == k then statics[n].(added := added, interface := intf)
      else if n == m then statics[n].(added := added)
      else statics[n]
  }

  lemma JoinStatics(statics: map<Ip, Static>, bindings: map<Key, Binding>, pools: map<Key, Pool>, k: Ip, m: Ip)
    requires Matched(statics, bindings, pools)
    requires k != m && k in statics && m in statics && !statics[k].added && !statics[m].added
    requires statics[k].id == statics[m].id != "" && statics[k].natType != statics[m].natType
    requires statics[k].interface.Some? && statics[m].interface.Some?
    ensures Matched(WithFlags(statics, k, m, true, statics[k].interface), bindings, pools)
  {
    var after := WithFlags(statics, k, m, true, statics[k].interface);
    assert StaticMatched(statics, bindings, pools, k) && StaticMatched(statics, bindings, pools, m);
    OthersStayMatched(statics, after, bindings, pools, {k, m});
    assert PairedStatics(after, k, m) && PairedStatics(after, m, k);
    forall n <- after.Keys ensures StaticMatched(after, bindings, pools, n) {
      assert n in {k, m} || n in statics.Keys - {k, m};
    }
  }

  lemma SplitStatics(statics: map<Ip, Static>, bindings: map<Key, Binding>, pools: map<Key, Pool>, k: Ip, m: Ip,
                     intf: Option<Port>)
    requires Matched(statics, bindings, pools) && AtMostTwoUsers(statics, bindings)
    requires PairedStatics(statics, k, m)
    ensures Matched(WithFlags(statics, k, m, false, intf), bindings, pools)
  {
    var after := WithFlags(statics, k, m, false, intf);
    PartnerIsUnique(statics, bindings, pools, k, m);
    PartnerIsUnique(statics, bindings, pools, m, k);
    forall n, p | PairedStatics(statics, n, p) && p in {k, m} ensures n in {k, m} {
      PartnerIsUnique(statics, bindings, pools, n, p);
    }
    OthersStayMatched(statics, after, bindings, pools, {k, m});
    forall n <- after.Keys ensures StaticMatched(after, bindings, pools, n) {
      assert n in {k, m} || n in statics.Keys - {k, m};
    }
  }

  /** An entry with no partner may be cached, changed or dropped. */
  lemma ChangeUnpaired(statics: map<Ip, Static>, bindings: map<Key, Binding>, pools: map<Key, Pool>, k: Ip,
                       entry: Static)
    requires Matched(statics, bindings, pools) && (k in statics ==> !statics[k].added)
    requires !entry.added && entry.bindingKey.None?
    ensures Matched(statics[k := entry], bindings, pools)
  {
    if k in statics { assert StaticMatched(statics, bindings, pools, k); }
    OthersStayMatched(statics, statics[k := entry], bindings, pools, {k});
  }

  lemma DropUnpaired(statics: map<Ip, Static>, bindings: map<Key, Binding>, pools: map<Key, Pool>, k: Ip)
    requires Matched(statics, bindings, pools) && k in statics && !statics[k].added
    ensures Matched(statics - {k}, bindings, pools)
  {
    assert StaticMatched(statics, bindings, pools, k);
    OthersStayMatched(statics, statics - {k}, bindings, pools, {k});
  }

  lemma JoinBinding(statics: map<Ip, Static>, bindings: map<Key, Binding>, pools: map<Key, Pool>, k: Ip, b: Key)
    requires Matched(statics, bindings, pools)
    requires k in statics && b in bindings && !statics[k].added && !bindings[b].added
    requires statics[k].id == bindings[b].id != "" && bindings[b].natType == Some(statics[k].natType)
    requires statics[k].interface.Some? && bindings[b].interface.Some? && UsablePool(pools, bindings[b].pool)
    ensures Matched(statics[k := statics[k].(added := true, bindingKey := Some(b))],
                    bindings[b := bindings[b].(added := true, staticKey := Some(k))], pools)
  {
    var after := statics[k := statics[k].(added := true, bindingKey := Some(b))];
    var bound := bindings[b := bindings[b].(added := true, staticKey := Some(k))];
    assert StaticMatched(statics, bindings, pools, k);
    OthersStayMatched(statics, after, bindings, pools, {k});
    RebindOthers(after, bindings, bound, pools, k, b);
  }

  lemma SplitBinding(statics: map<Ip, Static>, bindings: map<Key, Binding>, pools: map<Key, Pool>, k: Ip, b: Key)
    requires Matched(statics, bindings, pools)
    requires PairedBinding(statics, bindings, pools, k, b)
    ensures Matched(statics[k := statics[k].(added := false, bindingKey := None)],
                    bindings[b := bindings[b].(added := false, staticKey := None)], pools)
  {
    var after := statics[k := statics[k].(added := false, bindingKey := None)];
    var bound := bindings[b := bindings[b].(added := false, staticKey := None)];
    forall n <- after.Keys ensures StaticMatched(after, bound, pools, n) {
      assert StaticMatched(statics, bindings, pools, n);
      if n != k && statics[n].added && statics[n].bindingKey.None? {
        var p :| p in statics.Keys && PairedStatics(statics, n, p);
        PairStays(statics, after, n, p);
      }
    }
    forall c <- bound.Keys ensures BindingMatched(after, bound, pools, c) {
      assert BindingMatched(statics, bindings, pools, c);
    }
  }

  /** Only the entry paired with a binding looks at it. */
  lemma RebindOthers(statics: map<Ip, Static>, bindings: map<Key, Binding>, bound: map<Key, Binding>,
                     pools: map<Key, Pool>, k: Ip, b: Key)
    requires b in bindings && !bindings[b].added && b in bound && bound == bindings[b := bound[b]]
    requires forall n <- statics.Keys - {k} :: StaticMatched(statics, bindings, pools, n)
    requires forall c <- bindings.Keys :: BindingMatched(statics, bindings, pools, c)
    requires k in statics && PairedBinding(statics, bound, pools, k, b)
    ensures Matched(statics, bound, pools)
  {
    forall n <- statics.Keys ensures StaticMatched(statics, bound, pools, n) {
      if n != k { assert StaticMatched(statics, bindings, pools, n); }
    }
    forall c <- bound.Keys ensures BindingMatched(statics, bound, pools, c) {
      if c != b { assert BindingMatched(statics, bindings, pools, c); }
    }
  }

  lemma ChangeUnpairedBinding(statics: map<Ip, Static>, bindings: map<Key, Binding>, pools: map<Key, Pool>, b: Key,
                              binding: Binding)
    requires Matched(statics, bindings, pools) && (b in bindings ==> !bindings[b].added)
    requires !binding.added && binding.staticKey.None?
    ensures Matched(statics, bindings[b := binding], pools)
  {
    var after := bindings[b := binding];
    forall k <- statics.Keys ensures StaticMatched(statics, after, pools, k) {
      assert StaticMatched(statics, bindings, pools, k);
    }
    forall c <- after.Keys ensures BindingMatched(statics, after, pools, c) {
      if c != b { assert BindingMatched(statics, bindings, pools, c); }
    }
  }

  lemma DropUnpairedBinding(statics: map<Ip, Static>, bindings: map<Key, Binding>, pools: map<Key, Pool>, b: Key)
    requires Matched(statics, bindings, pools) && b in bindings && !bindings[b].added
    ensures Matched(statics, bindings - {b}, pools)
  {
    forall k <- statics.Keys ensures StaticMatched(statics, bindings - {b}, pools, k) {
      assert StaticMatched(statics, bindings, pools, k);
    }
    forall c <- (bindings - {b}).Keys ensures BindingMatched(statics, bindings - {b}, pools, c) {
      assert BindingMatched(statics, bindings, pools, c);
    }
  }

  lemma ChangeUnusedPool(statics: map<Ip, Static>, bindings: map<Key, Binding>, pools: map<Key, Pool>, name: Key,
                         after: map<Key, Pool>)
    requires Matched(statics, bindings, pools)
    requires forall b <- bindings.Keys | bindings[b].pool == name :: !bindings[b].added
    requires forall p :: p != name ==> (p in after <==> p in pools) && (p in after ==> after[p] == pools[p])
    ensures Matched(statics, bindings, after)
  {
    forall k <- statics.Keys ensures StaticMatched(statics, bindings, after, k) {
      assert StaticMatched(statics, bindings, pools, k);
    }
    forall b <- bindings.Keys ensures BindingMatched(statics, bindings, after, b) {
      assert BindingMatched(statics, bindings, pools, b);
    }
  }

  ghost function UsersOf(bindings: map<Key, Binding>, pool: Key): set<Key> {
    set b | b in bindings && bindings[b].pool == pool
  }

  /** The configuration of the static entries, which no pairing changes. */
  ghost predicate SameStatics(before: map<Ip, Static>, after: map<Ip, Static>) {
    && after.Keys == before.Keys
    && forall k <- after.Keys ::
         after[k].localIp == before[k].localIp && after[k].natType == before[k].natType && after[k].id == before[k].id
  }

  ghost predicate SameBindings(before: map<Key, Binding>, after: map<Key, Binding>) {
    && after.Keys == before.Keys
    && forall b <- after.Keys ::
         after[b].pool == before[b].pool && after[b].natType == before[b].natType && after[b].id == before[b].id
  }

  /** ... and which of them are applied. */
  ghost predicate SameStaticsOn(before: map<Ip, Static>, after: map<Ip, Static>) {
    SameStatics(before, after) && forall k <- after.Keys :: after[k].interface == before[k].interface
  }

  ghost predicate SameBindingsOn(before: map<Key, Binding>, after: map<Key, Binding>) {
    SameBindings(before, after) && forall b <- after.Keys :: after[b].interface == before[b].interface
  }

  /** At most one entry was withdrawn, and no entry gained a partner. */
  ghost predicate OnlyWithdrew(before: map<Ip, Static>, after: map<Ip, Static>, key: Ip) {
    && SameStatics(before, after)
    && (forall k <- after.Keys :: after[k].interface == before[k].interface || (k == key && after[k].interface.None?))
    && (forall k <- after.Keys :: after[k].added ==> before[k].added)
  }

  /** The counts of users and the pool of each binding are configuration. */
  lemma HypothesesStay(statics0: map<Ip, Static>, bindings0: map<Key, Binding>, statics: map<Ip, Static>,
                       bindings: map<Key, Binding>)
    requires AtMostTwoUsers(statics0, bindings0) && OneBindingPerPool(bindings0)
    requires SameStatics(statics0, statics) && SameBindings(bindings0, bindings)
    ensures AtMostTwoUsers(statics, bindings) && OneBindingPerPool(bindings)
  {
    forall id: string | id != "" ensures |StaticUsers(statics, id)| + |BindingUsers(bindings, id)| <= 2 {
      assert StaticUsers(statics, id) == StaticUsers(statics0, id);
      assert BindingUsers(bindings, id) == BindingUsers(bindings0, id);
    }
  }

  lemma FlagsAreNotConfig(statics: map<Ip, Static>, k: Ip, m: Ip, added: bool, intf: Option<Port>)
    requires k in statics && m in statics
    requires intf == statics[k].interface || intf.None?
    ensures SameStatics(statics, WithFlags(statics, k, m, added, intf))
    ensures intf == statics[k].interface ==> SameStaticsOn(statics, WithFlags(statics, k, m, added, intf))
    ensures !added ==> OnlyWithdrew(statics, WithFlags(statics, k, m, added, intf), k)
  {
  }

  function Bound(statics: map<Ip, Static>, k: Ip, b: Option<Key>): map<Ip, Static>
    requires k in statics
  {
    statics[k := statics[k].(added := b.Some?, bindingKey := b)]
  }

  function Rebound(bindings: map<Key, Binding>, b: Key, k: Option<Ip>): map<Key, Binding>
    requires b in bindings
  {
    bindings[b := bindings[b].(added := k.Some?, staticKey := k)]
  }

  /** The test of the pairing loop over static entries. */
  predicate CanPair(statics: map<Ip, Static>, k: Ip, m: Ip)
    requires k in statics && m in statics
  {
    && m != k && statics[m].id == statics[k].id && !statics[m].added && !statics[k].added
    && statics[m].interface.Some? && statics[k].interface.Some? && statics[m].natType != statics[k].natType
  }

  /** The test of the pairing loops between a static entry and a binding. */
  predicate CanBind(statics: map<Ip, Static>, bindings: map<Key, Binding>, pools: map<Key, Pool>, k: Ip, b: Key)
    requires k in statics && b in bindings
  {
    && bindings[b].id == statics[k].id && !bindings[b].added && !statics[k].added
    && bindings[b].interface.Some? && statics[k].interface.Some? && bindings[b].natType == Some(statics[k].natType)
    && UsablePool(pools, bindings[b].pool)
  }

  /** Two flagged static entries with one id are each other's partners. */
  lemma FlaggedTogether(statics: map<Ip, Static>, bindings: map<Key, Binding>, pools: map<Key, Pool>, k: Ip, m: Ip)
    requires Matched(statics, bindings, pools) && AtMostTwoUsers(statics, bindings)
    requires k in statics && m in statics && k != m && statics[k].added
      && statics[m].added && statics[k].id == statics[m].id
    ensures PairedStatics(statics, k, m)
  {
    var id := statics[k].id;
    assert StaticMatched(statics, bindings, pools, k);
    assert k in StaticUsers(statics, id) && m in StaticUsers(statics, id);
    if statics[k].bindingKey.Some? {
      assert statics[k].bindingKey.value in BindingUsers(bindings, id);
    } else {
      var p :| p in statics.Keys && PairedStatics(statics, k, p);
      assert p in StaticUsers(statics, id);
    }
    NoThirdUser(statics, bindings, id);
  }

  /** An applied entry an applied static entry could be paired with, whatever pairs there are. */
  ghost predicate Eligible(statics: map<Ip, Static>, k: Ip, m: Ip) {
    && k in statics && m in statics && k != m && statics[k].id == statics[m].id
    && statics[k].natType != statics[m].natType && statics[k].interface.Some? && statics[m].interface.Some?
  }

  ghost predicate EligibleBinding(statics: map<Ip, Static>, bindings: map<Key, Binding>, pools: map<Key, Pool>, k: Ip,
                                  b: Key) {
    && k in statics && b in bindings && statics[k].id == bindings[b].id
    && bindings[b].natType == Some(statics[k].natType) && statics[k].interface.Some? && bindings[b].interface.Some?
    && UsablePool(pools, bindings[b].pool)
  }

  /** Of two eligible entries both are flagged or none is. */
  lemma FlaggedWithPartner(statics: map<Ip, Static>, bindings: map<Key, Binding>, pools: map<Key, Pool>, k: Ip, m: Ip)
    requires Matched(statics, bindings, pools) && AtMostTwoUsers(statics, bindings)
    requires Eligible(statics, k, m) && statics[k].id != "" && statics[m].added
    ensures statics[k].added
  {
    var id := statics[k].id;
    assert StaticMatched(statics, bindings, pools, m);
    NoThirdUser(statics, bindings, id);
    assert forall x <- statics.Keys :: statics[x].id == id ==> x in StaticUsers(statics, id);
    assert forall c <- bindings.Keys :: bindings[c].id == id ==> c in BindingUsers(bindings, id);
  }

  lemma FlaggedWithBinding(statics: map<Ip, Static>, bindings: map<Key, Binding>, pools: map<Key, Pool>, k: Ip, b: Key)
    requires Matched(statics, bindings, pools) && AtMostTwoUsers(statics, bindings)
    requires EligibleBinding(statics, bindings, pools, k, b) && statics[k].id != ""
    ensures bindings[b].added <==> statics[k].added
  {
    var id := statics[k].id;
    assert StaticMatched(statics, bindings, pools, k) && BindingMatched(statics, bindings, pools, b);
    NoThirdUser(statics, bindings, id);
    assert forall x <- statics.Keys :: statics[x].id == id ==> x in StaticUsers(statics, id);
    assert forall c <- bindings.Keys :: bindings[c].id == id ==> c in BindingUsers(bindings, id);
  }

  /**
    The flags kept event by event are those a recomputation would give: an entry
    with an id is flagged exactly when it and an eligible partner are applied.
   */
  lemma FlaggedIffEligible(statics: map<Ip, Static>, bindings: map<Key, Binding>, pools: map<Key, Pool>, k: Ip)
    requires Matched(statics, bindings, pools) && AtMostTwoUsers(statics, bindings)
    requires NoneLeftBut(statics, bindings, pools, {}, {})
    requires k in statics && statics[k].id != ""
    ensures statics[k].added <==> (exists m :: Eligible(statics, k, m))
                                  || (exists b :: EligibleBinding(statics, bindings, pools, k, b))
  {
    assert StaticMatched(statics, bindings, pools, k);
    if statics[k].added {
      if statics[k].bindingKey.Some? {
        assert EligibleBinding(statics, bindings, pools, k, statics[k].bindingKey.value);
      } else {
        var m :| m in statics.Keys && PairedStatics(statics, k, m);
        assert Eligible(statics, k, m);
      }
    } else {
      forall m | Eligible(statics, k, m) ensures MayPair(statics, k, m) {
        if statics[m].added { FlaggedWithPartner(statics, bindings, pools, k, m); }
      }
      forall b | EligibleBinding(statics, bindings, pools, k, b) ensures MayBind(statics, bindings, pools, k, b) {
        FlaggedWithBinding(statics, bindings, pools, k, b);
      }
    }
  }

  lemma BindingFlaggedIffEligible(statics: map<Ip, Static>, bindings: map<Key, Binding>, pools: map<Key, Pool>, b: Key)
    requires Matched(statics, bindings, pools) && AtMostTwoUsers(statics, bindings)
    requires NoneLeftBut(statics, bindings, pools, {}, {})
    requires b in bindings && bindings[b].id != ""
    ensures bindings[b].added <==> exists k :: EligibleBinding(statics, bindings, pools, k, b)
  {
    assert BindingMatched(statics, bindings, pools, b);
    if bindings[b].added {
      assert EligibleBinding(statics, bindings, pools, bindings[b].staticKey.value, b);
    } else {
      forall k | EligibleBinding(statics, bindings, pools, k, b) ensures MayBind(statics, bindings, pools, k, b) {
        FlaggedWithBinding(statics, bindings, pools, k, b);
      }
    }
  }

  function NewBinding(pool: Key, source: bool, id: string): Binding {
    Binding(pool, if source then Some(Snat) else None, id, None, false, None)
  }

  lemma OnlyOneChanged<K, V>(before: map<K, V>, after: map<K, V>, key: K)
    requires key in before && key in after && after - {key} == before - {key}
    ensures after == before[key := after[key]]
  {
    forall k <- after.Keys + before.Keys | k != key
      ensures k in before && k in after && after[k] == before[k]
    {
      assert k in after - {key} <==> k in before - {key};
      assert (after - {key})[k] == (before - {key})[k];
    }
  }

  /** Dropping an entry leaves no more users of an id. */
  lemma FewerUsers(statics0: map<Ip, Static>, bindings0: map<Key, Binding>, statics: map<Ip, Static>,
                   bindings: map<Key, Binding>)
    requires AtMostTwoUsers(statics0, bindings0)
    requires statics.Keys <= statics0.Keys && forall k <- statics.Keys :: statics[k] == statics0[k]
    requires bindings.Keys <= bindings0.Keys && forall b <- bindings.Keys :: bindings[b] == bindings0[b]
    ensures AtMostTwoUsers(statics, bindings)
  {
    forall id: string | id != "" ensures |StaticUsers(statics, id)| + |BindingUsers(bindings, id)| <= 2 {
      SubsetIsSmaller(StaticUsers(statics0, id), StaticUsers(statics, id));
      SubsetIsSmaller(BindingUsers(bindings0, id), BindingUsers(bindings, id));
    }
  }

  /** The users after an entry is cached do not depend on the pairs before. */
  lemma SameUsersWith(statics0: map<Ip, Static>, statics: map<Ip, Static>, bindings0: map<Key, Binding>,
                      bindings: map<Key, Binding>, key: Ip, entry: Static)
    requires AtMostTwoUsers(statics0[key := entry], bindings0) && OneBindingPerPool(bindings0)
    requires SameStatics(statics0, statics) && SameBindings(bindings0, bindings)
    ensures AtMostTwoUsers(statics[key := entry], bindings)
  {
    HypothesesStay(statics0[key := entry], bindings0, statics[key := entry], bindings);
  }
}
