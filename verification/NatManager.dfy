/**
  The NAT manager without access lists: the pairs of twice NAT, the reference
  counts of the DNAT pool and what is applied are kept by every static, pool,
  binding, global mode, interface and zone event.
 */
module NatManager {
  import opened DnatPool
  import opened NatInterfaces
  import opened NatPairs
  import opened NatRules
  import opened NatUses
  import opened Wrappers

  class NatMgr {
    const counts: DnatCounts
    var enabled: bool
    var statics: map<Ip, Static>
    var bindings: map<Key, Binding>
    var pools: map<Key, Pool>
    var interfaces: set<Interface>

    /** Every count is accounted for; while NAT is disabled nothing is active. */
    ghost predicate Conserved()
      reads this, counts
    {
      && counts.Valid() && (forall p <- pools.Keys :: Accepted(pools[p]))
      && (!enabled ==> forall k <- statics.Keys :: !ActiveStatic(statics[k]))
      && (forall ip: Ip :: counts.Count(ip) == Uses(statics, bindings, pools, ip))
    }

    ghost predicate Consistent()
      reads this, counts
    {
      Sound(enabled, interfaces, statics, bindings, pools) && Conserved()
    }

    ghost predicate NoneLeft(ks: set<Ip>, bs: set<Key>)
      reads this
    {
      NoneLeftBut(statics, bindings, pools, ks, bs)
    }

    /** What holds between events, but that some rules may still have to be applied. */
    ghost predicate SettledBut(bs: set<Key>)
      reads this, counts
    {
      && Consistent() && NoneLeft({}, {})
      && (enabled ==> AppliedBut(interfaces, statics, {}) && RulesAppliedBut(interfaces, bindings, pools, bs))
    }

    /**
      What holds between events: the pairs are as many as can be, the counts are those
      of what translates, and what is due is applied.
     */
    ghost predicate Settled()
      reads this, counts
    {
      SettledBut({})
    }

    constructor ()
      ensures fresh(counts) && counts.refs == map[] && counts.rows == {}
      ensures Settled() && !enabled && statics == map[] && bindings == map[] && pools == map[] && interfaces == {}
    {
      enabled, statics, bindings, pools, interfaces := false, map[], map[], map[], {};
      counts := new DnatCounts();
      new;
      assert forall ip: Ip :: Exposers(statics, ip) == {} && Coverers(bindings, pools, ip) == {};
      assert forall id: string :: StaticUsers(statics, id) == {} && BindingUsers(bindings, id) == {};
    }

    // ---------- a static entry looks for its partner ----------

    method PairUp(k: Ip, m: Ip)
      requires Consistent() && enabled && k in statics && m in statics && CanPair(statics, k, m) && statics[k].id != ""
      modifies this`statics, counts
      ensures Consistent() && SameStaticsOn(old(statics), statics)
      ensures statics[k].added && statics[m].added
      ensures old(NoneLeft({k}, {})) ==> NoneLeft({}, {})
    {
      var after := Joined(enabled, interfaces, statics, bindings, pools, k, m);
      if NoneLeft({k}, {}) {
        StillNoneLeft(statics, bindings, pools, {k}, {}, after, bindings, pools, {}, {});
      }
      UsesOfPair(statics, after, bindings, pools, k, m);
      var source, dest := if statics[k].natType == Snat then k else m, if statics[k].natType == Snat then m else k;
      counts.AddEntry(dest);
      counts.AddEntry(statics[source].localIp);
      statics := after;
    }

    method BindUp(k: Ip, b: Key)
      requires Consistent() && enabled && k in statics && b in bindings
        && CanBind(statics, bindings, pools, k, b) && statics[k].id != ""
      modifies this`statics, this`bindings, counts
      ensures Consistent() && SameStaticsOn(old(statics), statics) && SameBindingsOn(old(bindings), bindings)
      ensures statics[k].added && bindings[b].added
      ensures old(NoneLeft({k}, {}) || NoneLeft({}, {b})) ==> NoneLeft({}, {})
    {
      AfterBind(enabled, interfaces, statics, bindings, pools, k, b);
      counts.AddEntry(statics[k].localIp);
      counts.AddRange(pools[bindings[b].pool]);
      statics, bindings := Bound(statics, k, Some(b)), Rebound(bindings, b, Some(k));
    }

    /** The pair is dissolved and its first entry withdrawn. */
    method Unpair(k: Ip, m: Ip)
      requires Consistent() && PairedStatics(statics, k, m)
      modifies this`statics, counts
      ensures Consistent() && OnlyWithdrew(old(statics), statics, k)
      ensures !statics[k].added && !statics[m].added && statics[k].interface.None?
      ensures old(NoneLeft({}, {})) ==> NoneLeft({}, {})
    {
      var after := Split(enabled, interfaces, statics, bindings, pools, k, m);
      UsesAfterSplit(statics, after, bindings, pools, k, m);
      var source, dest := if statics[k].natType == Snat then k else m, if statics[k].natType == Snat then m else k;
      counts.RemoveEntry(dest);
      counts.RemoveEntry(statics[source].localIp);
      statics := after;
    }

    method Unbind(k: Ip, b: Key)
      requires Consistent() && PairedBinding(statics, bindings, pools, k, b)
      modifies this`statics, this`bindings, counts
      ensures Consistent() && SameStaticsOn(old(statics), statics) && SameBindingsOn(old(bindings), bindings)
      ensures OnlyWithdrew(old(statics), statics, k) && bindings - {b} == old(bindings) - {b}
      ensures !statics[k].added && !bindings[b].added
      ensures old(NoneLeft({}, {})) ==> NoneLeft({k}, {}) && NoneLeft({}, {b})
    {
      AfterUnbind(enabled, interfaces, statics, bindings, pools, k, b);
      counts.RemoveEntry(statics[k].localIp);
      counts.RemoveRange(pools[bindings[b].pool]);
      statics, bindings := Bound(statics, k, None), Rebound(bindings, b, None);
    }

    /** addStaticTwiceNatEntry: a static partner first, then a binding. */
    method AddStaticTwiceNatEntry(key: Ip)
      requires Consistent() && key in statics && statics[key].id != "" && enabled
      modifies this`statics, this`bindings, counts
      ensures Consistent() && SameStaticsOn(old(statics), statics) && SameBindingsOn(old(bindings), bindings)
      ensures statics[key].added <==> (old(statics)[key].added
        || (exists m <- old(statics).Keys :: CanPair(old(statics), key, m))
        || (exists b <- old(bindings).Keys :: CanBind(old(statics), old(bindings), pools, key, b)))
      ensures old(NoneLeft({key}, {})) ==> NoneLeft({}, {})
    {
      var todo := statics.Keys;
      while todo != {}
        invariant todo <= statics.Keys
        invariant statics == old(statics) && bindings == old(bindings)
        invariant forall m <- statics.Keys - todo :: !CanPair(statics, key, m)
        decreases todo
      {
        var m :| m in todo;
        todo := todo - {m};
        if CanPair(statics, key, m) {
          PairUp(key, m);
          return;
        }
      }
      BindStatic(key);
    }

    /** The second loop of addStaticTwiceNatEntry. */
    method BindStatic(key: Ip)
      requires Consistent() && key in statics && statics[key].id != "" && enabled
      requires forall m <- statics.Keys :: !CanPair(statics, key, m)
      modifies this`statics, this`bindings, counts
      ensures Consistent() && SameStaticsOn(old(statics), statics) && SameBindingsOn(old(bindings), bindings)
      ensures statics[key].added <==> (old(statics)[key].added
        || (exists b <- old(bindings).Keys :: CanBind(old(statics), old(bindings), pools, key, b)))
      ensures old(NoneLeft({key}, {})) ==> NoneLeft({}, {})
    {
      var todo := bindings.Keys;
      while todo != {}
        invariant todo <= bindings.Keys
        invariant statics == old(statics) && bindings == old(bindings)
        invariant forall b <- bindings.Keys - todo :: !CanBind(statics, bindings, pools, key, b)
        decreases todo
      {
        var b :| b in todo;
        todo := todo - {b};
        if CanBind(statics, bindings, pools, key, b) {
          BindUp(key, b);
          return;
        }
      }
    }

    /** removeStaticTwiceNatEntry for a paired entry: its partner is always found. */
    method RemoveStaticTwiceNatEntry(key: Ip)
      requires Consistent() && key in statics && statics[key].added
      modifies this`statics, this`bindings, counts
      ensures Consistent() && OnlyWithdrew(old(statics), statics, key) && SameBindingsOn(old(bindings), bindings)
      ensures !statics[key].added && (statics[key].natType == Dnat ==> statics[key].interface.None?)
      ensures old(NoneLeft({}, {})) ==> NoneLeft({key}, {})
    {
      assert StaticMatched(statics, bindings, pools, key);
      var todo := statics.Keys;
      while todo != {}
        invariant todo <= statics.Keys
        invariant statics == old(statics) && bindings == old(bindings)
        invariant forall m <- statics.Keys - todo :: !PairedStatics(statics, key, m)
        decreases todo
      {
        var m :| m in todo;
        todo := todo - {m};
        if && m != key && statics[m].id == statics[key].id && statics[m].added && statics[key].added
           && statics[m].interface.Some? && statics[key].interface.Some? && statics[m].natType != statics[key].natType
        {
          FlaggedTogether(statics, bindings, pools, key, m);
          Unpair(key, m);
          return;
        }
      }
      UnbindStatic(key);
    }

    /** The second loop of removeStaticTwiceNatEntry. */
    method UnbindStatic(key: Ip)
      requires Consistent() && key in statics && statics[key].added && statics[key].bindingKey.Some?
      modifies this`statics, this`bindings, counts
      ensures Consistent() && OnlyWithdrew(old(statics), statics, key) && SameBindingsOn(old(bindings), bindings)
      ensures !statics[key].added && statics[key].natType == Snat
      ensures old(NoneLeft({}, {})) ==> NoneLeft({key}, {})
    {
      ghost var partner := statics[key].bindingKey.value;
      assert StaticMatched(statics, bindings, pools, key);
      assert Live(enabled, interfaces, pools, bindings[partner]);
      var todo := bindings.Keys;
      while todo != {}
        invariant todo <= bindings.Keys && partner in todo
        invariant statics == old(statics) && bindings == old(bindings)
        decreases todo
      {
        var b :| b in todo;
        todo := todo - {b};
        if && bindings[b].id == statics[key].id && bindings[b].added && statics[key].added
           && bindings[b].interface.Some? && statics[key].interface.Some?
           && bindings[b].natType == Some(statics[key].natType)
           && UsablePool(pools, bindings[b].pool) && statics[key].bindingKey == Some(b)
        {
          Unbind(key, b);
          return;
        }
      }
      assert false;
    }

    // ---------- a binding looks for its partner ----------

    /** addDynamicTwiceNatRule for a pool without ports; one with ports pairs with NAPT entries. */
    method AddDynamicTwiceNatRule(name: Key)
      requires Consistent() && name in bindings && bindings[name].id != "" && enabled
      requires bindings[name].pool in pools && pools[bindings[name].pool].Range?
      modifies this`statics, this`bindings, counts
      ensures Consistent() && SameStaticsOn(old(statics), statics) && SameBindingsOn(old(bindings), bindings)
      ensures bindings[name].added <==> (old(bindings)[name].added
        || (exists k <- old(statics).Keys :: CanBind(old(statics), old(bindings), pools, k, name)))
      ensures old(NoneLeft({}, {name})) ==> NoneLeft({}, {})
    {
      if bindings[name].added || bindings[name].staticKey.Some? || pools[bindings[name].pool].ports != "" {
        assert BindingMatched(statics, bindings, pools, name);
        return;
      }
      var todo := statics.Keys;
      while todo != {}
        invariant todo <= statics.Keys
        invariant statics == old(statics) && bindings == old(bindings)
        invariant forall k <- statics.Keys - todo :: !CanBind(statics, bindings, pools, k, name)
        decreases todo
      {
        var k :| k in todo;
        assert StaticMatched(statics, bindings, pools, k);
        todo := todo - {k};
        if && bindings[name].id == statics[k].id && !statics[k].added && statics[k].bindingKey.None?
           && bindings[name].interface.Some? && statics[k].interface.Some?
           && bindings[name].natType == Some(statics[k].natType)
        {
          BindUp(k, name);
          return;
        }
      }
    }

    /** deleteDynamicTwiceNatRule: the partner of a paired binding is always found. */
    method DeleteDynamicTwiceNatRule(name: Key)
      requires Consistent() && name in bindings
      modifies this`statics, this`bindings, counts
      ensures Consistent() && SameStaticsOn(old(statics), statics) && SameBindingsOn(old(bindings), bindings)
      ensures !bindings[name].added && bindings - {name} == old(bindings) - {name}
      ensures old(NoneLeft({}, {})) ==> NoneLeft({}, {name})
    {
      assert BindingMatched(statics, bindings, pools, name);
      if !bindings[name].added || bindings[name].staticKey.None? {
        return;
      }
      ghost var partner := bindings[name].staticKey.value;
      var todo := statics.Keys;
      while todo != {}
        invariant todo <= statics.Keys && partner in todo
        invariant statics == old(statics) && bindings == old(bindings)
        decreases todo
      {
        var k :| k in todo;
        todo := todo - {k};
        if && bindings[name].id == statics[k].id && statics[k].added && statics[k].bindingKey.Some?
           && bindings[name].interface.Some? && statics[k].interface.Some?
           && bindings[name].natType == Some(statics[k].natType)
           && bindings[name].staticKey == Some(k)
        {
          Unbind(k, name);
          return;
        }
      }
      assert false;
    }

    // ---------- static entries ----------

    /** The end of addStaticNatEntry, for an entry whose interface is known. */
    method ApplyStatic(key: Ip, intf: Port)
      requires Consistent() && enabled && key in statics && statics[key].interface.None?
      requires Fresh(enabled, interfaces, key, statics[key].(interface := Some(intf)))
      modifies this`statics, this`bindings, counts
      ensures Consistent() && SameBindingsOn(old(bindings), bindings)
      ensures SameStaticsOn(old(statics)[key := old(statics)[key].(interface := Some(intf))], statics)
      ensures old(NoneLeft({}, {})) ==> NoneLeft({}, {})
    {
      var entry := statics[key].(interface := Some(intf));
      assert StaticMatched(statics, bindings, pools, key);
      ChangeUnpaired(statics, bindings, pools, key, entry);
      HypothesesStay(statics, bindings, statics[key := entry], bindings);
      if NoneLeft({}, {}) {
        StillNoneLeft(statics, bindings, pools, {}, {}, statics[key := entry], bindings, pools,
                      if entry.id != "" then {key} else {}, {});
      }
      UsesOfStatic(statics, bindings, pools, key, entry);
      if entry.id == "" {
        counts.AddEntry(Exposed(key, entry));
      }
      statics := statics[key := entry];
      if statics[key].id != "" {
        AddStaticTwiceNatEntry(key);
      }
    }

    method AddStaticNatEntry(key: Ip)
      requires Consistent() && key in statics && statics[key].interface.None?
      modifies this`statics, this`bindings, counts
      ensures Consistent() && SameStatics(old(statics), statics) && SameBindingsOn(old(bindings), bindings)
      ensures forall k <- statics.Keys - {key} :: statics[k].interface == old(statics)[k].interface
      ensures enabled ==> Applied(interfaces, key, statics[key])
      ensures old(NoneLeft({}, {})) ==> NoneLeft({}, {})
    {
      if !enabled {
        return;
      }
      var intf: Option<Port> := Some("");
      if statics[key].natType == Dnat {
        intf := GetIpEnabledIntf(interfaces, key);
        if intf.None? {
          return;
        }
      }
      ApplyStatic(key, intf.value);
    }

    /** An entry that is not applied although it could be. */
    ghost predicate Idle(key: Ip, entry: Static)
      reads this`interfaces
    {
      entry.interface.None? && (entry.natType == Dnat ==> !Home(interfaces, key, None))
    }

    /** removeStaticNatEntry; withdrawing a single entry with no interface drops it. */
    method RemoveStaticNatEntry(key: Ip)
      requires Consistent() && key in statics
      modifies this`statics, this`bindings, counts
      ensures Consistent() && SameBindingsOn(old(bindings), bindings)
      ensures key !in statics <==> enabled && old(statics)[key].id == "" && Idle(key, old(statics)[key])
      ensures key !in statics ==> old(statics)[key].interface.None? && statics == old(statics) - {key}
      ensures key in statics ==> OnlyWithdrew(old(statics), statics, key) && !statics[key].added
      ensures key in statics ==> !ActiveStatic(statics[key])
      ensures key in statics && enabled && statics[key].natType == Dnat ==> statics[key].interface.None?
      ensures old(NoneLeft({}, {})) ==> NoneLeft({key}, {})
    {
      if !enabled {
        return;
      }
      assert StaticMatched(statics, bindings, pools, key);
      if statics[key].id == "" {
        RemoveStaticSingleNatEntry(key);
      } else if statics[key].added {
        RemoveStaticTwiceNatEntry(key);
      } else {
        Withdraw(key);
      }
    }

    method RemoveStaticSingleNatEntry(key: Ip)
      requires Consistent() && enabled && key in statics && statics[key].id == ""
      modifies this`statics, counts
      ensures Consistent()
      ensures key !in statics <==> Idle(key, old(statics)[key])
      ensures key !in statics ==> old(statics)[key].interface.None? && statics == old(statics) - {key}
      ensures key in statics ==> OnlyWithdrew(old(statics), statics, key) && statics[key].interface.None?
      ensures old(NoneLeft({}, {})) ==> NoneLeft({}, {})
    {
      assert StaticMatched(statics, bindings, pools, key) && Fresh(enabled, interfaces, key, statics[key]);
      var intf: Option<Port> := Some("");
      if statics[key].natType == Dnat {
        intf := GetIpEnabledIntf(interfaces, key);
        AppliedAtHome(enabled, interfaces, key, statics[key], intf);
        if intf.None? {
          return;
        }
      }
      if statics[key].interface != intf {
        Uncache(key);
        return;
      }
      Withdraw(key);
    }

    method Withdraw(key: Ip)
      requires Consistent() && key in statics && !statics[key].added
      modifies this`statics, counts
      ensures Consistent() && statics == old(statics)[key := old(statics)[key].(interface := None)]
      ensures old(NoneLeft({key}, {})) ==> NoneLeft({}, {})
    {
      var entry := statics[key].(interface := None);
      assert StaticMatched(statics, bindings, pools, key);
      ChangeUnpaired(statics, bindings, pools, key, entry);
      HypothesesStay(statics, bindings, statics[key := entry], bindings);
      if NoneLeft({key}, {}) {
        StillNoneLeft(statics, bindings, pools, {key}, {}, statics[key := entry], bindings, pools, {}, {});
      }
      UsesOfStatic(statics[key := entry], bindings, pools, key, statics[key]);
      assert statics[key := entry][key := statics[key]] == statics;
      if ActiveStatic(statics[key]) {
        counts.RemoveEntry(Exposed(key, statics[key]));
      }
      statics := statics[key := entry];
    }

    method Uncache(key: Ip)
      requires Consistent() && key in statics && !statics[key].added && !ActiveStatic(statics[key])
      modifies this`statics, counts
      ensures Consistent() && statics == old(statics) - {key}
      ensures old(NoneLeft({key}, {})) ==> NoneLeft({}, {})
    {
      DropUnpaired(statics, bindings, pools, key);
      FewerUsers(statics, bindings, statics - {key}, bindings);
      if NoneLeft({key}, {}) {
        StillNoneLeft(statics, bindings, pools, {key}, {}, statics - {key}, bindings, pools, {}, {});
      }
      UsesWithoutStatic(statics, bindings, pools, key);
      statics := statics - {key};
    }

    method Cache(key: Ip, entry: Static)
      requires Consistent() && (key in statics ==> !statics[key].added && !ActiveStatic(statics[key]))
      requires !entry.added && entry.bindingKey.None? && entry.interface.None?
      requires AtMostTwoUsers(statics[key := entry], bindings)
      modifies this`statics, counts
      ensures Consistent() && statics == old(statics)[key := entry]
      ensures old(NoneLeft({key}, {})) ==> NoneLeft({}, {})
    {
      ChangeUnpaired(statics, bindings, pools, key, entry);
      if NoneLeft({key}, {}) {
        StillNoneLeft(statics, bindings, pools, {key}, {}, statics[key := entry], bindings, pools, {}, {});
      }
      UsesOfStatic(statics, bindings, pools, key, entry);
      statics := statics[key := entry];
    }

    /** A cached entry is withdrawn before it is replaced. */
    method ReleaseStatic(key: Ip)
      requires Consistent() && key in statics
      modifies this`statics, this`bindings, counts
      ensures Consistent() && OnlyWithdrew(old(statics), statics, key) && SameBindingsOn(old(bindings), bindings)
      ensures !statics[key].added && !ActiveStatic(statics[key])
      ensures old(NoneLeft({}, {})) ==> NoneLeft({key}, {})
    {
      assert StaticMatched(statics, bindings, pools, key);
      if statics[key].interface.Some? {
        RemoveStaticNatEntry(key);
      }
    }

    /** STATIC_NAT SET: only the local address is compared with the cached entry. */
    method SetStaticNat(key: Ip, localIp: Ip, natType: NatType, id: string)
      requires Settled()
      requires AtMostTwoUsers(statics[key := Static(localIp, natType, id, None, false, None)], bindings)
      modifies this`statics, this`bindings, counts
      ensures Settled() && SameBindingsOn(old(bindings), bindings)
      ensures if key in old(statics) && old(statics)[key].localIp == localIp then statics == old(statics)
              else SameStatics(old(statics)[key := Static(localIp, natType, id, None, false, None)], statics)
    {
      ghost var before := statics;
      var entry := Static(localIp, natType, id, None, false, None);
      if key in statics {
        if statics[key].localIp == localIp {
          return;
        }
        ReleaseStatic(key);
        if enabled { RulesStay(interfaces, old(bindings), bindings, pools, {}); }
      }
      if enabled { AppliedStays(interfaces, before, statics, {key}); }
      SameUsersWith(before, statics, old(bindings), bindings, key, entry);
      CacheAndAdd(key, entry);
    }

    method CacheAndAdd(key: Ip, entry: Static)
      requires Consistent() && NoneLeft({key}, {})
      requires key in statics ==> !statics[key].added && !ActiveStatic(statics[key])
      requires !entry.added && entry.bindingKey.None? && entry.interface.None?
      requires AtMostTwoUsers(statics[key := entry], bindings)
      requires enabled ==> AppliedBut(interfaces, statics, {key}) && RulesAppliedBut(interfaces, bindings, pools, {})
      modifies this`statics, this`bindings, counts
      ensures Settled() && SameBindingsOn(old(bindings), bindings)
      ensures SameStatics(old(statics)[key := entry], statics)
    {
      Cache(key, entry);
      label cached:
      AddStaticNatEntry(key);
      if enabled {
        RulesStay(interfaces, old(bindings), bindings, pools, {});
        AppliedStays(interfaces, old(statics), statics, {key});
        assert Applied(interfaces, key, statics[key]);
      }
    }

    method DelStaticNat(key: Ip)
      requires Settled()
      modifies this`statics, this`bindings, counts
      ensures Settled() && SameBindingsOn(old(bindings), bindings)
      ensures SameStatics(old(statics) - {key}, statics)
    {
      if key !in statics {
        return;
      }
      RemoveStaticNatEntry(key);
      if key in statics {
        Uncache(key);
      }
      if enabled {
        RulesStay(interfaces, old(bindings), bindings, pools, {});
        AppliedStays(interfaces, old(statics), statics, {});
      }
    }

    // ---------- bindings and pools ----------

    /** The end of addDynamicNatRule, for a binding whose interface is known. */
    method ApplyBinding(name: Key, port: Port)
      requires Consistent() && enabled && name in bindings && bindings[name].interface.None?
      requires bindings[name].pool in pools && pools[bindings[name].pool].Range?
      requires Home(interfaces, pools[bindings[name].pool].low, Some(port))
      modifies this`statics, this`bindings, counts
      ensures Consistent() && SameStaticsOn(old(statics), statics)
      ensures SameBindingsOn(old(bindings)[name := old(bindings)[name].(interface := Some(port))], bindings)
      ensures old(NoneLeft({}, {})) ==> NoneLeft({}, {})
    {
      assert BindingMatched(statics, bindings, pools, name) && Live(enabled, interfaces, pools, bindings[name]);
      if bindings[name].id == "" {
        ApplySingleBinding(name, port);
      } else {
        ChangeBinding(name, Some(port));
        AddDynamicTwiceNatRule(name);
      }
    }

    method ApplySingleBinding(name: Key, port: Port)
      requires Consistent() && enabled && name in bindings && bindings[name].id == "" && bindings[name].interface.None?
      requires Live(enabled, interfaces, pools, bindings[name].(interface := Some(port)))
      modifies this`bindings, counts
      ensures Consistent() && bindings == old(bindings)[name := old(bindings)[name].(interface := Some(port))]
      ensures old(NoneLeft({}, {})) ==> NoneLeft({}, {})
    {
      var binding := bindings[name].(interface := Some(port));
      SoundWithBinding(enabled, interfaces, statics, bindings, pools, name, binding);
      UsesOfBinding(statics, bindings, pools, name, binding);
      counts.AddRange(pools[binding.pool]);
      bindings := bindings[name := binding];
    }

    method WithdrawSingleBinding(name: Key)
      requires Consistent() && name in bindings && bindings[name].id == "" && bindings[name].interface.Some?
      modifies this`bindings, counts
      ensures Consistent() && bindings == old(bindings)[name := old(bindings)[name].(interface := None)]
      ensures old(NoneLeft({}, {})) ==> NoneLeft({}, {})
    {
      var binding := bindings[name].(interface := None);
      assert Live(enabled, interfaces, pools, bindings[name]);
      SoundWithBinding(enabled, interfaces, statics, bindings, pools, name, binding);
      UsesOfBinding(statics, bindings[name := binding], pools, name, bindings[name]);
      assert bindings[name := binding][name := bindings[name]] == bindings;
      counts.RemoveRange(pools[binding.pool]);
      bindings := bindings[name := binding];
    }

    method ChangeBinding(name: Key, intf: Option<Port>)
      requires Consistent() && name in bindings && !bindings[name].added && bindings[name].id != ""
      requires Live(enabled, interfaces, pools, bindings[name].(interface := intf))
      modifies this`bindings, counts
      ensures Consistent() && bindings == old(bindings)[name := old(bindings)[name].(interface := intf)]
      ensures old(NoneLeft({}, {name})) ==> NoneLeft({}, {name}) && (intf.None? ==> NoneLeft({}, {}))
    {
      var binding := bindings[name].(interface := intf);
      SoundWithBinding(enabled, interfaces, statics, bindings, pools, name, binding);
      UsesOfBinding(statics, bindings, pools, name, binding);
      bindings := bindings[name := binding];
    }

    method AddDynamicNatRule(name: Key)
      requires Consistent() && name in bindings && bindings[name].interface.None?
      modifies this`statics, this`bindings, counts
      ensures Consistent() && SameStaticsOn(old(statics), statics) && SameBindings(old(bindings), bindings)
      ensures old(NoneLeft({}, {})) ==> NoneLeft({}, {})
      ensures enabled ==> AddedTo(Everything, interfaces, pools, old(bindings)[name], bindings[name])
      ensures forall b <- bindings.Keys - {name} :: bindings[b].interface == old(bindings)[b].interface
    {
      var pool := bindings[name].pool;
      if !enabled || pool !in pools || pools[pool].NoRange? {
        return;
      }
      var port := GetIpEnabledIntf(interfaces, pools[pool].low);
      if port.None? {
        return;
      }
      ApplyBinding(name, port.value);
    }

    /** removeDynamicNatRule: the pair of the binding is dissolved. */
    method RemoveDynamicNatRule(name: Key)
      requires Consistent() && name in bindings
      modifies this`statics, this`bindings, counts
      ensures Consistent() && SameStaticsOn(old(statics), statics) && SameBindings(old(bindings), bindings)
      ensures !bindings[name].added && bindings[name].interface.None?
      ensures forall b <- bindings.Keys - {name} :: bindings[b] == old(bindings)[b]
      ensures old(NoneLeft({}, {})) ==> NoneLeft({}, {})
    {
      var pool := bindings[name].pool;
      assert BindingMatched(statics, bindings, pools, name) && Live(enabled, interfaces, pools, bindings[name]);
      if !enabled || pool !in pools || bindings[name].interface.None? || pools[pool].NoRange? {
        return;
      }
      WithdrawRule(name);
    }

    method WithdrawRule(name: Key)
      requires Consistent() && name in bindings && bindings[name].interface.Some?
      modifies this`statics, this`bindings, counts
      ensures Consistent() && SameStaticsOn(old(statics), statics)
      ensures bindings
        == old(bindings)[name := old(bindings)[name].(interface := None, added := false, staticKey := None)]
      ensures old(NoneLeft({}, {})) ==> NoneLeft({}, {})
    {
      assert BindingMatched(statics, bindings, pools, name) && Live(enabled, interfaces, pools, bindings[name]);
      if bindings[name].id == "" {
        WithdrawSingleBinding(name);
      } else {
        DeleteDynamicTwiceNatRule(name);
        assert BindingMatched(statics, bindings, pools, name);
        OnlyOneChanged(old(bindings), bindings, name);
        ChangeBinding(name, None);
      }
    }

    /** NAT_BINDINGS SET, whose nat_type can only be snat; access lists are not modelled. */
    method SetNatBinding(name: Key, pool: Key, source: bool, id: string)
      requires Settled()
      requires AtMostTwoUsers(statics, bindings[name := NewBinding(pool, source, id)])
      requires OneBindingPerPool(bindings[name := NewBinding(pool, source, id)])
      modifies this`statics, this`bindings, counts
      ensures Settled() && SameStaticsOn(old(statics), statics)
      ensures if name in old(bindings) && old(bindings)[name].pool == pool then bindings == old(bindings)
              else && SameBindings(old(bindings)[name := NewBinding(pool, source, id)], bindings)
                   && (enabled ==>
                         AddedTo(Everything, interfaces, pools, NewBinding(pool, source, id), bindings[name]))
    {
      ghost var before, bound := statics, bindings;
      var binding := NewBinding(pool, source, id);
      if name in bindings {
        if bindings[name].pool == pool {
          return;
        }
        ReleaseBinding(name);
      }
      HypothesesStay(before, bound[name := binding], statics, bindings[name := binding]);
      CacheBinding(name, binding);
      ApplyLast(name);
    }

    method ReleaseBinding(name: Key)
      requires Settled() && name in bindings
      modifies this`statics, this`bindings, counts
      ensures SettledBut({name}) && SameStaticsOn(old(statics), statics) && SameBindings(old(bindings), bindings)
      ensures !bindings[name].added && bindings[name].interface.None?
      ensures forall b <- bindings.Keys - {name} :: bindings[b] == old(bindings)[b]
    {
      RemoveDynamicNatRule(name);
      if enabled {
        AppliedStays(interfaces, old(statics), statics, {});
        RulesStay(interfaces, old(bindings), bindings, pools, {name});
      }
    }

    /** addDynamicNatRule for the only binding whose rules may be due. */
    method ApplyLast(name: Key)
      requires SettledBut({name}) && name in bindings && bindings[name].interface.None?
      modifies this`statics, this`bindings, counts
      ensures Settled() && SameStaticsOn(old(statics), statics) && SameBindings(old(bindings), bindings)
      ensures enabled ==> AddedTo(Everything, interfaces, pools, old(bindings)[name], bindings[name])
    {
      AddDynamicNatRule(name);
      if enabled {
        AppliedStays(interfaces, old(statics), statics, {});
        RulesStay(interfaces, old(bindings), bindings, pools, {name});
        assert RuleApplied(interfaces, pools, bindings[name]);
      }
    }

    method CacheBinding(name: Key, binding: Binding)
      requires SettledBut({name}) && (name in bindings ==> bindings[name].interface.None? && !bindings[name].added)
      requires !binding.added && binding.staticKey.None? && binding.interface.None? && binding.natType != Some(Dnat)
      requires AtMostTwoUsers(statics, bindings[name := binding]) && OneBindingPerPool(bindings[name := binding])
      modifies this`bindings, counts
      ensures SettledBut({name}) && bindings == old(bindings)[name := binding]
    {
      if enabled { RulesStay(interfaces, bindings, bindings[name := binding], pools, {name}); }
      ChangeUnpairedBinding(statics, bindings, pools, name, binding);
      StillNoneLeft(statics, bindings, pools, {}, {}, statics, bindings[name := binding], pools, {}, {});
      UsesOfBinding(statics, bindings, pools, name, binding);
      bindings := bindings[name := binding];
    }

    method DelNatBinding(name: Key)
      requires Settled()
      modifies this`statics, this`bindings, counts
      ensures Settled() && SameStaticsOn(old(statics), statics)
      ensures SameBindings(old(bindings) - {name}, bindings)
    {
      if name !in bindings {
        return;
      }
      ReleaseBinding(name);
      if enabled { RulesStay(interfaces, bindings, bindings - {name}, pools, {name}); }
      DropUnpairedBinding(statics, bindings, pools, name);
      FewerUsers(statics, bindings, statics, bindings - {name});
      StillNoneLeft(statics, bindings, pools, {}, {}, statics, bindings - {name}, pools, {}, {});
      UsesWithoutBinding(statics, bindings, pools, name);
      bindings := bindings - {name};
    }

    /** Withdraw the rules of the binding that uses a pool, if there is one. */
    method ReleasePool(name: Key)
      requires Settled()
      modifies this`statics, this`bindings, counts
      ensures SettledBut(UsersOf(bindings, name))
      ensures SameStaticsOn(old(statics), statics) && SameBindings(old(bindings), bindings)
      ensures forall b <- bindings.Keys | bindings[b].pool == name :: !bindings[b].added && bindings[b].interface.None?
    {
      var mapped := BindingOfPool(bindings, (b: Binding) => b.pool, name);
      if mapped.Some? {
        ReleaseBinding(mapped.value);
        assert UsersOf(bindings, name) == {mapped.value};
      } else {
        assert UsersOf(bindings, name) == {};
      }
    }

    method ReplacePool(name: Key, after: map<Key, Pool>)
      requires Consistent()
      requires forall b <- bindings.Keys | bindings[b].pool == name :: !bindings[b].added && bindings[b].interface.None?
      requires forall p :: p != name ==> (p in after <==> p in pools) && (p in after ==> after[p] == pools[p])
      requires name in after ==> Accepted(after[name])
      modifies this`pools, counts
      ensures Consistent() && pools == after
      ensures old(NoneLeft({}, {})) ==> NoneLeft({}, {})
      ensures old(SettledBut(UsersOf(bindings, name))) ==> SettledBut(UsersOf(bindings, name))
    {
      if enabled && RulesAppliedBut(interfaces, bindings, pools, UsersOf(bindings, name)) {
        RulesStayWithPools(interfaces, bindings, pools, after, name);
      }
      ChangeUnusedPool(statics, bindings, pools, name, after);
      if NoneLeft({}, {}) {
        StillNoneLeft(statics, bindings, pools, {}, {}, statics, bindings, after, {}, {});
      }
      forall b <- bindings.Keys ensures Live(enabled, interfaces, after, bindings[b]) {
        assert Live(enabled, interfaces, pools, bindings[b]);
      }
      UsesOfPools(statics, bindings, pools, name, after);
      pools := after;
    }

    method SetNatPool(name: Key, low: Ip, high: Ip, ports: string)
      requires Settled() && Accepted(Range(low, high, ports))
      modifies this`statics, this`bindings, this`pools, counts
      ensures Settled() && SameStaticsOn(old(statics), statics) && SameBindings(old(bindings), bindings)
      ensures pools == old(pools)[name := Range(low, high, if ports == "NULL" then "" else ports)]
              || (pools == old(pools) && name in pools && pools[name] == Range(low, high, ports))
    {
      if name in pools {
        if pools[name] == Range(low, high, ports) {
          return;
        }
        ReleasePool(name);
      } else {
        UnknownPool(name);
      }
      ReplacePool(name, pools[name := Range(low, high, if ports == "NULL" then "" else ports)]);
      var mapped := BindingOfPool(bindings, (b: Binding) => b.pool, name);
      if mapped.Some? {
        assert UsersOf(bindings, name) == {mapped.value};
        ApplyLast(mapped.value);
      } else {
        assert UsersOf(bindings, name) == {};
      }
    }

    method DelNatPool(name: Key)
      requires Settled()
      modifies this`statics, this`bindings, this`pools, counts
      ensures Settled() && SameStaticsOn(old(statics), statics) && SameBindings(old(bindings), bindings)
      ensures pools == old(pools) - {name}
    {
      if name !in pools {
        return;
      }
      ReleasePool(name);
      ReplacePool(name, pools - {name});
      forall b <- UsersOf(bindings, name) ensures RuleApplied(interfaces, pools, bindings[b]) {
      }
    }

    /** A binding of a pool that is not cached is idle. */
    lemma UnknownPool(name: Key)
      requires Consistent() && name !in pools
      ensures forall b <- bindings.Keys | bindings[b].pool == name :: !bindings[b].added && bindings[b].interface.None?
    {
      forall b <- bindings.Keys | bindings[b].pool == name ensures !bindings[b].added && bindings[b].interface.None? {
        assert Live(enabled, interfaces, pools, bindings[b]) && BindingMatched(statics, bindings, pools, b);
      }
    }

    // ---------- global mode, interfaces and zones ----------

    method AddStaticNatEntries(scope: Scope)
      requires Consistent() && !scope.OnPort?
      requires scope.OnPrefix? ==> Interface(scope.port, scope.prefix) in interfaces
      requires scope.OnPrefix? && enabled ==>
        forall k <- statics.Keys :: ToApply(interfaces, scope.prefix, k, statics[k])
      modifies this`statics, this`bindings, counts
      ensures Consistent() && SameStatics(old(statics), statics) && SameBindingsOn(old(bindings), bindings)
      ensures enabled ==> AppliedBut(interfaces, statics, {})
      ensures old(NoneLeft({}, {})) ==> NoneLeft({}, {})
    {
      if !enabled {
        return;
      }
      var todo := statics.Keys;
      while todo != {}
        invariant todo <= statics.Keys && EntriesAddedSoFar(scope, old(statics), old(bindings), todo)
        invariant old(NoneLeft({}, {})) ==> NoneLeft({}, {})
        decreases todo
      {
        var key :| key in todo;
        AddEntryStep(key, scope, old(statics), old(bindings), todo);
        todo := todo - {key};
      }
    }

    /** The entries not in `todo` have been looked at. */
    ghost predicate EntriesAddedSoFar(scope: Scope, statics0: map<Ip, Static>, bindings0: map<Key, Binding>,
                                      todo: set<Ip>)
      reads this, counts
    {
      && Consistent() && SameStatics(statics0, statics) && SameBindingsOn(bindings0, bindings)
      && AppliedBut(interfaces, statics, todo)
      && (scope.OnPrefix? ==>
            forall k <- todo :: k in statics && ToApply(interfaces, scope.prefix, k, statics[k]))
    }

    method AddEntryStep(key: Ip, scope: Scope, ghost statics0: map<Ip, Static>, ghost bindings0: map<Key, Binding>,
                        ghost todo: set<Ip>)
      requires enabled && !scope.OnPort? && key in statics && key in todo
      requires EntriesAddedSoFar(scope, statics0, bindings0, todo)
      requires scope.OnPrefix? ==> Interface(scope.port, scope.prefix) in interfaces
      modifies this`statics, this`bindings, counts
      ensures EntriesAddedSoFar(scope, statics0, bindings0, todo - {key})
      ensures old(NoneLeft({}, {})) ==> NoneLeft({}, {})
    {
      AddIfInScope(key, scope);
      AppliedStays(interfaces, old(statics), statics, todo);
      assert Applied(interfaces, key, statics[key]);
    }

    /** The body of addStaticNatEntries. */
    method AddIfInScope(key: Ip, scope: Scope)
      requires Consistent() && enabled && !scope.OnPort? && key in statics
      requires scope.OnPrefix? ==>
        Interface(scope.port, scope.prefix) in interfaces && ToApply(interfaces, scope.prefix, key, statics[key])
      modifies this`statics, this`bindings, counts
      ensures Consistent() && SameStatics(old(statics), statics) && SameBindingsOn(old(bindings), bindings)
      ensures forall k <- statics.Keys - {key} :: statics[k].interface == old(statics)[k].interface
      ensures Applied(interfaces, key, statics[key])
      ensures old(NoneLeft({}, {})) ==> NoneLeft({}, {})
    {
      assert StaticMatched(statics, bindings, pools, key) && Fresh(enabled, interfaces, key, statics[key]);
      if statics[key].interface.Some? {
        return;
      }
      if scope.Everything? {
        AddStaticNatEntry(key);
        return;
      }
      if !InSubnet(scope.prefix, key) {
        return;
      }
      assert Home(interfaces, key, Some(scope.port));
      ApplyStatic(key, scope.port);
    }

    method RemoveStaticNatEntries(scope: Scope)
      requires Consistent() && !scope.OnPort?
      requires scope.OnPrefix? ==> Interface(scope.port, scope.prefix) in interfaces
      modifies this`statics, this`bindings, counts
      ensures Consistent() && SameStatics(old(statics), statics) && SameBindingsOn(old(bindings), bindings)
      ensures enabled ==> forall k <- statics.Keys :: Gone(scope, k, old(statics)[k], statics[k])
      ensures scope.OnPrefix? && old(NoneLeft({}, {})) ==> NoneLeft({}, {})
    {
      if !enabled {
        return;
      }
      var todo := statics.Keys;
      while todo != {}
        invariant todo <= statics.Keys
        invariant Consistent() && SameStatics(old(statics), statics) && SameBindingsOn(old(bindings), bindings)
        invariant forall k <- statics.Keys - todo :: Gone(scope, k, old(statics)[k], statics[k])
        invariant forall k <- todo :: statics[k].interface == old(statics)[k].interface
        invariant scope.OnPrefix? && old(NoneLeft({}, {})) ==> NoneLeft({}, {})
        decreases todo
      {
        var key :| key in todo;
        ghost var before := statics;
        todo := todo - {key};
        RemoveIfInScope(key, scope);
        GoneStays(scope, old(statics), before, statics, key, todo);
      }
    }

    /** The body of removeStaticNatEntries. */
    method RemoveIfInScope(key: Ip, scope: Scope)
      requires Consistent() && enabled && !scope.OnPort? && key in statics
      requires scope.OnPrefix? ==> Interface(scope.port, scope.prefix) in interfaces
      modifies this`statics, this`bindings, counts
      ensures Consistent() && OnlyWithdrew(old(statics), statics, key) && SameBindingsOn(old(bindings), bindings)
      ensures Gone(scope, key, old(statics)[key], statics[key])
      ensures scope.OnPrefix? && old(NoneLeft({}, {})) ==> NoneLeft({}, {})
    {
      assert StaticMatched(statics, bindings, pools, key) && Fresh(enabled, interfaces, key, statics[key]);
      if scope.Everything? {
        var intf: Option<Port> := Some("");
        if statics[key].natType == Dnat {
          intf := GetIpEnabledIntf(interfaces, key);
          AppliedAtHome(enabled, interfaces, key, statics[key], intf);
          if intf.None? {
            return;
          }
        }
        if statics[key].interface != intf {
          return;
        }
      } else {
        if InSubnet(scope.prefix, key) {
          AppliedAtHome(enabled, interfaces, key, statics[key], Some(scope.port));
        }
        if statics[key].interface != Some(scope.port) || !InSubnet(scope.prefix, key) {
          return;
        }
      }
      RemoveStaticNatEntry(key);
      if scope.OnPrefix? && NoneLeft({key}, {}) {
        StillNoneLeft(statics, bindings, pools, {key}, {}, statics, bindings, pools, {}, {});
      }
    }

    method AddDynamicNatRules(scope: Scope)
      requires Consistent()
      requires scope.OnPrefix? ==> Interface(scope.port, scope.prefix) in interfaces
      modifies this`statics, this`bindings, counts
      ensures Consistent() && SameStaticsOn(old(statics), statics) && SameBindings(old(bindings), bindings)
      ensures old(NoneLeft({}, {})) ==> NoneLeft({}, {})
      ensures enabled ==> forall b <- bindings.Keys :: AddedTo(scope, interfaces, pools, old(bindings)[b], bindings[b])
    {
      if !enabled {
        return;
      }
      var todo := bindings.Keys;
      while todo != {}
        invariant todo <= bindings.Keys && AddedSoFar(scope, old(statics), old(bindings), todo)
        invariant old(NoneLeft({}, {})) ==> NoneLeft({}, {})
        decreases todo
      {
        var name :| name in todo;
        AddStep(name, scope, old(statics), old(bindings), todo);
        todo := todo - {name};
      }
    }

    ghost predicate AddedSoFar(scope: Scope, statics0: map<Ip, Static>, bindings0: map<Key, Binding>, todo: set<Key>)
      reads this, counts
    {
      && Consistent() && SameStaticsOn(statics0, statics) && SameBindings(bindings0, bindings)
      && AddedBut(scope, interfaces, pools, bindings0, bindings, todo)
    }

    method AddStep(name: Key, scope: Scope, ghost statics0: map<Ip, Static>, ghost bindings0: map<Key, Binding>,
                   ghost todo: set<Key>)
      requires enabled && name in bindings && name in todo && AddedSoFar(scope, statics0, bindings0, todo)
      requires scope.OnPrefix? ==> Interface(scope.port, scope.prefix) in interfaces
      modifies this`statics, this`bindings, counts
      ensures AddedSoFar(scope, statics0, bindings0, todo - {name})
      ensures old(NoneLeft({}, {})) ==> NoneLeft({}, {})
    {
      ghost var statics1, bindings1 := statics, bindings;
      AddRuleIfInScope(name, scope);
      OneMoreAdded(scope, interfaces, pools, bindings0, bindings1, bindings, todo, name);
    }

    /** The body of addDynamicNatRules. */
    method AddRuleIfInScope(name: Key, scope: Scope)
      requires Consistent() && enabled && name in bindings
      requires scope.OnPrefix? ==> Interface(scope.port, scope.prefix) in interfaces
      modifies this`statics, this`bindings, counts
      ensures Consistent() && SameStaticsOn(old(statics), statics) && SameBindings(old(bindings), bindings)
      ensures forall b <- bindings.Keys - {name} :: bindings[b].interface == old(bindings)[b].interface
      ensures AddedTo(scope, interfaces, pools, old(bindings)[name], bindings[name])
      ensures old(NoneLeft({}, {})) ==> NoneLeft({}, {})
    {
      assert BindingMatched(statics, bindings, pools, name);
      var pool := bindings[name].pool;
      if bindings[name].interface.Some? || pool !in pools
        || (bindings[name].id != "" && bindings[name].added) || pools[pool].NoRange? {
        return;
      }
      var port := PortForRules(interfaces, scope, pools[pool].low);
      if port.None? {
        return;
      }
      ApplyBinding(name, port.value);
    }

    /** Whatever the scope, an applied binding that waits for its partner is withdrawn. */
    method RemoveDynamicNatRules(scope: Scope)
      requires Consistent()
      modifies this`statics, this`bindings, this`pools, counts
      ensures Consistent() && SameStaticsOn(old(statics), statics) && SameBindings(old(bindings), bindings)
      ensures SameRanges(old(pools), pools) && (old(NoneLeft({}, {})) ==> NoneLeft({}, {}))
      ensures if enabled then forall b <- bindings.Keys :: RemovedFrom(scope, old(pools), old(bindings)[b], bindings[b])
              else (statics, bindings, pools) == old((statics, bindings, pools))
    {
      if !enabled {
        return;
      }
      var todo := bindings.Keys;
      while todo != {}
        invariant todo <= bindings.Keys && RemovedSoFar(scope, old(statics), old(bindings), old(pools), todo)
        invariant old(NoneLeft({}, {})) ==> NoneLeft({}, {})
        decreases todo
      {
        var name :| name in todo;
        RemoveStep(name, scope, old(statics), old(bindings), old(pools), todo);
        todo := todo - {name};
      }
    }

    /** The bindings not in `todo` have been looked at. */
    ghost predicate RemovedSoFar(scope: Scope, statics0: map<Ip, Static>, bindings0: map<Key, Binding>,
                                 pools0: map<Key, Pool>, todo: set<Key>)
      reads this, counts
    {
      && Consistent() && SameStaticsOn(statics0, statics) && SameBindings(bindings0, bindings)
      && SameRanges(pools0, pools)
      && (forall b <- bindings.Keys ::
           if b in todo then bindings[b] == bindings0[b] else RemovedFrom(scope, pools0, bindings0[b], bindings[b]))
    }

    method RemoveStep(name: Key, scope: Scope, ghost statics0: map<Ip, Static>, ghost bindings0: map<Key, Binding>,
                      ghost pools0: map<Key, Pool>, ghost todo: set<Key>)
      requires enabled && name in bindings && name in todo && RemovedSoFar(scope, statics0, bindings0, pools0, todo)
      modifies this`statics, this`bindings, this`pools, counts
      ensures RemovedSoFar(scope, statics0, bindings0, pools0, todo - {name})
      ensures old(NoneLeft({}, {})) ==> NoneLeft({}, {})
    {
      ghost var pools1 := pools;
      RemoveRuleIfInScope(name, scope);
      SameScope(scope, pools0, pools1, bindings0[name], bindings[name]);
    }

    /** The body of removeDynamicNatRules; looking the pool up caches an empty one when there is none. */
    method RemoveRuleIfInScope(name: Key, scope: Scope)
      requires Consistent() && enabled && name in bindings
      modifies this`statics, this`bindings, this`pools, counts
      ensures Consistent() && SameStaticsOn(old(statics), statics) && SameBindings(old(bindings), bindings)
      ensures forall b <- bindings.Keys - {name} :: bindings[b] == old(bindings)[b]
      ensures RemovedFrom(scope, old(pools), old(bindings)[name], bindings[name]) && SameRanges(old(pools), pools)
      ensures bindings[name].pool in pools
      ensures old(NoneLeft({}, {})) ==> NoneLeft({}, {})
    {
      var pool := bindings[name].pool;
      if pool !in pools {
        UnknownPool(pool);
        ReplacePool(pool, pools[pool := NoRange]);
      }
      assert BindingMatched(statics, bindings, pools, name) && Live(enabled, interfaces, pools, bindings[name]);
      if bindings[name].interface.None? {
        return;
      }
      if bindings[name].id != "" && !bindings[name].added {
        ChangeBinding(name, None);
        return;
      }
      if scope != Everything && bindings[name].interface != Some(scope.port) {
        return;
      }
      if scope.OnPrefix? && !InSubnet(scope.prefix, pools[pool].low) {
        return;
      }
      WithdrawRule(name);
    }

    /** NAT_GLOBAL admin_mode enabled. */
    method EnableNat()
      requires Settled()
      modifies this`enabled, this`statics, this`bindings, counts
      ensures Settled() && enabled
      ensures SameStatics(old(statics), statics) && SameBindings(old(bindings), bindings)
    {
      if enabled {
        return;
      }
      NothingAway(interfaces, statics, bindings, pools);
      enabled := true;
      AddStaticNatEntries(Everything);
      ghost var statics1, bindings1 := statics, bindings;
      AddDynamicNatRules(Everything);
      AppliedStays(interfaces, statics1, statics, {});
      RulesAfterEnabling(interfaces, bindings1, bindings, pools);
    }

    /** NAT_GLOBAL admin_mode disabled: every pair is dissolved. */
    method DisableNat()
      requires Settled()
      modifies this`enabled, this`statics, this`bindings, this`pools, counts
      ensures Settled() && !enabled && NoPairs(statics, bindings)
      ensures counts.refs == map[] && counts.rows == {}
      ensures SameStatics(old(statics), statics) && SameBindings(old(bindings), bindings)
      ensures SameRanges(old(pools), pools)
    {
      if enabled {
        RemoveEverything();
      }
      NothingActive();
    }

    method RemoveEverything()
      requires Settled() && enabled
      modifies this`enabled, this`statics, this`bindings, this`pools, counts
      ensures Settled() && !enabled
      ensures SameStatics(old(statics), statics) && SameBindings(old(bindings), bindings)
      ensures SameRanges(old(pools), pools)
    {
      RemoveStaticNatEntries(Everything);
      assert AllWithdrawn(statics);
      RemoveDynamicNatRules(Everything);
      TurnOff();
    }

    method TurnOff()
      requires Consistent() && AllWithdrawn(statics)
      requires forall b <- bindings.Keys :: bindings[b].interface.None?
      modifies this`enabled
      ensures Settled() && !enabled
    {
      NothingPaired(enabled, interfaces, statics, bindings, pools);
      NoneLeftWhileDisabled(interfaces, statics, bindings, pools);
      enabled := false;
    }

    /** While NAT is disabled the pool is empty. */
    lemma NothingActive()
      requires Consistent() && !enabled
      ensures counts.refs == map[] && counts.rows == {}
    {
      forall b <- bindings.Keys ensures !ActiveBinding(bindings[b]) {
        assert Live(enabled, interfaces, pools, bindings[b]);
      }
      forall ip: Ip ensures counts.Count(ip) == 0 {
        assert Exposers(statics, ip) == {} && Coverers(bindings, pools, ip) == {};
      }
      counts.NoCounts();
    }

    /** An address is configured on an interface; the prefixes stay disjoint. */
    method AddInterface(port: Port, prefix: Prefix)
      requires Settled() && port != "" && 1 <= prefix.length <= 32
      requires DisjointPrefixes(interfaces + {Interface(port, prefix)})
      modifies this`interfaces, this`statics, this`bindings, counts
      ensures Settled() && interfaces == old(interfaces) + {Interface(port, prefix)}
      ensures SameStatics(old(statics), statics) && SameBindings(old(bindings), bindings)
    {
      if Interface(port, prefix) in interfaces {
        assert interfaces == interfaces + {Interface(port, prefix)};
        return;
      }
      var covered := HoldsAddress(interfaces, port, prefix.address);
      NotCovered(interfaces, port, prefix);
      if covered {
        assert false;  // the code skips the additions; disjoint prefixes never get here
      }
      FreshWithMore(enabled, interfaces, Interface(port, prefix), statics, bindings, pools);
      if enabled { ToApplyWithMore(interfaces, Interface(port, prefix), statics); }
      interfaces := interfaces + {Interface(port, prefix)};
      AddStaticNatEntries(OnPrefix(port, prefix));
      ghost var statics1, bindings1 := statics, bindings;
      AddDynamicNatRules(OnPrefix(port, prefix));
      if enabled {
        AppliedStays(interfaces, statics1, statics, {});
        RulesStay(old(interfaces), old(bindings), bindings1, pools, {});
        RulesWithMore(old(interfaces), Interface(port, prefix), bindings1, bindings, pools);
      }
    }

    /** An address is removed from an interface. */
    method DelInterface(port: Port, prefix: Prefix)
      requires Settled()
      modifies this`interfaces, this`statics, this`bindings, this`pools, counts
      ensures Settled() && interfaces == old(interfaces) - {Interface(port, prefix)}
      ensures SameStatics(old(statics), statics) && SameBindings(old(bindings), bindings)
      ensures SameRanges(old(pools), pools)
    {
      if Interface(port, prefix) !in interfaces {
        return;
      }
      var others := interfaces - {Interface(port, prefix)};
      assert others + {Interface(port, prefix)} == interfaces;
      var covered := HoldsAddress(others, port, prefix.address);
      NotCovered(others, port, prefix);
      if covered {
        assert false;  // the code skips the removals; disjoint prefixes never get here
      }
      WithdrawInterface(port, prefix);
      interfaces := others;
    }

    /** What is left is settled without the prefix. */
    method WithdrawInterface(port: Port, prefix: Prefix)
      requires Settled() && Interface(port, prefix) in interfaces
      modifies this`statics, this`bindings, this`pools, counts
      ensures Consistent() && NoneLeft({}, {})
      ensures SameStatics(old(statics), statics) && SameBindings(old(bindings), bindings)
      ensures SameRanges(old(pools), pools)
      ensures SettledWith(interfaces - {Interface(port, prefix)})
    {
      RemoveStaticNatEntries(OnPrefix(port, prefix));
      ghost var statics1, bindings1, pools1 := statics, bindings, pools;
      RemoveDynamicNatRules(OnPrefix(port, prefix));
      if enabled {
        AppliedWithout(interfaces, Interface(port, prefix), old(statics), statics);
        RulesStay(interfaces, old(bindings), bindings1, pools1, {});
        RulesWithout(interfaces, Interface(port, prefix), bindings1, pools1, bindings, pools);
      }
      FreshWithout(enabled, interfaces, Interface(port, prefix), statics);
      LiveWithout(enabled, interfaces, Interface(port, prefix), bindings1, pools1, bindings, pools);
    }

    /** Another prefix of the port already holds the address. */
    method HoldsAddress(some: set<Interface>, port: Port, ip: Ip) returns (holds: bool)
      ensures holds <==> exists i <- some :: i.port == port && InSubnet(i.prefix, ip)
    {
      var todo := some;
      while todo != {}
        invariant todo <= some
        invariant forall i <- some - todo :: !(i.port == port && InSubnet(i.prefix, ip))
        decreases todo
      {
        var i :| i in todo;
        if i.port == port && InSubnet(i.prefix, ip) {
          return true;
        }
        todo := todo - {i};
      }
      return false;
    }

    /** What depends on the interfaces, were they the given ones. */
    ghost predicate SettledWith(others: set<Interface>)
      reads this
    {
      && AllFresh(enabled, others, statics) && AllLive(enabled, others, bindings, pools)
      && (enabled ==> AppliedBut(others, statics, {}) && RulesAppliedBut(others, bindings, pools, {}))
    }

    /**
      A zone change on a port withdraws its rules and applies them again.  It also
      withdraws the bindings of all other ports that wait for their partners, and
      does not apply those again.
     */
    method ChangeZone(port: Port)
      requires Settled()
      modifies this`statics, this`bindings, this`pools, counts
      ensures Settled() && SameStaticsOn(old(statics), statics) && SameBindings(old(bindings), bindings)
      ensures SameRanges(old(pools), pools)
      ensures enabled ==>
        forall b <- bindings.Keys :: ZoneChanged(port, interfaces, old(pools), old(bindings)[b], bindings[b])
    {
      RemoveDynamicNatRules(OnPort(port));
      label removed:
      AddDynamicNatRules(OnPort(port));
      if enabled {
        forall b <- bindings.Keys ensures ZoneChanged(port, interfaces, old(pools), old(bindings)[b], bindings[b]) {
          RemovedAndAdded(port, interfaces, old(pools), pools, old(bindings)[b], old@removed(bindings)[b], bindings[b]);
        }
        AppliedStays(interfaces, old(statics), statics, {});
        RulesAfterZone(port, interfaces, old(bindings), old(pools), bindings, pools);
      }
    }
  }

  lemma OneUser(name: Key, binding: Binding)
    ensures AtMostTwoUsers(map[], map[][name := binding]) && OneBindingPerPool(map[][name := binding])
  {
    var bindings: map<Key, Binding> := map[][name := binding];
    forall id: string ensures |StaticUsers(map[], id)| + |BindingUsers(bindings, id)| <= 2 {
      assert StaticUsers(map[], id) == {};
      SubsetIsSmaller({name}, BindingUsers(bindings, id));
    }
  }

  /** NAT is enabled on one interface, with one pool. */
  method OnePool(port: Port, name: Key, low: Ip) returns (m: NatMgr)
    requires port != ""
    requires 0 < low < 0xF000_0000
    ensures fresh(m) && fresh(m.counts) && m.Settled() && m.enabled && m.statics == map[] && m.bindings == map[]
    ensures m.pools == map[name := Range(low, low, "")] && Home(m.interfaces, low, Some(port))
  {
    m := new NatMgr();
    m.EnableNat();
    m.AddInterface(port, Prefix(low, 24));
    assert Interface(port, Prefix(low, 24)) in m.interfaces && InSubnet(Prefix(low, 24), low);
    m.SetNatPool(name, low, low, "");
  }

  /** ... and one binding that waits for its partner. */
  method OneBinding(port: Port, low: Ip) returns (m: NatMgr)
    requires port != ""
    requires 0 < low < 0xF000_0000
    ensures fresh(m) && fresh(m.counts) && m.Settled() && m.enabled && "b" in m.bindings
    ensures m.bindings["b"].pool == "p" && m.bindings["b"].id == "7" && !m.bindings["b"].added
    ensures m.bindings["b"].interface == Some(port)
    ensures m.pools == map["p" := Range(low, low, "")] && Home(m.interfaces, low, Some(port))
  {
    m := OnePool(port, "p", low);
    OneUser("b", NewBinding("p", true, "7"));
    m.SetNatBinding("b", "p", true, "7");
    HomeIsUnique(m.interfaces, low, m.bindings["b"].interface, Some(port));
    NotFlaggedAlone(m.statics, m.bindings, m.pools, "b");
  }

  /** A run in which a zone change on one port leaves the binding of another without its rules. */
  method RulesLost() returns (m: NatMgr, before: Option<Port>)
    ensures fresh(m) && m.Settled() && m.enabled && before == Some("Ethernet4")
    ensures "b" in m.bindings && m.bindings["b"].pool == "p" && m.bindings["b"].interface.None?
    ensures UsablePool(m.pools, "p") && Home(m.interfaces, m.pools["p"].low, before)
  {
    var low := 0x4137_2A01;
    m := OneBinding("Ethernet4", low);
    before := m.bindings["b"].interface;
    if Home(m.interfaces, low, Some("Ethernet0")) {
      HomeIsUnique(m.interfaces, low, Some("Ethernet0"), before);
      assert false;
    }
    m.ChangeZone("Ethernet0");
  }

  lemma NotFlaggedAlone(statics: map<Ip, Static>, bindings: map<Key, Binding>, pools: map<Key, Pool>, b: Key)
    requires Matched(statics, bindings, pools) && statics == map[] && b in bindings
    ensures !bindings[b].added
  {
    assert BindingMatched(statics, bindings, pools, b);
  }
}
