/**
  What the reference counts of the DNAT pool must be: how many translations use
  each address, and how one entry, binding or pair moves that number.
 */
module NatUses {
  import opened DnatPool
  import opened NatInterfaces
  import opened NatPairs

  /** An entry without an id translates when it is applied, one with an id when it is paired. */
  predicate ActiveStatic(entry: Static) {
    if entry.id == "" then entry.interface.Some? else entry.added
  }

  predicate ActiveBinding(binding: Binding) {
    if binding.id == "" then binding.interface.Some? else binding.added
  }

  /** The address an entry exposes to the outside. */
  function Exposed(key: Ip, entry: Static): Ip {
    if entry.natType == Dnat then key else entry.localIp
  }

  ghost function Exposers(statics: map<Ip, Static>, ip: Ip): set<Ip> {
    set k | k in statics && ActiveStatic(statics[k]) && Exposed(k, statics[k]) == ip
  }

  ghost function Coverers(bindings: map<Key, Binding>, pools: map<Key, Pool>, ip: Ip): set<Key> {
    set b | b in bindings && ActiveBinding(bindings[b]) && bindings[b].pool in pools
            && Covers(pools[bindings[b].pool], ip)
  }

  /** The active static entries that expose an address and the active bindings that cover it. */
  ghost function Uses(statics: map<Ip, Static>, bindings: map<Key, Binding>, pools: map<Key, Pool>, ip: Ip): nat {
    |Exposers(statics, ip)| + |Coverers(bindings, pools, ip)|
  }

  lemma UsesOfStatic(statics: map<Ip, Static>, bindings: map<Key, Binding>, pools: map<Key, Pool>, key: Ip,
                     entry: Static)
    requires key in statics ==> !ActiveStatic(statics[key])
    ensures forall ip: Ip ::
      Uses(statics[key := entry], bindings, pools, ip)
      == Uses(statics, bindings, pools, ip) + (if ActiveStatic(entry) then One(Exposed(key, entry), ip) else 0)
  {
    forall ip: Ip ensures |Exposers(statics[key := entry], ip)| ==
      |Exposers(statics, ip)| + if ActiveStatic(entry) then One(Exposed(key, entry), ip) else 0
    {
      assert key !in Exposers(statics, ip);
      assert Exposers(statics[key := entry], ip)
        == if ActiveStatic(entry) && Exposed(key, entry) == ip then Exposers(statics, ip) + {key}
           else Exposers(statics, ip);
    }
  }

  lemma UsesWithoutStatic(statics: map<Ip, Static>, bindings: map<Key, Binding>, pools: map<Key, Pool>, key: Ip)
    requires key in statics && !ActiveStatic(statics[key])
    ensures forall ip: Ip :: Uses(statics - {key}, bindings, pools, ip) == Uses(statics, bindings, pools, ip)
  {
    forall ip: Ip ensures Exposers(statics - {key}, ip) == Exposers(statics, ip) {
    }
  }

  /** The addresses a binding adds to the pool. */
  function BindingUse(binding: Binding, pools: map<Key, Pool>, ip: Ip): nat {
    if ActiveBinding(binding) && binding.pool in pools then InRange(pools[binding.pool], ip) else 0
  }

  lemma UsesOfBinding(statics: map<Ip, Static>, bindings: map<Key, Binding>, pools: map<Key, Pool>, name: Key,
                      binding: Binding)
    requires name in bindings ==> !ActiveBinding(bindings[name])
    ensures forall ip: Ip ::
      Uses(statics, bindings[name := binding], pools, ip)
      == Uses(statics, bindings, pools, ip) + BindingUse(binding, pools, ip)
  {
    forall ip: Ip ensures |Coverers(bindings[name := binding], pools, ip)| ==
      |Coverers(bindings, pools, ip)| + BindingUse(binding, pools, ip)
    {
      assert name !in Coverers(bindings, pools, ip);
      assert Coverers(bindings[name := binding], pools, ip)
        == if BindingUse(binding, pools, ip) == 1 then Coverers(bindings, pools, ip) + {name}
           else Coverers(bindings, pools, ip);
    }
  }

  lemma UsesWithoutBinding(statics: map<Ip, Static>, bindings: map<Key, Binding>, pools: map<Key, Pool>, name: Key)
    requires name in bindings && !ActiveBinding(bindings[name])
    ensures forall ip: Ip :: Uses(statics, bindings - {name}, pools, ip) == Uses(statics, bindings, pools, ip)
  {
    forall ip: Ip ensures Coverers(bindings - {name}, pools, ip) == Coverers(bindings, pools, ip) {
    }
  }

  /** A pool no active binding uses covers nothing. */
  lemma UsesOfPools(statics: map<Ip, Static>, bindings: map<Key, Binding>, pools: map<Key, Pool>, name: Key,
                    after: map<Key, Pool>)
    requires forall b <- bindings.Keys | bindings[b].pool == name :: !ActiveBinding(bindings[b])
    requires forall p :: p != name ==> (p in after <==> p in pools) && (p in after ==> after[p] == pools[p])
    ensures forall ip: Ip :: Uses(statics, bindings, after, ip) == Uses(statics, bindings, pools, ip)
  {
    forall ip: Ip ensures Coverers(bindings, after, ip) == Coverers(bindings, pools, ip) {
    }
  }

  /** A pair of static entries adds the destination and the translated source. */
  lemma UsesOfPair(idle: map<Ip, Static>, paired: map<Ip, Static>, bindings: map<Key, Binding>, pools: map<Key, Pool>,
                   k: Ip, m: Ip)
    requires k != m && k in idle && m in idle && paired.Keys == idle.Keys
    requires !ActiveStatic(idle[k]) && !ActiveStatic(idle[m]) && ActiveStatic(paired[k]) && ActiveStatic(paired[m])
    requires forall n <- idle.Keys - {k, m} :: paired[n] == idle[n]
    ensures forall ip: Ip ::
      Uses(paired, bindings, pools, ip)
      == Uses(idle, bindings, pools, ip) + One(Exposed(k, paired[k]), ip) + One(Exposed(m, paired[m]), ip)
  {
    UsesOfStatic(idle, bindings, pools, k, paired[k]);
    UsesOfStatic(idle[k := paired[k]], bindings, pools, m, paired[m]);
    assert paired == idle[k := paired[k]][m := paired[m]];
  }

  /** A pair with a binding adds the local address and the pool. */
  lemma UsesOfBoundPair(statics: map<Ip, Static>, bindings: map<Key, Binding>, pools: map<Key, Pool>, k: Ip,
                        entry: Static, b: Key, binding: Binding)
    requires k in statics && !ActiveStatic(statics[k]) && ActiveStatic(entry)
    requires b in bindings && !ActiveBinding(bindings[b]) && ActiveBinding(binding) && binding.pool in pools
    ensures forall ip: Ip ::
      Uses(statics[k := entry], bindings[b := binding], pools, ip)
      == Uses(statics, bindings, pools, ip) + One(Exposed(k, entry), ip) + InRange(pools[binding.pool], ip)
  {
    UsesOfStatic(statics, bindings, pools, k, entry);
    UsesOfBinding(statics[k := entry], bindings, pools, b, binding);
  }

  lemma UsesAfterSplit(statics: map<Ip, Static>, after: map<Ip, Static>, bindings: map<Key, Binding>,
                       pools: map<Key, Pool>, k: Ip, m: Ip)
    requires PairedStatics(statics, k, m) && SameStatics(statics, after) && !after[k].added && !after[m].added
    requires forall n <- after.Keys - {k, m} :: after[n] == statics[n]
    ensures forall ip: Ip ::
      Uses(statics, bindings, pools, ip)
      == Uses(after, bindings, pools, ip) + One(Exposed(k, statics[k]), ip) + One(Exposed(m, statics[m]), ip)
  {
    UsesOfPair(after, statics, bindings, pools, k, m);
  }
}
