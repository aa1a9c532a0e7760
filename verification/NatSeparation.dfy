/**
  Validation of the STATIC_NAT, STATIC_NAPT and NAT_POOL tables: whatever the
  order of events, no address is exposed by both a static NAT and a static NAPT
  entry, or by a static NAT entry and a pool.
 */
module NatSeparation {
  import opened NatInterfaces
  import opened Wrappers
  import opened DnatPool

  datatype Protocol = Tcp | Udp

  datatype NaptKey = NaptKey(ip: Ip, protocol: Protocol, port: int)

  datatype Translation = Translation(localIp: Ip, natType: NatType)

  datatype NaptEntry = NaptEntry(to: Translation, localPort: int)

  /** IS_ZERO_ADDR, IS_BROADCAST_ADDR, IS_LOOPBACK_ADDR, IS_MULTICAST_ADDR and IS_RESERVED_ADDR. */
  predicate Usable(ip: Ip) {
    && ip != 0 && ip != 0xFFFF_FFFF && ip / 0x100_0000 != 0x7F
    && !(0xE000_0000 <= ip <= 0xEFFF_FFFF) && !(ip >= 0xF000_0000)
  }

  /** What is left: every address from 0.0.0.1 below the multicast ones, without the loopback block. */
  lemma UsableAddresses(ip: Ip)
    ensures Usable(ip) <==> 0 < ip < 0xE000_0000 && !(0x7F00_0000 <= ip <= 0x7FFF_FFFF)
  {
    if ip / 0x100_0000 == 0x7F { assert 0x7F00_0000 <= ip <= 0x7FFF_FFFF; }
  }

  const L4_PORT_MIN := 1
  const L4_PORT_MAX := 65535

  predicate L4Port(port: int) {
    1 <= port <= 65535
  }

  /** The address a translation exposes to the outside. */
  function GlobalIp(keyIp: Ip, to: Translation): Ip {
    if to.natType == Snat then to.localIp else keyIp
  }

  ghost function NatGlobals(statics: map<Ip, Translation>): set<Ip> {
    set k | k in statics :: GlobalIp(k, statics[k])
  }

  ghost function NaptGlobals(napts: map<NaptKey, NaptEntry>): set<Ip> {
    set n | n in napts :: GlobalIp(n.ip, napts[n].to)
  }

  ghost predicate InSomePool(pools: map<Key, Pool>, ip: Ip) {
    exists p <- pools.Keys :: Covers(pools[p], ip)
  }

  class NatTables {
    var statics: map<Ip, Translation>
    var napts: map<NaptKey, NaptEntry>
    var pools: map<Key, Pool>

    /** The exposed addresses are told apart, and every pool range can be walked. */
    ghost predicate Separate()
      reads this
    {
      && NatGlobals(statics) !! NaptGlobals(napts)
      && (forall ip <- NatGlobals(statics) :: !InSomePool(pools, ip))
      && (forall p <- pools.Keys :: Accepted(pools[p]))
    }

    /** No NAPT entry exposes an address of a pool; nothing in the validation asks for it. */
    ghost predicate NaptOutsidePools()
      reads this`napts, this`pools
    {
      forall ip <- NaptGlobals(napts) :: !InSomePool(pools, ip)
    }

    /** A STATIC_NAT SET is cached. */
    ghost predicate AcceptsNat(key: Ip, to: Translation)
      reads this
    {
      && Usable(key) && Usable(to.localIp)
      && GlobalIp(key, to) !in NaptGlobals(napts) && !InSomePool(pools, GlobalIp(key, to))
      && (key in statics ==> statics[key].localIp != to.localIp)
    }

    /** A STATIC_NAPT SET is cached. */
    ghost predicate AcceptsNapt(key: NaptKey, entry: NaptEntry)
      reads this
    {
      && Usable(key.ip) && L4Port(key.port) && Usable(entry.to.localIp) && L4Port(entry.localPort)
      && GlobalIp(key.ip, entry.to) !in NatGlobals(statics)
      && (key in napts ==> (napts[key].to.localIp, napts[key].localPort) != (entry.to.localIp, entry.localPort))
    }

    /** A NAT_POOL SET is cached. */
    ghost predicate AcceptsPool(name: Key, first: Ip, last: Option<Ip>, ports: string)
      reads this
    {
      var high := if last.Some? then last.value else first;
      && |name| <= 32 && Usable(first) && Usable(high) && (last.Some? ==> first < high)
      && (forall ip <- NatGlobals(statics) :: !Covers(Range(first, high, ports), ip))
      && (name in pools ==> pools[name] != Range(first, high, ports))
    }

    constructor ()
      ensures Separate() && NaptOutsidePools() && statics == map[] && napts == map[] && pools == map[]
    {
      statics, napts, pools := map[], map[], map[];
    }

    method ExposedByNapt(ip: Ip) returns (overlaps: bool)
      ensures overlaps <==> ip in NaptGlobals(napts)
    {
      var todo := napts.Keys;
      while todo != {}
        invariant todo <= napts.Keys
        invariant forall n <- napts.Keys - todo :: GlobalIp(n.ip, napts[n].to) != ip
        decreases todo
      {
        var n :| n in todo;
        if GlobalIp(n.ip, napts[n].to) == ip {
          return true;
        }
        todo := todo - {n};
      }
      return false;
    }

    method ExposedByNat(ip: Ip) returns (overlaps: bool)
      ensures overlaps <==> ip in NatGlobals(statics)
    {
      var todo := statics.Keys;
      while todo != {}
        invariant todo <= statics.Keys
        invariant forall k <- statics.Keys - todo :: GlobalIp(k, statics[k]) != ip
        decreases todo
      {
        var k :| k in todo;
        if GlobalIp(k, statics[k]) == ip {
          return true;
        }
        todo := todo - {k};
      }
      return false;
    }

    method CoveredByPool(ip: Ip) returns (overlaps: bool)
      ensures overlaps <==> InSomePool(pools, ip)
    {
      var todo := pools.Keys;
      while todo != {}
        invariant todo <= pools.Keys
        invariant forall p <- pools.Keys - todo :: !Covers(pools[p], ip)
        decreases todo
      {
        var p :| p in todo;
        if Covers(pools[p], ip) {
          return true;
        }
        todo := todo - {p};
      }
      return false;
    }

    method RangeHoldsNat(pool: Pool) returns (overlaps: bool)
      ensures overlaps <==> exists ip <- NatGlobals(statics) :: Covers(pool, ip)
    {
      var todo := statics.Keys;
      while todo != {}
        invariant todo <= statics.Keys
        invariant forall k <- statics.Keys - todo :: !Covers(pool, GlobalIp(k, statics[k]))
        decreases todo
      {
        var k :| k in todo;
        if Covers(pool, GlobalIp(k, statics[k])) {
          assert GlobalIp(k, statics[k]) in NatGlobals(statics);
          return true;
        }
        todo := todo - {k};
      }
      return false;
    }

    /**
      STATIC_NAT SET; a missing nat_type means dnat.  `wellFormed` tells whether the
      fields are complete, known, unique and readable, and the twice_nat_id is in its limits.
     */
    method SetStaticNat(key: Ip, localIp: Ip, natType: Option<NatType>, wellFormed: bool)
      requires Separate()
      modifies this`statics
      ensures Separate()
      ensures var to := Translation(localIp, if natType.Some? then natType.value else Dnat);
              statics == if wellFormed && old(AcceptsNat(key, to)) then old(statics)[key := to] else old(statics)
    {
      if !wellFormed {
        return;
      }
      if !Usable(key) || !Usable(localIp) {
        return;
      }
      var globalIp := if natType == Some(Snat) then localIp else key;
      var overlaps := ExposedByNapt(globalIp);
      if overlaps {
        return;
      }
      overlaps := CoveredByPool(globalIp);
      if overlaps {
        return;
      }
      if key in statics && statics[key].localIp == localIp {
        return;
      }
      GlobalsAfter(statics, key, Translation(localIp, if natType.Some? then natType.value else Dnat));
      statics := statics[key := Translation(localIp, if natType.Some? then natType.value else Dnat)];
    }

    method DelStaticNat(key: Ip)
      requires Separate()
      modifies this`statics
      ensures Separate() && statics == old(statics) - {key} && (old(NaptOutsidePools()) ==> NaptOutsidePools())
    {
      statics := statics - {key};
      assert forall k <- statics.Keys :: statics[k] == old(statics)[k];
      assert NatGlobals(statics) <= NatGlobals(old(statics));
    }

    /** STATIC_NAPT SET, which is not compared with the pools. */
    method SetStaticNapt(key: NaptKey, localIp: Ip, localPort: int, natType: Option<NatType>, wellFormed: bool)
      requires Separate()
      modifies this`napts
      ensures Separate()
      ensures var entry := NaptEntry(Translation(localIp, if natType.Some? then natType.value else Dnat), localPort);
              && napts == (if wellFormed && old(AcceptsNapt(key, entry)) then old(napts)[key := entry] else old(napts))
              && (old(NaptOutsidePools()) ==>
                    (NaptOutsidePools() <==>
                       !(wellFormed && old(AcceptsNapt(key, entry))) || !InSomePool(pools, GlobalIp(key.ip, entry.to))))
    {
      if !wellFormed {
        return;
      }
      if !Usable(key.ip) || !(L4_PORT_MIN <= key.port <= L4_PORT_MAX)
        || !Usable(localIp) || !(L4_PORT_MIN <= localPort <= L4_PORT_MAX) {
        return;
      }
      var globalIp := if natType == Some(Snat) then localIp else key.ip;
      var overlaps := ExposedByNat(globalIp);
      if overlaps {
        return;
      }
      if key in napts && napts[key].to.localIp == localIp && napts[key].localPort == localPort {
        return;
      }
      var entry := NaptEntry(Translation(localIp, if natType.Some? then natType.value else Dnat), localPort);
      NaptGlobalsAfter(napts, key, entry);
      napts := napts[key := entry];
      assert napts[key] == entry;
      assert GlobalIp(key.ip, entry.to) in NaptGlobals(napts);
    }

    method DelStaticNapt(key: NaptKey)
      requires Separate()
      modifies this`napts
      ensures Separate() && napts == old(napts) - {key} && (old(NaptOutsidePools()) ==> NaptOutsidePools())
    {
      napts := napts - {key};
      assert forall n <- napts.Keys :: napts[n] == old(napts)[n];
      assert NaptGlobals(napts) <= NaptGlobals(old(napts));
    }

    /** NAT_POOL SET with one address, or with a range of two; pools are not compared with NAPT entries. */
    method SetNatPool(name: Key, first: Ip, last: Option<Ip>, ports: string, wellFormed: bool)
      requires Separate()
      modifies this`pools
      ensures Separate()
      ensures var range :=
          Range(first, if last.Some? then last.value else first, if ports == "NULL" then "" else ports);
              && pools == (if wellFormed && old(AcceptsPool(name, first, last, ports)) then old(pools)[name := range]
                           else old(pools))
              && (old(NaptOutsidePools()) ==>
                    (NaptOutsidePools() <==> !(wellFormed && old(AcceptsPool(name, first, last, ports)))
                                             || forall ip <- NaptGlobals(napts) :: !Covers(range, ip)))
    {
      if !wellFormed {
        return;
      }
      if |name| > 32 {
        return;
      }
      var high := first;
      if last.Some? {
        if !Usable(last.value) || !Usable(first) || first >= last.value {
          return;
        }
        high := last.value;
      } else if !Usable(first) {
        return;
      }
      var range := Range(first, high, if ports == "NULL" then "" else ports);
      var overlaps := RangeHoldsNat(range);
      if overlaps {
        return;
      }
      if name in pools && pools[name] == Range(first, high, ports) {
        return;
      }
      pools := pools[name := range];
      forall ip: Ip | Covers(range, ip) ensures InSomePool(pools, ip) {
        assert Covers(pools[name], ip);
      }
    }

    method DelNatPool(name: Key)
      requires Separate()
      modifies this`pools
      ensures Separate() && pools == old(pools) - {name} && (old(NaptOutsidePools()) ==> NaptOutsidePools())
    {
      pools := pools - {name};
    }
  }

  lemma GlobalsAfter(statics: map<Ip, Translation>, key: Ip, to: Translation)
    ensures NatGlobals(statics[key := to]) <= NatGlobals(statics) + {GlobalIp(key, to)}
  {
    var after := statics[key := to];
    forall ip <- NatGlobals(after) ensures ip in NatGlobals(statics) + {GlobalIp(key, to)} {
      var k :| k in after && GlobalIp(k, after[k]) == ip;
      assert k != key ==> GlobalIp(k, statics[k]) == ip;
    }
  }

  lemma NaptGlobalsAfter(napts: map<NaptKey, NaptEntry>, key: NaptKey, entry: NaptEntry)
    ensures NaptGlobals(napts[key := entry]) <= NaptGlobals(napts) + {GlobalIp(key.ip, entry.to)}
  {
    var after := napts[key := entry];
    forall ip <- NaptGlobals(after) ensures ip in NaptGlobals(napts) + {GlobalIp(key.ip, entry.to)} {
      var n :| n in after && GlobalIp(n.ip, after[n].to) == ip;
      assert n != key ==> GlobalIp(n.ip, napts[n].to) == ip;
    }
  }

  /** A NAPT entry may lie inside a pool: nothing compares the two. */
  method NaptInsidePool() returns (t: NatTables)
    ensures fresh(t) && t.Separate() && !t.NaptOutsidePools()
  {
    t := new NatTables();
    t.SetNatPool("pool", 100, Some(200), "", true);
    t.SetStaticNapt(NaptKey(150, Tcp, 80), 7, 8080, None, true);
    assert Covers(t.pools["pool"], 150);
  }
}
