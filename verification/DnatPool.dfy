/**
  The destination addresses the switch must punt for translation: a reference
  count for each address, and a row in APPL_DB for each address with a count.
 */
module DnatPool {
  import opened NatInterfaces

  /** Ranges that pass validation increase and stay below the reserved addresses. */
  predicate Accepted(pool: Pool) {
    pool.Range? ==> 0 < pool.low <= pool.high < 0xF000_0000
  }

  predicate Covers(pool: Pool, ip: Ip) {
    pool.Range? && pool.low <= ip <= pool.high
  }

  /** 1 for the address itself. */
  function One(ip: Ip, a: Ip): nat {
    if a == ip then 1 else 0
  }

  /** 1 for the addresses of a range. */
  function InRange(pool: Pool, a: Ip): nat {
    if Covers(pool, a) then 1 else 0
  }

  function Less(n: nat, k: nat): nat {
    if n < k then 0 else n - k
  }

  function CountIn(refs: map<Ip, nat>, ip: Ip): nat {
    if ip in refs then refs[ip] else 0
  }

  class DnatCounts {
    var refs: map<Ip, nat>
    var rows: set<Ip>           // APPL_DB

    /** The rows are the addresses with a count. */
    ghost predicate Valid()
      reads this
    {
      rows == refs.Keys && forall ip <- refs.Keys :: refs[ip] > 0
    }

    function Count(ip: Ip): nat
      reads this
    {
      CountIn(refs, ip)
    }

    constructor ()
      ensures Valid() && refs == map[] && rows == {}
    {
      refs, rows := map[], {};
    }

    /** addDnatPoolEntry */
    method AddEntry(ip: Ip)
      requires Valid()
      modifies this
      ensures Valid() && forall a: Ip :: Count(a) == old(Count(a)) + One(ip, a)
    {
      if ip in refs {
        refs := refs[ip := refs[ip] + 1];
      } else {
        refs := refs[ip := 1];
        rows := rows + {ip};
      }
    }

    /** removeDnatPoolEntry */
    method RemoveEntry(ip: Ip)
      requires Valid()
      modifies this
      ensures Valid() && forall a: Ip :: Count(a) == Less(old(Count(a)), One(ip, a))
    {
      if ip !in refs {
        return;
      }
      refs := refs[ip := refs[ip] - 1];
      if refs[ip] == 0 {
        refs := refs - {ip};
        rows := rows - {ip};
      }
    }

    /** setDnatPoolfromNatPool with ADD; the address is a 32-bit word that may wrap. */
    method AddRange(pool: Pool)
      requires Valid() && Accepted(pool)
      modifies this
      ensures Valid() && forall a: Ip :: Count(a) == old(Count(a)) + InRange(pool, a)
    {
      if pool.NoRange? {
        return;
      }
      var ip := pool.low;
      while ip <= pool.high
        invariant pool.low <= ip <= pool.high + 1 && Valid()
        invariant forall a: Ip :: Count(a) == old(Count(a)) + if pool.low <= a < ip then 1 else 0
        decreases pool.high + 1 - ip
      {
        AddEntry(ip);
        ip := (ip + 1) % 0x1_0000_0000;
      }
    }

    /** setDnatPoolfromNatPool with DELETE. */
    method RemoveRange(pool: Pool)
      requires Valid() && Accepted(pool)
      modifies this
      ensures Valid() && forall a: Ip :: Count(a) == Less(old(Count(a)), InRange(pool, a))
    {
      if pool.NoRange? {
        return;
      }
      var ip := pool.low;
      while ip <= pool.high
        invariant pool.low <= ip <= pool.high + 1 && Valid()
        invariant forall a: Ip :: Count(a) == Less(old(Count(a)), if pool.low <= a < ip then 1 else 0)
        decreases pool.high + 1 - ip
      {
        RemoveEntry(ip);
        ip := (ip + 1) % 0x1_0000_0000;
      }
    }

    /** Adding a range and deleting it again leaves the counts and the rows as they were. */
    method AddThenRemove(pool: Pool)
      requires Valid() && Accepted(pool)
      modifies this
      ensures refs == old(refs) && rows == old(rows)
    {
      AddRange(pool);
      RemoveRange(pool);
      forall ip: Ip ensures CountIn(refs, ip) == CountIn(old(refs), ip) {
        assert CountIn(refs, ip) == Count(ip) && CountIn(old(refs), ip) == old(Count(ip));
      }
      CountsDetermineRefs(refs, old(refs));
    }

    /** Without a count there is no row. */
    lemma NoCounts()
      requires Valid() && forall ip: Ip :: Count(ip) == 0
      ensures refs == map[] && rows == {}
    {
      forall ip: Ip ensures ip !in refs { assert Count(ip) == 0; }
      assert refs.Keys == {};
    }
  }

  /** Equal counts make equal tables. */
  lemma CountsDetermineRefs(a: map<Ip, nat>, b: map<Ip, nat>)
    requires forall ip <- a.Keys :: a[ip] > 0
    requires forall ip <- b.Keys :: b[ip] > 0
    requires forall ip: Ip :: CountIn(a, ip) == CountIn(b, ip)
    ensures a == b
  {
    forall ip: Ip ensures ip in a <==> ip in b { assert CountIn(a, ip) == CountIn(b, ip); }
    assert a.Keys == b.Keys;
    forall ip <- a.Keys ensures a[ip] == b[ip] { assert CountIn(a, ip) == CountIn(b, ip); }
  }
}
