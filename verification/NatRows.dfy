/**
  The rows of NAT_TABLE and NAT_TWICE_TABLE: what is published for the active
  static entries, and that the rows translate a reply back to its sender.
 */
module NatRows {
  import opened NatInterfaces

  /** A static entry: `natType` says on which side of the translation its key is. */
  datatype Entry = Entry(key: Ip, localIp: Ip, natType: NatType)

  datatype Row = Row(translated: Ip, natType: NatType)

  datatype Addresses = Addresses(src: Ip, dst: Ip)

  /** A source and a destination entry that carry one twice_nat_id. */
  datatype Pair = Pair(source: Entry, destination: Entry)

  function Reply(p: Addresses): Addresses {
    Addresses(p.dst, p.src)
  }

  // ---------- single entries ----------

  /** The exposed address of an entry. */
  function Outside(e: Entry): Ip {
    if e.natType == Dnat then e.key else e.localIp
  }

  /** The address behind it. */
  function Inside(e: Entry): Ip {
    if e.natType == Dnat then e.localIp else e.key
  }

  function Ends(e: Entry): set<Ip> {
    {Outside(e), Inside(e)}
  }

  /** No address is an endpoint twice. */
  ghost predicate DistinctEnds(active: set<Entry>) {
    && (forall e <- active :: Outside(e) != Inside(e))
    && (forall e <- active, f <- active | e != f :: Ends(e) !! Ends(f))
  }

  /** The table holds the two rows of every active entry and nothing else. */
  ghost predicate Publishes(rows: map<Ip, Row>, active: set<Entry>) {
    && (forall e <- active :: Outside(e) in rows && rows[Outside(e)] == Row(Inside(e), Dnat))
    && (forall e <- active :: Inside(e) in rows && rows[Inside(e)] == Row(Outside(e), Snat))
    && (forall ip {:trigger Owned(active, ip)} :: ip in rows ==> Owned(active, ip))
  }

  ghost predicate Owned(active: set<Entry>, ip: Ip) {
    exists e <- active :: ip in Ends(e)
  }

  /** Forwarding rewrites the source by its snat row and the destination by its dnat row. */
  function Translate(rows: map<Ip, Row>, p: Addresses): Addresses {
    Addresses(if p.src in rows && rows[p.src].natType == Snat then rows[p.src].translated else p.src,
              if p.dst in rows && rows[p.dst].natType == Dnat then rows[p.dst].translated else p.dst)
  }

  ghost predicate IsInside(active: set<Entry>, ip: Ip) {
    exists e <- active :: Inside(e) == ip
  }

  ghost predicate IsOutside(active: set<Entry>, ip: Ip) {
    exists e <- active :: Outside(e) == ip
  }

  lemma KindOfAddress(rows: map<Ip, Row>, active: set<Entry>, ip: Ip)
    requires Publishes(rows, active) && DistinctEnds(active)
    ensures IsInside(active, ip) <==> ip in rows && rows[ip].natType == Snat
    ensures IsOutside(active, ip) <==> ip in rows && rows[ip].natType == Dnat
    ensures ip in rows ==>
              rows[ip].translated in rows
                && rows[rows[ip].translated] == Row(ip, if rows[ip].natType == Snat then Dnat else Snat)
  {
    if ip in rows {
      assert Owned(active, ip);
    }
  }

  /**
    The reply to a translated packet is translated to the reply to the packet,
    exactly when the packet is neither sent from an exposed address nor sent to
    an inside one.
   */
  lemma ReplyReturns(rows: map<Ip, Row>, active: set<Entry>, p: Addresses)
    requires Publishes(rows, active) && DistinctEnds(active)
    ensures Translate(rows, Reply(Translate(rows, p))) == Reply(p) <==>
      !IsOutside(active, p.src) && !IsInside(active, p.dst)
  {
    KindOfAddress(rows, active, p.src);
    KindOfAddress(rows, active, p.dst);
  }

  // ---------- pairs ----------

  function Forward(pair: Pair): Addresses {
    Addresses(pair.source.key, pair.destination.key)
  }

  function Backward(pair: Pair): Addresses {
    Addresses(pair.destination.localIp, pair.source.localIp)
  }

  /** No two pairs match the same packet, and no packet matches a pair both ways. */
  ghost predicate DistinctPairs(pairs: set<Pair>) {
    && (forall p <- pairs :: Forward(p) != Backward(p))
    && (forall p <- pairs, q <- pairs | p != q :: {Forward(p), Backward(p)} !! {Forward(q), Backward(q)})
  }

  ghost predicate PublishesPairs(twice: map<Addresses, Addresses>, pairs: set<Pair>) {
    && (forall p <- pairs :: Forward(p) in twice && twice[Forward(p)] == Reply(Backward(p)))
    && (forall p <- pairs :: Backward(p) in twice && twice[Backward(p)] == Reply(Forward(p)))
    && (forall k {:trigger PairedBy(pairs, k)} :: k in twice ==> PairedBy(pairs, k))
  }

  ghost predicate PairedBy(pairs: set<Pair>, k: Addresses) {
    exists p <- pairs :: k == Forward(p) || k == Backward(p)
  }

  /** Twice NAT rewrites both addresses of a packet (section 4.3 of RFC 2663). */
  function TranslateTwice(twice: map<Addresses, Addresses>, p: Addresses): Addresses {
    if p in twice then twice[p] else p
  }

  lemma TwiceReplyReturns(twice: map<Addresses, Addresses>, pairs: set<Pair>, p: Addresses)
    requires PublishesPairs(twice, pairs)
    ensures p in twice ==> TranslateTwice(twice, Reply(TranslateTwice(twice, p))) == Reply(p)
  {
    if p in twice {
      assert PairedBy(pairs, p);
      var pair :| pair in pairs && (p == Forward(pair) || p == Backward(pair));
      assert Reply(Reply(Backward(pair))) == Backward(pair) && Reply(Reply(Forward(pair))) == Forward(pair);
    }
  }

  /** The pair two entries make, whichever of them comes last. */
  function PairOf(e: Entry, f: Entry): Pair
    requires e.natType != f.natType
  {
    if e.natType == Snat then Pair(e, f) else Pair(f, e)
  }

  class NatRowTables {
    var rows: map<Ip, Row>
    var twice: map<Addresses, Addresses>
    ghost var active: set<Entry>
    ghost var pairs: set<Pair>

    ghost predicate Valid()
      reads this
    {
      DistinctEnds(active) && Publishes(rows, active) && DistinctPairs(pairs) && PublishesPairs(twice, pairs)
    }

    constructor ()
      ensures Valid() && rows == map[] && twice == map[] && active == {} && pairs == {}
    {
      rows, twice, active, pairs := map[], map[], {}, {};
    }

    method AddStaticSingleNatEntry(e: Entry)
      requires Valid() && DistinctEnds(active + {e})
      modifies this`rows, this`active
      ensures Valid() && active == old(active) + {e}
      ensures rows == old(rows)[Outside(e) := Row(Inside(e), Dnat)][Inside(e) := Row(Outside(e), Snat)]
    {
      var dnatKey, snatKey, dnatRow, snatRow;
      if e.natType == Dnat {
        dnatKey, dnatRow := e.key, Row(e.localIp, Dnat);
        snatKey, snatRow := e.localIp, Row(e.key, Snat);
      } else {
        snatKey, snatRow := e.key, Row(e.localIp, Snat);
        dnatKey, dnatRow := e.localIp, Row(e.key, Dnat);
      }
      rows := rows[dnatKey := dnatRow];
      rows := rows[snatKey := snatRow];
      RowsAdded(old(rows), rows, active, e);
      active := active + {e};
    }

    /** Removal deletes the two rows of the entry and no other. */
    method RemoveStaticSingleNatEntry(e: Entry)
      requires Valid() && e in active
      modifies this`rows, this`active
      ensures Valid() && active == old(active) - {e}
      ensures rows == old(rows) - Ends(e)
    {
      var dnatKey, snatKey := e.localIp, e.key;
      if e.natType == Dnat {
        dnatKey, snatKey := e.key, e.localIp;
      }
      rows := rows - {dnatKey};
      rows := rows - {snatKey};
      assert rows == old(rows) - Ends(e);
      RowsRemoved(old(rows), active, e);
      active := active - {e};
    }

    /** The rows of a pair are the same whichever of its entries was added last. */
    method AddStaticTwiceNatEntry(key: Entry, other: Entry)
      requires Valid() && key.natType != other.natType && DistinctPairs(pairs + {PairOf(key, other)})
      modifies this`twice, this`pairs
      ensures Valid() && pairs == old(pairs) + {PairOf(key, other)}
    {
      var src, dest, translatedSrc, translatedDest;
      if other.natType == Dnat && key.natType == Snat {
        src, dest, translatedSrc, translatedDest := key.key, other.key, key.localIp, other.localIp;
      } else {
        src, dest, translatedSrc, translatedDest := other.key, key.key, other.localIp, key.localIp;
      }
      twice := twice[Addresses(src, dest) := Addresses(translatedSrc, translatedDest)];
      twice := twice[Addresses(translatedDest, translatedSrc) := Addresses(dest, src)];
      PairAdded(old(twice), twice, pairs, PairOf(key, other));
      pairs := pairs + {PairOf(key, other)};
    }

    /** Removal through either entry deletes the two rows of the pair and no other. */
    method RemoveStaticTwiceNatEntry(key: Entry, other: Entry)
      requires Valid() && key.natType != other.natType && PairOf(key, other) in pairs
      modifies this`twice, this`pairs
      ensures Valid() && pairs == old(pairs) - {PairOf(key, other)}
      ensures twice == old(twice) - {Forward(PairOf(key, other)), Backward(PairOf(key, other))}
    {
      var src, dest, translatedSrc, translatedDest;
      if other.natType == Dnat && key.natType == Snat {
        src, dest, translatedSrc, translatedDest := key.key, other.key, key.localIp, other.localIp;
      } else {
        src, dest, translatedSrc, translatedDest := other.key, key.key, other.localIp, key.localIp;
      }
      twice := twice - {Addresses(src, dest)};
      twice := twice - {Addresses(translatedDest, translatedSrc)};
      assert twice == old(twice) - {Forward(PairOf(key, other)), Backward(PairOf(key, other))};
      PairRemoved(old(twice), pairs, PairOf(key, other));
      pairs := pairs - {PairOf(key, other)};
    }

    /** Adding and removing an entry leaves the published rows as they were. */
    method AddThenRemove(e: Entry)
      requires Valid() && DistinctEnds(active + {e}) && e !in active
      modifies this`rows, this`active
      ensures Valid() && rows == old(rows) && active == old(active)
    {
      forall f <- active ensures Ends(e) !! Ends(f) {
        assert e in active + {e} && f in active + {e};
      }
      forall ip <- Ends(e) ensures ip !in rows {
        assert ip in rows ==> Owned(active, ip);
      }
      AddStaticSingleNatEntry(e);
      RemoveStaticSingleNatEntry(e);
    }
  }

  lemma RowsAdded(before: map<Ip, Row>, after: map<Ip, Row>, active: set<Entry>, e: Entry)
    requires Publishes(before, active) && DistinctEnds(active + {e})
    requires after == before[Outside(e) := Row(Inside(e), Dnat)][Inside(e) := Row(Outside(e), Snat)]
    ensures Publishes(after, active + {e})
  {
    forall f <- active + {e} ensures f == e || (f in active && Ends(e) !! Ends(f)) {
    }
    forall ip {:trigger Owned(active + {e}, ip)} ensures ip in after ==> Owned(active + {e}, ip) {
      MoreOwners(active, e, ip);
      assert ip in before ==> Owned(active, ip);
    }
  }

  lemma MoreOwners(active: set<Entry>, e: Entry, ip: Ip)
    ensures ip in Ends(e) || Owned(active, ip) ==> Owned(active + {e}, ip)
  {
    if ip in Ends(e) {
      assert e in active + {e};
    } else if Owned(active, ip) {
      var f :| f in active && ip in Ends(f);
      assert f in active + {e};
    }
  }

  lemma RowsRemoved(before: map<Ip, Row>, active: set<Entry>, e: Entry)
    requires Publishes(before, active) && DistinctEnds(active) && e in active
    ensures Publishes(before - Ends(e), active - {e})
  {
    forall ip <- (before - Ends(e)).Keys ensures Owned(active - {e}, ip) {
      assert Owned(active, ip);
      var f :| f in active && ip in Ends(f);
      assert f in active - {e};
    }
    forall f <- active - {e} ensures Ends(e) !! Ends(f) {
    }
  }

  lemma PairAdded(before: map<Addresses, Addresses>, after: map<Addresses, Addresses>, pairs: set<Pair>, p: Pair)
    requires PublishesPairs(before, pairs) && DistinctPairs(pairs + {p})
    requires after == before[Forward(p) := Reply(Backward(p))][Backward(p) := Reply(Forward(p))]
    ensures PublishesPairs(after, pairs + {p})
  {
    forall q <- pairs + {p} ensures q == p || (q in pairs && {Forward(p), Backward(p)} !! {Forward(q), Backward(q)}) {
    }
    forall k {:trigger PairedBy(pairs + {p}, k)} ensures k in after ==> PairedBy(pairs + {p}, k) {
      MorePairs(pairs, p, k);
      assert k in before ==> PairedBy(pairs, k);
    }
  }

  lemma MorePairs(pairs: set<Pair>, p: Pair, k: Addresses)
    ensures k == Forward(p) || k == Backward(p) || PairedBy(pairs, k) ==> PairedBy(pairs + {p}, k)
  {
    if k == Forward(p) || k == Backward(p) {
      assert p in pairs + {p};
    } else if PairedBy(pairs, k) {
      var q :| q in pairs && (k == Forward(q) || k == Backward(q));
      assert q in pairs + {p};
    }
  }

  lemma PairRemoved(before: map<Addresses, Addresses>, pairs: set<Pair>, p: Pair)
    requires PublishesPairs(before, pairs) && DistinctPairs(pairs) && p in pairs
    ensures PublishesPairs(before - {Forward(p), Backward(p)}, pairs - {p})
  {
    var gone := {Forward(p), Backward(p)};
    forall k <- (before - gone).Keys ensures PairedBy(pairs - {p}, k) {
      assert PairedBy(pairs, k);
      var q :| q in pairs && (k == Forward(q) || k == Backward(q));
      assert q in pairs - {p};
    }
    forall q <- pairs - {p} ensures gone !! {Forward(q), Backward(q)} {
    }
  }

  /** Replies that do not return: the packet came from an exposed address, or went to an inside one. */
  method LostReplies() returns (t: NatRowTables)
    ensures fresh(t) && t.Valid()
    ensures exists p: Addresses ::
      !IsInside(t.active, p.dst) && Translate(t.rows, Reply(Translate(t.rows, p))) != Reply(p)
    ensures exists p: Addresses ::
      !IsOutside(t.active, p.src) && Translate(t.rows, Reply(Translate(t.rows, p))) != Reply(p)
  {
    t := new NatRowTables();
    var e := Entry(0x4137_2A01, 0x0A00_0001, Dnat);
    t.AddStaticSingleNatEntry(e);
    var fromOutside, toInside := Addresses(e.key, 0x0808_0808), Addresses(0x0808_0808, e.localIp);
    assert IsOutside(t.active, fromOutside.src) && IsInside(t.active, toInside.dst);
    ReplyReturns(t.rows, t.active, fromOutside);
    ReplyReturns(t.rows, t.active, toInside);
  }
}
