/**
  The priority groups (or queues) of one administratively down port: which
  zero-profile rows APPL_DB holds for them, and how the slices of ids that are
  supported but not configured are split and merged as items are configured
  and removed.
 */
module AdminDownPort {
  import opened IdBitmap
  import opened Words
  import opened Slices

  type Name = string

  lemma CoveredRemove(configured: map<Ids, Name>, zeroOf: Name -> Name, key: Ids)
    ensures CoveredBy(configured - {key}, zeroOf) == CoveredBy(configured, zeroOf) - {key}
  {
  }

  /** Only a key that had no row and that nothing absorbed adds a slice without a row. */
  lemma RowsAfterDel(covered: set<Ids>, key: Ids, before: set<Ids>, touching: set<Ids>, merged: set<Ids>,
                     after: set<Ids>, rows0: set<Ids>, rows: set<Ids>)
    requires covered !! before && key !in before && (covered - {key}) !! after
    requires covered <= rows0 <= covered + before
    requires touching <= before && merged !! before && after == before - touching + merged
    requires touching == {} ==> merged == {key} && rows == rows0
    requires touching != {} ==> rows == rows0 - touching - {key} + merged
    ensures covered - {key} <= rows <= (covered - {key}) + after
    ensures after - rows == (before - rows0) - touching + if key !in covered && touching == {} then {key} else {}
  {
  }

  /** Only a slice that a new key cuts can gain or lose a row. */
  lemma RowsAfterSet(covered: set<Ids>, before: set<Ids>, removed: set<Ids>, split: set<Ids>, rows0: set<Ids>,
                     rows: set<Ids>)
    requires covered !! before && covered !! (before - removed + split)
    requires covered <= rows0 <= covered + before && removed <= before && rows == rows0 - removed + split
    requires split !! (before - removed)
    ensures covered <= rows <= covered + (before - removed + split)
    ensures (before - removed + split) - rows == (before - rows0) - removed
  {
  }

  lemma RemoveOneMore(rows: map<Ids, Name>, removed: set<Ids>, s: Ids)
    ensures rows - removed - {s} == rows - (removed + {s})
  {
  }

  ghost function CoveredBy(configured: map<Ids, Name>, zeroOf: Name -> Name): set<Ids> {
    set key | key in configured && zeroOf(configured[key]) != ""
  }

  lemma CoveredUpdate(configured: map<Ids, Name>, zeroOf: Name -> Name, key: Ids, profile: Name)
    ensures CoveredBy(configured[key := profile], zeroOf) ==
      if zeroOf(profile) != "" then CoveredBy(configured, zeroOf) + {key} else CoveredBy(configured, zeroOf) - {key}
  {
  }

  class Port {
    const bound: nat                    // ids run from 0 to bound - 1
    const zeroProfile: Name             // applied to the ids that are not configured
    const zeroOf: Name -> Name          // zero profile of the pool a profile draws on; "" when it has none
    var configured: map<Ids, Name>      // configured items and their profiles
    var slices: set<Ids>                // supported but not configured
    var rows: map<Ids, Name>            // APPL_DB

    constructor (bound: nat, zeroProfile: Name, zeroOf: Name -> Name, configured: map<Ids, Name>, rows: map<Ids, Name>)
      ensures this.bound == bound && this.zeroProfile == zeroProfile && this.zeroOf == zeroOf
      ensures this.configured == configured && this.rows == rows && slices == {}
    {
      this.bound, this.zeroProfile, this.zeroOf := bound, zeroProfile, zeroOf;
      this.configured, this.rows, this.slices := configured, rows, {};
    }

    ghost predicate IsZeroProfile(name: Name) {
      name != "" && (name == zeroProfile || IsZeroOfSome(name))
    }

    ghost predicate IsZeroOfSome(name: Name) {
      exists profile: Name :: zeroOf(profile) == name
    }

    ghost function FreeIds(): set<nat>
      reads this
    {
      Unconfigured(configured.Keys, bound)
    }

    /** The configured items whose pool has a zero profile. */
    ghost function Covered(): set<Ids>
      reads this
    {
      CoveredBy(configured, zeroOf)
    }

    /**
      What every event keeps: the unconfigured slices are exactly the maximal runs of
      the ids no item covers; APPL_DB holds one row for each configured item whose
      pool has a zero profile, at most one for each slice, and no others; and every
      row names its zero profile.
     */
    ghost predicate Valid()
      reads this
    {
      && zeroProfile != ""
      && Disjoint(configured.Keys, bound)
      && slices == Runs(FreeIds(), bound)
      && Covered() <= rows.Keys <= Covered() + slices
      && (forall key <- Covered() :: rows[key] == zeroOf(configured[key]))
      && (forall s <- slices * rows.Keys :: IsZeroProfile(rows[s]))
    }

    /** The slices without a row. */
    ghost function Unpublished(): set<Ids>
      reads this
    {
      slices - rows.Keys
    }

    /** The reclaimed state: every slice has its row as well. */
    ghost predicate Reclaimed()
      reads this
    {
      Valid() && Unpublished() == {}
    }

    ghost predicate FitsIn(key: Ids)
      reads this
    {
      && key.WellFormed() && key.High() < bound
      && (forall other <- configured.Keys - {key} :: key.Members() !! other.Members())
    }

    /**
      When every pool in use has a zero profile, the rows of a reclaimed port split
      0..bound-1 into disjoint ranges, each naming a zero profile.
     */
    lemma EveryIdIsZeroed()
      requires Reclaimed() && forall key <- configured.Keys :: zeroOf(configured[key]) != ""
      ensures Partitions(rows.Keys, bound)
      ensures forall key <- rows.Keys :: IsZeroProfile(rows[key])
    {
      var keys := configured.Keys;
      var free := FreeIds();
      assert Covered() == keys;
      forall s <- slices ensures s in rows { assert s !in Unpublished(); }
      assert rows.Keys == keys + slices;
      RunsPartition(free, bound);
      ConfiguredUnion(keys, slices);
      forall a <- keys, b <- slices ensures a.Members() !! b.Members() {
        InRuns(free, bound, b);
        assert a.Members() <= Configured(keys);
      }
    }

    /** Publish the zero profile of a configured item, or remove the item when there is none. */
    method PublishItem(key: Ids, zero: Name)
      modifies this`rows
      ensures rows == if zero != "" then old(rows)[key := zero] else old(rows) - {key}
    {
      if zero != "" {
        rows := rows[key := zero];
      } else {
        rows := rows - {key};
      }
    }

    /** Publish the common zero profile for every slice given. */
    method PublishSlices(added: set<Ids>)
      modifies this`rows
      ensures rows.Keys == old(rows.Keys) + added
      ensures forall key <- rows.Keys :: rows[key] == if key in added then zeroProfile else old(rows)[key]
    {
      var todo := added;
      while todo != {}
        invariant todo <= added
        invariant rows.Keys == old(rows.Keys) + (added - todo)
        invariant forall key <- rows.Keys :: rows[key] == if key in added - todo then zeroProfile else old(rows)[key]
        decreases todo
      {
        var s :| s in todo;
        rows := rows[s := zeroProfile];
        todo := todo - {s};
      }
    }

    /** reclaimReservedBufferForPort: the port goes administratively down. */
    method Reclaim()
      requires zeroProfile != ""
      requires Disjoint(configured.Keys, bound)
      requires rows.Keys <= configured.Keys + Runs(FreeIds(), bound)
      modifies this`slices, this`rows
      ensures Reclaimed()
      ensures forall s <- slices :: s in rows && rows[s] == zeroProfile
    {
      var objects: nat := ShiftOne(bound) - 1;
      ghost var free := Interval(0, bound);
      forall i: nat ensures Bit(objects, i) <==> i in free { BitOfAllOnes(bound, i); }
      ghost var done: set<Ids> := {};
      var todo := configured.Keys;
      while todo != {}
        invariant done + todo == configured.Keys && done !! todo
        invariant free == Unconfigured(done, bound) && Represents(objects, free)
        invariant rows.Keys <= configured.Keys + Runs(FreeIds(), bound)
        invariant forall key <- done ::
          if zeroOf(configured[key]) != "" then key in rows && rows[key] == zeroOf(configured[key]) else key !in rows
        decreases todo
      {
        var key :| key in todo;
        PublishItem(key, zeroOf(configured[key]));
        var keyMap := GenerateBitMapFromIds(key);
        StillFree(configured.Keys, done, key, bound);
        RepresentsDifference(objects, keyMap, free, key.Members());
        objects := Xor(objects, keyMap);
        free := free - key.Members();
        ConfiguredInsert(done, key);
        todo, done := todo - {key}, done + {key};
      }
      assert done == configured.Keys;
      RunsMissKeys(configured.Keys, bound);
      slices := GenerateIdListFromMap(objects, bound, free);
      PublishSlices(slices);
    }

    /** The slice that holds the whole of a key, if there is one, and what is left of it. */
    method FindSlice(key: Ids, toAdd: nat) returns (found: set<Ids>, left: nat, ghost leftIds: set<nat>)
      requires Represents(toAdd, key.Members())
      ensures Represents(left, leftIds)
      ensures found == {} ==> leftIds == {} && forall s <- slices :: !(key.Members() <= s.Members())
      ensures found != {} ==> exists s <- slices ::
        key.Members() <= s.Members() && found == {s} && leftIds == s.Members() - key.Members()
    {
      found, left, leftIds := {}, 0, {};
      forall i: nat ensures !Bit(0, i) { BitOfZero(i); }
      var todo := slices;
      while todo != {}
        invariant todo <= slices
        invariant forall s <- slices - todo :: !(key.Members() <= s.Members())
        decreases todo
      {
        var s :| s in todo;
        var sliceMap := GenerateBitMapFromIds(s);
        RepresentsIntersection(toAdd, sliceMap, key.Members(), s.Members());
        if And(toAdd, sliceMap) == toAdd {
          RepresentsDifference(sliceMap, toAdd, s.Members(), key.Members());
          return {s}, Xor(sliceMap, toAdd), s.Members() - key.Members();
        }
        todo := todo - {s};
      }
    }

    /**
      handleSetSingleBufferObjectOnAdminDownPort, once port initialization is done:
      no slice but one the item cuts changes, and what is left of that is published.
     */
    method Set(key: Ids, profile: Name)
      requires Valid() && FitsIn(key)
      modifies this`configured, this`slices, this`rows
      ensures Valid() && configured == old(configured)[key := profile]
      ensures Unpublished() == set s | s in old(Unpublished()) && s.Members() !! key.Members()
      ensures forall s <- slices :: s in rows || s in old(slices)
      ensures forall s <- slices | s in rows ::
        if s in old(slices) then s in old(rows) && rows[s] == old(rows)[s] else rows[s] == zeroProfile
      ensures old(Reclaimed()) ==> Reclaimed()
    {
      ghost var keys, covered := configured.Keys, Covered();
      configured := configured[key := profile];
      assert configured.Keys == keys + {key};
      RunsMissKeys(keys, bound);
      RunsMissKeys(keys + {key}, bound);
      SplitSlices(key, keys, covered);
      PublishItem(key, zeroOf(profile));
      CoveredUpdate(old(configured), zeroOf, key, profile);
    }

    /** Regenerate the unconfigured slices around a key that is being configured. */
    method SplitSlices(key: Ids, ghost keys: set<Ids>, ghost covered: set<Ids>)
      requires zeroProfile != "" && Disjoint(keys, bound) && Disjoint(keys + {key}, bound)
      requires slices == Runs(Unconfigured(keys, bound), bound) && covered <= rows.Keys <= covered + slices
      requires covered !! slices && covered !! Runs(Unconfigured(keys + {key}, bound), bound)
      requires forall s <- slices * rows.Keys :: IsZeroProfile(rows[s])
      modifies this`slices, this`rows
      ensures slices == Runs(Unconfigured(keys + {key}, bound), bound) && covered <= rows.Keys <= covered + slices
      ensures forall s <- slices * rows.Keys :: IsZeroProfile(rows[s])
      ensures slices - rows.Keys == set s | s in old(slices - rows.Keys) && s.Members() !! key.Members()
      ensures forall k <- covered :: rows[k] == old(rows)[k]
      ensures forall s <- slices :: s in rows || s in old(slices)
      ensures forall s <- slices | s in rows ::
        if s in old(slices) then s in old(rows) && rows[s] == old(rows)[s] else rows[s] == zeroProfile
    {
      var toAdd := GenerateBitMapFromIds(key);
      var removed, left, leftIds := FindSlice(key, toAdd);
      SlicesAfterSet(keys, bound, key, slices, removed, leftIds);
      LeftIsNew(Unconfigured(keys, bound), bound, removed, leftIds);
      CutByKey(keys, bound, key, removed);
      var split := GenerateIdListFromMap(left, bound, leftIds);
      RowsAfterSet(covered, slices, removed, split, rows.Keys, rows.Keys - removed + split);
      rows, slices := rows - removed, slices - removed;
      PublishSlices(split);
      slices := slices + split;
      forall s <- slices | s in rows
        ensures if s in old(slices) then s in old(rows) && rows[s] == old(rows)[s] else rows[s] == zeroProfile
      {
        assert s in split || s in old(slices) - removed;
      }
    }

    /** One scan over the slices, taking in every one the growing range touches. */
    method Absorb(key: Ids) returns (absorbed: set<Ids>, toDel: nat, ghost scan: Scan)
      requires CanAbsorb(slices, bound, key)
      modifies this`rows
      ensures scan.seen == slices && scan.Sound(key, bound) && absorbed == scan.absorbed
      ensures Represents(toDel, Interval(scan.low, scan.high + 1))
      ensures rows == old(rows) - absorbed
    {
      toDel := GenerateBitMapFromIds(key);
      absorbed, scan := {}, Scan({}, {}, key.Low(), key.High());
      var todo := slices;
      assert rows - {} == rows;
      while todo != {}
        invariant scan.seen + todo == slices && scan.seen !! todo
        invariant scan.Sound(key, bound) && absorbed == scan.absorbed
        invariant Represents(toDel, Interval(scan.low, scan.high + 1))
        invariant rows == old(rows) - absorbed
        decreases todo
      {
        var s :| s in todo;
        todo := todo - {s};
        RemoveOneMore(old(rows), absorbed, s);
        absorbed, toDel, scan := AbsorbOne(key, s, absorbed, toDel, scan);
      }
    }

    method AbsorbOne(key: Ids, s: Ids, absorbed: set<Ids>, toDel: nat, ghost scan: Scan)
      returns (absorbed': set<Ids>, toDel': nat, ghost scan': Scan)
      requires CanAbsorb(slices, bound, key) && scan.seen <= slices && s in slices - scan.seen
      requires scan.Sound(key, bound) && absorbed == scan.absorbed
      requires Represents(toDel, Interval(scan.low, scan.high + 1))
      modifies this`rows
      ensures scan' == scan.Next(s, key) && scan'.Sound(key, bound) && absorbed' == scan'.absorbed
      ensures Represents(toDel', Interval(scan'.low, scan'.high + 1))
      ensures rows == if Touch(s, key) then old(rows) - {s} else old(rows)
    {
      ScanTest(slices, bound, key, scan, s);
      ScanStep(slices, bound, key, scan, s);
      absorbed', toDel', scan' := absorbed, toDel, scan.Next(s, key);
      var sliceMap := GenerateBitMapFromIds(s);
      var joined, map_ := Join(sliceMap, toDel, s.Members(), Interval(scan.low, scan.high + 1));
      if joined {
        rows := rows - {s};
        absorbed', toDel' := absorbed + {s}, map_;
      }
    }

    /**
      handleDelSingleBufferObjectOnAdminDownPort, once the buffer pools are ready.
      The slices always become the maximal runs again.  A slice is left without a row
      exactly when it was before and is not merged, or when it is the removed item,
      which had no zero profile and touches no slice.
     */
    method Del(key: Ids)
      requires Valid() && key in configured
      modifies this`configured, this`slices, this`rows
      ensures Valid() && configured == old(configured) - {key}
      ensures Unpublished() == old(Unpublished()) - Touching(old(slices), key)
        + if zeroOf(old(configured)[key]) == "" && Touching(old(slices), key) == {} then {key} else {}
      ensures forall s <- slices | s in rows ::
        if s in old(rows) && (s in old(slices) || s == key) && Touching(old(slices), key) == {}
        then rows[s] == old(rows)[s]
        else if s in old(slices) then s in old(rows) && rows[s] == old(rows)[s]
        else rows[s] == zeroProfile
      ensures old(Reclaimed()) ==>
        (Reclaimed() <==> zeroOf(old(configured)[key]) != "" || Touching(old(slices), key) != {})
    {
      ghost var keys, covered := configured.Keys, Covered();
      RunsMissKeys(keys, bound);
      RunsMissKeys(keys - {key}, bound);
      CoveredRemove(configured, zeroOf, key);
      SlicesCanAbsorb(keys, bound, key);
      FreedIds(keys, bound, key);
      configured := configured - {key};
      assert configured.Keys == keys - {key};
      ghost var touching := Touching(slices, key);
      var merged := MergeSlices(key, Unconfigured(keys, bound));
      RowsAfterDel(covered, key, old(slices), touching, merged, slices, old(rows).Keys, rows.Keys);
    }

    /** Fold the ids of a removed key into the unconfigured slices. */
    method MergeSlices(key: Ids, ghost free: set<nat>) returns (merged: set<Ids>)
      requires zeroProfile != "" && forall j <- free :: j < bound
      requires slices == Runs(free, bound) && CanAbsorb(slices, bound, key)
      requires key !in slices
      modifies this`slices, this`rows
      ensures slices == Runs(free + key.Members(), bound)
      ensures slices == old(slices) - Touching(old(slices), key) + merged && merged !! old(slices)
      ensures Touching(old(slices), key) == {} ==> merged == {key} && rows == old(rows)
      ensures Touching(old(slices), key) != {} ==>
        && rows.Keys == old(rows.Keys) - Touching(old(slices), key) - {key} + merged
        && (forall k <- rows.Keys :: if k in merged then rows[k] == zeroProfile else rows[k] == old(rows)[k])
    {
      var absorbed, toDel, scan := Absorb(key);
      SlicesAfterDel(free, bound, key, scan);
      if absorbed == {} { NothingGrown(bound, key, scan); }
      MergedIsNew(slices, bound, key, scan);
      if absorbed != {} {
        rows, slices := rows - {key}, slices - absorbed;
        merged := GenerateIdListFromMap(toDel, bound, Interval(scan.low, scan.high + 1));
        PublishSlices(merged);
        slices := slices + merged;
      } else if zeroProfile != "" {
        merged := {key};
        slices := slices + merged;
      }
    }

    /** Whether two bitmaps are disjoint and together contiguous, and their union. */
    method Join(a: nat, b: nat, ghost s: set<nat>, ghost t: set<nat>) returns (joined: bool, both: nat)
      requires Represents(a, s) && Represents(b, t)
      ensures joined <==> s * t == {} && Continuous(s + t, bound)
      ensures Represents(both, t + s)
    {
      RepresentsIntersection(a, b, s, t);
      RepresentsUnion(a, b, s, t);
      RepresentsUnion(b, a, t, s);
      joined, both := And(a, b) == 0, Or(b, a);
      if joined {
        joined := IsItemIdsMapContinuous(Or(a, b), bound, s + t);
      }
    }
  }

  /** Removing an item whose pool has no zero profile, next to no free id, leaves its ids without a row. */
  method UnpublishedIds() returns (p: Port)
    ensures fresh(p) && p.Valid() && !p.Reclaimed()
  {
    var key := One(0);
    p := new Port(1, "egress_lossy_zero_profile", profile => "", map[key := "egress_lossless_profile"], map[]);
    assert p.configured.Keys == {key} && Disjoint({key}, 1);
    assert 0 in key.Members() && 0 in Configured({key});
    assert Unconfigured({key}, 1) == {};
    NoRuns(1);
    p.Reclaim();
    p.Del(key);
  }
}
