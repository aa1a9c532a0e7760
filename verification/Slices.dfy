/**
  The supported-but-not-configured ids of one port, as slices: the maximal runs
  of the ids no configured item covers, and how configuring or removing one item
  changes them.
 */
module Slices {
  import opened IdBitmap

  /** The ids configured by a set of keys. */
  ghost function Configured(keys: set<Ids>): set<nat> {
    set key, i | key in keys && i in key.Members() :: i
  }

  ghost function Unconfigured(keys: set<Ids>, bound: nat): set<nat> {
    Interval(0, bound) - Configured(keys)
  }

  /** Configured ranges are readable, in range, and disjoint from each other. */
  ghost predicate Disjoint(keys: set<Ids>, bound: nat) {
    && (forall key <- keys :: key.WellFormed() && key.High() < bound)
    && (forall a <- keys, b <- keys | a != b :: a.Members() !! b.Members())
  }

  /** Two slices with no configured id between them. */
  ghost predicate Touch(a: Ids, b: Ids) {
    a.High() + 1 == b.Low() || b.High() + 1 == a.Low()
  }

  /** A family of id strings that splits 0..bound-1 into disjoint ranges. */
  ghost predicate Partitions(keys: set<Ids>, bound: nat) {
    && Disjoint(keys, bound)
    && Configured(keys) == Interval(0, bound)
  }

  lemma SliceMembers(low: nat, high: nat)
    requires low <= high
    ensures Slice(low, high).WellFormed()
    ensures Slice(low, high).Low() == low && Slice(low, high).High() == high
    ensures Slice(low, high).Members() == Interval(low, high + 1)
  {
  }

  /** Every member of a set below the bound lies in one of its maximal runs. */
  lemma RunOf(ids: set<nat>, i: nat, bound: nat) returns (low: nat, high: nat)
    requires i in ids && forall j <- ids :: j < bound
    ensures low <= i <= high < bound && IsRun(ids, low, high)
    ensures Slice(low, high) in Runs(ids, bound)
  {
    low := i;
    while low > 0 && low - 1 in ids
      invariant 0 <= low <= i && forall j: nat | low <= j <= i :: j in ids
    {
      low := low - 1;
    }
    high := i;
    while high + 1 in ids
      invariant i <= high < bound && forall j: nat | low <= j <= high :: j in ids
      decreases bound - high
    {
      high := high + 1;
    }
  }

  lemma RunsDoNotOverlap(ids: set<nat>, l1: nat, h1: nat, l2: nat, h2: nat)
    requires IsRun(ids, l1, h1) && IsRun(ids, l2, h2)
    requires (l1, h1) != (l2, h2)
    ensures h1 + 1 < l2 || h2 + 1 < l1
  {
  }

  /** Distinct maximal runs neither overlap nor touch, and cover their set. */
  lemma RunsPartition(ids: set<nat>, bound: nat)
    requires forall j <- ids :: j < bound
    ensures Configured(Runs(ids, bound)) == ids
    ensures Disjoint(Runs(ids, bound), bound)
    ensures forall a <- Runs(ids, bound), b <- Runs(ids, bound) :: !Touch(a, b)
  {
    RunsCover(ids, bound);
    var runs := Runs(ids, bound);
    forall a <- runs, b <- runs
      ensures a.WellFormed() && a.High() < bound && !Touch(a, b) && (a != b ==> a.Members() !! b.Members())
    {
      RunsApart(ids, bound, a, b);
    }
  }

  lemma RunsCover(ids: set<nat>, bound: nat)
    requires forall j <- ids :: j < bound
    ensures Configured(Runs(ids, bound)) == ids
  {
    var runs := Runs(ids, bound);
    forall i <- ids ensures i in Configured(runs) {
      var low, high := RunOf(ids, i, bound);
      SliceMembers(low, high);
      assert i in Slice(low, high).Members();
    }
    forall i <- Configured(runs) ensures i in ids {
      var s :| s in runs && i in s.Members();
      InRuns(ids, bound, s);
    }
  }

  lemma RunsApart(ids: set<nat>, bound: nat, a: Ids, b: Ids)
    requires a in Runs(ids, bound) && b in Runs(ids, bound)
    ensures a.WellFormed() && a.High() < bound && !Touch(a, b) && (a != b ==> a.Members() !! b.Members())
  {
    InRuns(ids, bound, a);
    InRuns(ids, bound, b);
    if a != b { RunsDoNotOverlap(ids, a.Low(), a.High(), b.Low(), b.High()); }
  }

  lemma InRuns(ids: set<nat>, bound: nat, s: Ids)
    requires s in Runs(ids, bound)
    ensures s.WellFormed() && s.High() < bound
    ensures IsRun(ids, s.Low(), s.High()) && s == Slice(s.Low(), s.High())
    ensures s.Members() <= ids
  {
  }

  /** A contiguous part of a set lies within one maximal run. */
  lemma RunContaining(ids: set<nat>, key: Ids, bound: nat) returns (s: Ids)
    requires key.WellFormed() && key.Members() <= ids && forall j <- ids :: j < bound
    ensures s in Runs(ids, bound) && key.Members() <= s.Members()
  {
    assert key.Low() in key.Members();
    var low, high := RunOf(ids, key.Low(), bound);
    SliceMembers(low, high);
    s := Slice(low, high);
  }

  /** No member of one set is, or is next to, a member of the other. */
  ghost predicate Apart(a: set<nat>, b: set<nat>) {
    forall i <- a, j <- b :: i + 1 < j || j + 1 < i
  }

  lemma {:induction false} StaysInOnePart(a: set<nat>, b: set<nat>, low: nat, high: nat)
    requires Apart(a, b) && low in a && low <= high
    requires forall i: nat | low <= i <= high :: i in a + b
    ensures forall i: nat | low <= i <= high :: i in a
  {
    if low < high {
      StaysInOnePart(a, b, low, high - 1);
      assert high - 1 in a && high in a + b;
    }
  }

  lemma RunOfApartUnion(a: set<nat>, b: set<nat>, low: nat, high: nat)
    requires Apart(a, b) && IsRun(a + b, low, high) && low in a
    ensures IsRun(a, low, high)
  {
    StaysInOnePart(a, b, low, high);
  }

  lemma RunOfPart(a: set<nat>, b: set<nat>, low: nat, high: nat)
    requires Apart(a, b) && IsRun(a, low, high)
    ensures IsRun(a + b, low, high)
  {
    assert low in a && high in a;
  }

  /** The maximal runs of two sets that are apart are found separately. */
  lemma RunsOfApartUnion(a: set<nat>, b: set<nat>, bound: nat)
    requires Apart(a, b)
    ensures Runs(a + b, bound) == Runs(a, bound) + Runs(b, bound)
  {
    assert b + a == a + b;
    forall low: nat, high: nat | low <= high < bound
      ensures IsRun(a + b, low, high) <==> IsRun(a, low, high) || IsRun(b, low, high)
    {
      if IsRun(a + b, low, high) {
        assert low in a + b;
        if low in a { RunOfApartUnion(a, b, low, high); } else { RunOfApartUnion(b, a, low, high); }
      }
      if IsRun(a, low, high) { RunOfPart(a, b, low, high); }
      if IsRun(b, low, high) { RunOfPart(b, a, low, high); }
    }
  }

  lemma RunsOfOneSlice(s: Ids, bound: nat)
    requires s.WellFormed() && s.High() < bound
    ensures Runs(s.Members(), bound) == {Slice(s.Low(), s.High())}
  {
    forall low: nat, high: nat | low <= high < bound && IsRun(s.Members(), low, high)
      ensures low == s.Low() && high == s.High()
    {
      assert low in s.Members() && high in s.Members();
    }
    assert IsRun(s.Members(), s.Low(), s.High());
  }

  /** Taking one maximal run out of a set leaves the other runs, apart from it. */
  lemma RemoveRun(ids: set<nat>, bound: nat, s: Ids)
    requires s in Runs(ids, bound)
    ensures Apart(ids - s.Members(), s.Members())
    ensures Runs(ids - s.Members(), bound) == Runs(ids, bound) - {s}
  {
    InRuns(ids, bound, s);
    var rest := ids - s.Members();
    forall i <- rest, j <- s.Members() ensures i + 1 < j || j + 1 < i {
      assert s.Low() <= j <= s.High() && !(s.Low() <= i <= s.High());
    }
    assert rest + s.Members() == ids;
    RunsOfApartUnion(rest, s.Members(), bound);
    RunsOfOneSlice(s, bound);
    forall low: nat, high: nat | low <= high < bound && IsRun(rest, low, high) ensures Slice(low, high) != s {
      assert low in rest;
    }
  }

  /** Configuring part of one run replaces that run by what is left of it. */
  lemma SplitRun(ids: set<nat>, bound: nat, s: Ids, key: Ids)
    requires s in Runs(ids, bound) && key.Members() <= s.Members()
    ensures Runs(ids - key.Members(), bound) == Runs(ids, bound) - {s} + Runs(s.Members() - key.Members(), bound)
  {
    RemoveRun(ids, bound, s);
    InRuns(ids, bound, s);
    var left := s.Members() - key.Members();
    assert ids - key.Members() == ids - s.Members() + left;
    RunsOfApartUnion(ids - s.Members(), left, bound);
  }

  lemma SlicesCanAbsorb(keys: set<Ids>, bound: nat, key: Ids)
    requires Disjoint(keys, bound) && key in keys
    ensures CanAbsorb(Runs(Unconfigured(keys, bound), bound), bound, key)
  {
    var free := Unconfigured(keys, bound);
    RunsPartition(free, bound);
    forall s <- Runs(free, bound) ensures s.Members() !! key.Members() {
      InRuns(free, bound, s);
      assert key.Members() <= Configured(keys);
    }
  }

  /** Any family of maximal runs is the family of maximal runs of what it covers. */
  lemma RunsOfSomeRuns(ids: set<nat>, bound: nat, some: set<Ids>)
    requires forall j <- ids :: j < bound
    requires some <= Runs(ids, bound)
    ensures Runs(Configured(some), bound) == some
    ensures Apart(Configured(some), Configured(Runs(ids, bound) - some))
  {
    var all := Runs(ids, bound);
    var a, b := Configured(some), Configured(all - some);
    RunsPartition(ids, bound);
    forall i <- a, j <- b ensures i + 1 < j || j + 1 < i {
      var s :| s in some && i in s.Members();
      var t :| t in all - some && j in t.Members();
      assert !Touch(s, t) && s.Members() !! t.Members();
      assert s.Low() in s.Members() && t.Low() in t.Members();
    }
    assert a + b == ids;
    RunsOfApartUnion(a, b, bound);
    forall s <- all ensures s in Runs(a, bound) <==> s in some {
      assert s.Low() in s.Members();
      if s in some { assert s.Low() in a; } else { assert s.Low() in b; }
      if s in Runs(a, bound) { InRuns(a, bound, s); }
      if s in Runs(b, bound) { InRuns(b, bound, s); }
    }
  }

  lemma ApartFromGrown(bound: nat, key: Ids, scan: Scan, s: Ids)
    requires CanAbsorb(scan.seen, bound, key) && scan.Sound(key, bound)
    requires s in scan.seen - scan.absorbed
    ensures s.WellFormed() && (s.High() + 1 < scan.low || scan.high + 1 < s.Low())
  {
    OnlyTheKeyMatters(scan.seen, bound, key, scan.absorbed, s, scan.low, scan.high);
    assert s.Low() in s.Members() && s.High() in s.Members();
    assert scan.low in Interval(scan.low, scan.high + 1);
    assert !Touch(s, key);
  }

  lemma RestApartFromGrown(bound: nat, key: Ids, scan: Scan, rest: set<nat>, grown: set<nat>)
    requires CanAbsorb(scan.seen, bound, key) && scan.Sound(key, bound)
    requires rest == Configured(scan.seen - scan.absorbed) && grown == Interval(scan.low, scan.high + 1)
    ensures Apart(rest, grown)
  {
    forall i <- rest, j <- grown ensures i + 1 < j || j + 1 < i {
      var s :| s in scan.seen - scan.absorbed && i in s.Members();
      ApartFromGrown(bound, key, scan, s);
    }
  }

  /** Removing a key frees exactly its own ids. */
  lemma FreedIds(keys: set<Ids>, bound: nat, key: Ids)
    requires Disjoint(keys, bound) && key in keys
    ensures Unconfigured(keys - {key}, bound) == Unconfigured(keys, bound) + key.Members()
  {
    assert keys - {key} + {key} == keys;
    ConfiguredInsert(keys - {key}, key);
    assert Configured(keys - {key}) !! key.Members();
  }

  lemma ConfiguredUnion(a: set<Ids>, b: set<Ids>)
    ensures Configured(a + b) == Configured(a) + Configured(b)
  {
  }

  /** Replacing the absorbed slices by the grown range gives the new maximal runs. */
  lemma SlicesAfterDel(free: set<nat>, bound: nat, key: Ids, scan: Scan)
    requires forall j <- free :: j < bound
    requires scan.seen == Runs(free, bound) && CanAbsorb(scan.seen, bound, key) && scan.Sound(key, bound)
    ensures Runs(Interval(scan.low, scan.high + 1), bound) == {Slice(scan.low, scan.high)}
    ensures Runs(free + key.Members(), bound) == scan.seen - scan.absorbed + {Slice(scan.low, scan.high)}
  {
    var left := scan.seen - scan.absorbed;
    var rest, grown := Configured(left), Interval(scan.low, scan.high + 1);
    var c := Slice(scan.low, scan.high);
    SliceMembers(scan.low, scan.high);
    assert Runs(grown, bound) == {c} by { RunsOfOneSlice(c, bound); }
    assert Runs(rest + grown, bound) == left + {c} by { RunsOfRestAndGrown(free, bound, key, scan, rest, grown); }
    assert rest + grown == free + key.Members() by { RestAndGrown(free, bound, key, scan); }
  }

  /** A key that absorbs nothing is its own slice. */
  lemma NothingGrown(bound: nat, key: Ids, scan: Scan)
    requires key.WellFormed() && scan.Sound(key, bound) && scan.absorbed == {}
    ensures Slice(scan.low, scan.high) == key
  {
  }

  lemma RunsOfRestAndGrown(free: set<nat>, bound: nat, key: Ids, scan: Scan, rest: set<nat>, grown: set<nat>)
    requires forall j <- free :: j < bound
    requires scan.seen == Runs(free, bound) && CanAbsorb(scan.seen, bound, key) && scan.Sound(key, bound)
    requires rest == Configured(scan.seen - scan.absorbed) && grown == Interval(scan.low, scan.high + 1)
    ensures Runs(rest + grown, bound) == (scan.seen - scan.absorbed) + Runs(grown, bound)
  {
    RunsOfSomeRuns(free, bound, scan.seen - scan.absorbed);
    RestApartFromGrown(bound, key, scan, rest, grown);
    RunsOfApartUnion(rest, grown, bound);
  }

  lemma RestAndGrown(free: set<nat>, bound: nat, key: Ids, scan: Scan)
    requires forall j <- free :: j < bound
    requires scan.seen == Runs(free, bound) && scan.Sound(key, bound)
    ensures Configured(scan.seen - scan.absorbed) + Interval(scan.low, scan.high + 1) == free + key.Members()
  {
    var left := scan.seen - scan.absorbed;
    RunsPartition(free, bound);
    ConfiguredUnion(left, scan.absorbed);
    assert left + scan.absorbed == scan.seen;
  }

  /** Slices that neither overlap nor touch one another. */
  ghost predicate SeparateSlices(slices: set<Ids>, bound: nat) {
    && Disjoint(slices, bound)
    && forall a <- slices, b <- slices :: !Touch(a, b)
  }

  /** The slices scanned so far, those absorbed, and the range grown. */
  datatype Scan = Scan(seen: set<Ids>, absorbed: set<Ids>, low: nat, high: nat) {
    ghost predicate Sound(key: Ids, bound: nat) {
      absorbed == Touching(seen, key) && GrownBy(key, absorbed, low, high) && high < bound
    }

    ghost function Next(s: Ids, key: Ids): Scan {
      if Touch(s, key) then Scan(seen + {s}, absorbed + {s}, GrownLow(low, s), GrownHigh(high, s))
      else Scan(seen + {s}, absorbed, low, high)
    }
  }

  /** low..high is the key's range extended over the absorbed slices on either side. */
  ghost predicate GrownBy(key: Ids, absorbed: set<Ids>, low: nat, high: nat) {
    && low <= key.Low() && key.High() <= high
    && (low != key.Low() ==> exists a <- absorbed :: a.Low() == low && a.High() + 1 == key.Low())
    && (high != key.High() ==> exists a <- absorbed :: a.High() == high && key.High() + 1 == a.Low())
    && Interval(low, high + 1) == key.Members() + Configured(absorbed)
  }

  ghost function Touching(slices: set<Ids>, key: Ids): set<Ids> {
    set s | s in slices && Touch(s, key)
  }

  lemma TouchingInsert(slices: set<Ids>, key: Ids, s: Ids)
    ensures Touching(slices + {s}, key) == Touching(slices, key) + if Touch(s, key) then {s} else {}
  {
  }

  ghost predicate CanAbsorb(slices: set<Ids>, bound: nat, key: Ids) {
    && key.WellFormed() && key.High() < bound
    && SeparateSlices(slices, bound)
    && forall s <- slices :: s.Members() !! key.Members()
  }

  ghost function GrownLow(low: nat, s: Ids): nat {
    if s.High() + 1 == low then s.Low() else low
  }

  ghost function GrownHigh(high: nat, s: Ids): nat {
    if high + 1 == s.Low() then s.High() else high
  }

  lemma GrowStep(key: Ids, absorbed: set<Ids>, s: Ids, low: nat, high: nat)
    requires key.WellFormed() && s.WellFormed() && GrownBy(key, absorbed, low, high)
    requires s.High() + 1 == low || high + 1 == s.Low()
    requires Touch(s, key)
    ensures GrownBy(key, absorbed + {s}, GrownLow(low, s), GrownHigh(high, s))
    ensures Interval(low, high + 1) + s.Members() == Interval(GrownLow(low, s), GrownHigh(high, s) + 1)
  {
    ConfiguredInsert(absorbed, s);
    var l, h := GrownLow(low, s), GrownHigh(high, s);
    assert s in absorbed + {s};
    assert Interval(low, high + 1) + s.Members() == Interval(l, h + 1);
    assert key.Members() + Configured(absorbed + {s}) == Interval(low, high + 1) + s.Members();
  }

  /** The test the scan makes on a slice it has not seen yet. */
  lemma ScanTest(slices: set<Ids>, bound: nat, key: Ids, scan: Scan, s: Ids)
    requires CanAbsorb(slices, bound, key) && scan.seen <= slices && s in slices - scan.seen
    requires scan.Sound(key, bound)
    ensures s.Members() * Interval(scan.low, scan.high + 1) == {}
    ensures Continuous(s.Members() + Interval(scan.low, scan.high + 1), bound) <==> Touch(s, key)
  {
    OnlyTheKeyMatters(slices, bound, key, scan.absorbed, s, scan.low, scan.high);
  }

  /** One step of the scan, whichever slice comes next. */
  lemma ScanStep(slices: set<Ids>, bound: nat, key: Ids, scan: Scan, s: Ids)
    requires CanAbsorb(slices, bound, key) && scan.seen <= slices && s in slices - scan.seen
    requires scan.Sound(key, bound)
    ensures scan.Next(s, key).Sound(key, bound)
    ensures var next := scan.Next(s, key);
      Interval(next.low, next.high + 1) ==
      if Touch(s, key) then Interval(scan.low, scan.high + 1) + s.Members() else Interval(scan.low, scan.high + 1)
  {
    TouchingInsert(scan.seen, key, s);
    if Touch(s, key) {
      OnlyTheKeyMatters(slices, bound, key, scan.absorbed, s, scan.low, scan.high);
      GrowStep(key, scan.absorbed, s, scan.low, scan.high);
    } else {
      assert scan.absorbed == Touching(scan.seen + {s}, key);
    }
  }

  /** Whether a slice continues the range grown so far depends on the key alone. */
  lemma OnlyTheKeyMatters(slices: set<Ids>, bound: nat, key: Ids, absorbed: set<Ids>, s: Ids, low: nat, high: nat)
    requires SeparateSlices(slices, bound) && absorbed <= slices && s in slices - absorbed
    requires key.WellFormed() && s.Members() !! key.Members() && high < bound
    requires GrownBy(key, absorbed, low, high)
    ensures s.Members() * Interval(low, high + 1) == {}
    ensures s.WellFormed() && s.High() < bound
    ensures Continuous(s.Members() + Interval(low, high + 1), bound) <==> Touch(s, key)
    ensures Touch(s, key) <==> s.High() + 1 == low || high + 1 == s.Low()
  {
    assert s.Low() in s.Members() && key.Low() in key.Members();
    assert s.Members() * Interval(low, high + 1) == {};
    assert low in Interval(low, high + 1);
    TwoRanges(s, low, high, bound);
  }

  /** Two disjoint ranges together are contiguous exactly when one starts where the other ends. */
  lemma TwoRanges(s: Ids, low: nat, high: nat, bound: nat)
    requires s.WellFormed() && s.High() < bound && low <= high < bound
    requires s.Members() * Interval(low, high + 1) == {}
    ensures Continuous(s.Members() + Interval(low, high + 1), bound) <==> s.High() + 1 == low || high + 1 == s.Low()
  {
    var grown := Interval(low, high + 1);
    var all := s.Members() + grown;
    assert s.Low() in s.Members() && s.High() in s.Members() && low in grown && high in grown;
    assert s.Low() !in s.Members() * grown && low !in s.Members() * grown;
    if s.High() + 1 < low {
      assert s.High() in all && low in all && s.High() + 1 !in all;
    } else if high + 1 < s.Low() {
      assert high in all && s.Low() in all && high + 1 !in all;
    }
  }

  lemma NoRuns(bound: nat)
    ensures Runs({}, bound) == {}
  {
    var none: set<nat> := {};
    forall low: nat, high: nat | low <= high ensures !IsRun(none, low, high) {
      assert low !in none;
    }
  }

  lemma ConfiguredInsert(keys: set<Ids>, key: Ids)
    ensures Configured(keys + {key}) == Configured(keys) + key.Members()
  {
  }

  /** A key's ids stay free until the key itself is configured. */
  lemma StillFree(keys: set<Ids>, done: set<Ids>, key: Ids, bound: nat)
    requires Disjoint(keys, bound) && done <= keys && key in keys - done
    ensures key.Members() <= Unconfigured(done, bound)
  {
  }

  /** Replacing the slice found by what is left of it gives the new maximal runs. */
  lemma SlicesAfterSet(keys: set<Ids>, bound: nat, key: Ids, slices: set<Ids>, found: set<Ids>, leftIds: set<nat>)
    requires Disjoint(keys, bound) && Disjoint(keys + {key}, bound)
    requires slices == Runs(Unconfigured(keys, bound), bound)
    requires found == {} ==> leftIds == {} && forall s <- slices :: !(key.Members() <= s.Members())
    requires found != {} ==> exists s <- slices ::
      key.Members() <= s.Members() && found == {s} && leftIds == s.Members() - key.Members()
    ensures slices - found + Runs(leftIds, bound) == Runs(Unconfigured(keys + {key}, bound), bound)
  {
    var free := Unconfigured(keys, bound);
    ConfiguredInsert(keys, key);
    if key in keys {
      assert keys + {key} == keys;
      RunsMissKey(keys, bound, key);
      NoRuns(bound);
    } else {
      StillFree(keys + {key}, keys, key, bound);
      var s := RunContaining(free, key, bound);
      var t :| t in slices && key.Members() <= t.Members() && found == {t} && leftIds == t.Members() - key.Members();
      SplitRun(free, bound, t, key);
      assert Unconfigured(keys + {key}, bound) == free - key.Members();
    }
  }

  /** The slice found is the only one that shares an id with a key to be configured. */
  lemma CutByKey(keys: set<Ids>, bound: nat, key: Ids, found: set<Ids>)
    requires Disjoint(keys, bound) && Disjoint(keys + {key}, bound)
    requires found == {} ==> forall s <- Runs(Unconfigured(keys, bound), bound) :: !(key.Members() <= s.Members())
    requires found != {} ==>
      exists s <- Runs(Unconfigured(keys, bound), bound) :: key.Members() <= s.Members() && found == {s}
    ensures forall s <- Runs(Unconfigured(keys, bound), bound) :: s in found <==> !(s.Members() !! key.Members())
  {
    var free := Unconfigured(keys, bound);
    RunsPartition(free, bound);
    assert key.Low() in key.Members();
    if key in keys {
      forall s <- Runs(free, bound) ensures s.Members() !! key.Members() {
        InRuns(free, bound, s);
        assert key.Members() <= Configured(keys);
      }
    } else {
      StillFree(keys + {key}, keys, key, bound);
      var s := RunContaining(free, key, bound);
      assert s in found;
    }
  }

  /** What is left of a slice is none of the other slices. */
  lemma LeftIsNew(ids: set<nat>, bound: nat, found: set<Ids>, leftIds: set<nat>)
    requires forall j <- ids :: j < bound
    requires found == {} ==> leftIds == {}
    requires found != {} ==> exists s <- Runs(ids, bound) :: found == {s} && leftIds <= s.Members()
    ensures Runs(leftIds, bound) !! (Runs(ids, bound) - found)
  {
    RunsPartition(ids, bound);
    NoRuns(bound);
    forall s <- Runs(leftIds, bound) ensures s !in Runs(ids, bound) - found {
      InRuns(leftIds, bound, s);
      assert s.Low() in s.Members();
    }
  }

  /** The merged slice, which holds the key, is none of the slices it leaves alone. */
  lemma MergedIsNew(slices: set<Ids>, bound: nat, key: Ids, scan: Scan)
    requires CanAbsorb(slices, bound, key) && scan.seen == slices && scan.Sound(key, bound)
    ensures scan.low <= scan.high && Slice(scan.low, scan.high) !in slices
  {
    assert key.Low() in key.Members();
    SliceMembers(scan.low, scan.high);
    assert key.Low() in Slice(scan.low, scan.high).Members();
  }

  /** No slice of the unconfigured ids holds a configured key. */
  lemma RunsMissKey(keys: set<Ids>, bound: nat, key: Ids)
    requires Disjoint(keys, bound) && key in keys
    ensures forall s <- Runs(Unconfigured(keys, bound), bound) :: !(key.Members() <= s.Members())
    ensures key !in Runs(Unconfigured(keys, bound), bound)
  {
    assert key.Low() in key.Members() && key.Low() in Configured(keys);
    forall s <- Runs(Unconfigured(keys, bound), bound) ensures !(key.Members() <= s.Members()) {
      InRuns(Unconfigured(keys, bound), bound, s);
    }
  }

  lemma RunsMissKeys(keys: set<Ids>, bound: nat)
    requires Disjoint(keys, bound)
    ensures Runs(Unconfigured(keys, bound), bound) !! keys
  {
    forall key <- keys ensures key !in Runs(Unconfigured(keys, bound), bound) { RunsMissKey(keys, bound, key); }
  }
}
