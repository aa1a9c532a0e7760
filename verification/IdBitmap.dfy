/**
  Bitmaps of queue and priority-group ids, and the id strings ("3-4", "5") that
  name slices of them.  An id string is modelled by its parsed form; a machine
  word by the natural number it holds (every word here stays below 2^31).
 */
module IdBitmap {
  import opened Words

  ghost predicate AtLeast(i: nat, low: nat) { low <= i }

  /** The ids from low up to, and without, end. */
  ghost function Interval(low: nat, end: nat): (ids: set<nat>)
    ensures forall i: nat :: i in ids <==> low <= i < end
  {
    set i: nat | i < end && AtLeast(i, low)
  }

  /** A parsed id string.  A `Span` whose bounds do not increase is malformed. */
  datatype Ids = One(id: nat) | Span(low: nat, high: nat) {

    predicate WellFormed() {
      Span? ==> low < high
    }

    function Low(): nat {
      if One? then id else low
    }

    function High(): nat {
      if One? then id else high
    }

    /** The ids the string stands for; a malformed string stands for none. */
    ghost function Members(): set<nat> {
      if WellFormed() then Interval(Low(), High() + 1) else {}
    }
  }

  /** The id string printed for the ids low..high. */
  function Slice(low: nat, high: nat): Ids
    requires low <= high
  {
    if low == high then One(low) else Span(low, high)
  }

  // ---------- words as sets of ids ----------

  /** The word has a bit exactly for every member of the set. */
  ghost predicate Represents(word: nat, ids: set<nat>) {
    forall i: nat :: Bit(word, i) <==> i in ids
  }

  lemma RepresentsUnion(a: nat, b: nat, s: set<nat>, t: set<nat>)
    requires Represents(a, s) && Represents(b, t)
    ensures Represents(Or(a, b), s + t)
  {
    forall i: nat ensures Bit(Or(a, b), i) <==> i in s + t { BitOfOr(a, b, i); }
  }

  lemma RepresentsIntersection(a: nat, b: nat, s: set<nat>, t: set<nat>)
    requires Represents(a, s) && Represents(b, t)
    ensures Represents(And(a, b), s * t)
    ensures And(a, b) == 0 <==> s * t == {}
    ensures And(a, b) == a <==> s <= t
  {
    forall i: nat ensures Bit(And(a, b), i) <==> i in s * t { BitOfAnd(a, b, i); }
    if s * t == {} {
      forall i: nat ensures Bit(And(a, b), i) <==> Bit(0, i) { BitOfZero(i); }
      SameBitsSameWord(And(a, b), 0);
    } else {
      var i :| i in s * t;
      BitOfZero(i);
      assert Bit(And(a, b), i);
    }
    if s <= t {
      assert s * t == s;
      SameBitsSameWord(And(a, b), a);
    } else {
      var i :| i in s && i !in t;
      assert Bit(a, i) && !Bit(And(a, b), i);
    }
  }

  /** Exclusive-or removes a subset. */
  lemma RepresentsDifference(a: nat, b: nat, s: set<nat>, t: set<nat>)
    requires Represents(a, s) && Represents(b, t) && t <= s
    ensures Represents(Xor(a, b), s - t)
  {
    forall i: nat ensures Bit(Xor(a, b), i) <==> i in s - t { BitOfXor(a, b, i); }
  }

  // ---------- the three operations the managers share ----------

  method GenerateBitMapFromIds(ids: Ids) returns (map_: nat)
    ensures Represents(map_, ids.Members())
  {
    map_ := 0;
    if !ids.WellFormed() {
      forall i: nat ensures !Bit(0, i) { BitOfZero(i); }
      return;
    }
    forall i: nat ensures !Bit(map_, i) { BitOfZero(i); }
    var id := ids.Low();
    while id <= ids.High()
      invariant ids.Low() <= id <= ids.High() + 1
      invariant Represents(map_, Interval(ids.Low(), id))
    {
      ghost var before := Interval(ids.Low(), id);
      forall i: nat ensures Bit(ShiftOne(id), i) <==> i in {id} { BitOfShift(id, i); }
      RepresentsUnion(map_, ShiftOne(id), before, {id});
      map_ := Or(map_, ShiftOne(id));
      id := id + 1;
      assert before + {id - 1} == Interval(ids.Low(), id);
    }
    assert ids.Members() == Interval(ids.Low(), id);
  }

  /** low..high is a maximal run of the set. */
  ghost predicate IsRun(ids: set<nat>, low: nat, high: nat) {
    && low <= high
    && (forall i: nat | low <= i <= high :: i in ids)
    && (low > 0 ==> low - 1 !in ids)
    && high + 1 !in ids
  }

  /** The id strings of the maximal runs that end below the bound. */
  ghost function Runs(ids: set<nat>, bound: nat): set<Ids> {
    set low: nat, high: nat | low <= high < bound && IsRun(ids, low, high) :: Slice(low, high)
  }

  method GenerateIdListFromMap(map_: nat, bound: nat, ghost ids: set<nat>) returns (slices: set<Ids>)
    requires Represents(map_, ids)
    ensures slices == Runs(ids, bound)
  {
    slices := {};
    var mask := 1;
    var started, lower := false, 0;
    var id := 0;
    while id <= bound
      invariant 0 <= id <= bound + 1
      invariant mask == ShiftOne(id)
      invariant started <==> id > 0 && id - 1 in ids
      invariant started ==>
        lower < id && (forall i: nat | lower <= i < id :: i in ids) && (lower > 0 ==> lower - 1 !in ids)
      invariant slices == if id == 0 then {} else Runs(ids, id - 1)
    {
      MaskTest(map_, id);
      ghost var before := slices;
      if And(map_, mask) != 0 {
        if !started {
          started := true;
          lower := id;
        }
        NoRunEndsAt(ids, id);
      } else if started {
        started := false;
        slices := slices + {Slice(lower, id - 1)};
        OneRunEndsAt(ids, lower, id);
      } else {
        NoRunEndsAt(ids, id);
      }
      mask := mask * 2;
      id := id + 1;
    }
  }

  /** Extending the bound by one position that ends no run adds no slice. */
  lemma NoRunEndsAt(ids: set<nat>, id: nat)
    requires id in ids || (id > 0 ==> id - 1 !in ids)
    ensures Runs(ids, id) == if id == 0 then {} else Runs(ids, id - 1)
  {
    forall low: nat, high: nat | low <= high < id && IsRun(ids, low, high)
      ensures high < id - 1
    {
      assert high in ids;
    }
  }

  lemma OneRunEndsAt(ids: set<nat>, low: nat, id: nat)
    requires low < id && IsRun(ids, low, id - 1)
    ensures Runs(ids, id) == Runs(ids, id - 1) + {Slice(low, id - 1)}
  {
    forall l: nat, h: nat | l <= h < id && IsRun(ids, l, h)
      ensures Slice(l, h) in Runs(ids, id - 1) + {Slice(low, id - 1)}
    {
      if h == id - 1 && l != low {
        assert false;
      }
    }
  }

  /** No gap between two members below the bound. */
  ghost predicate Continuous(ids: set<nat>, bound: nat) {
    forall i: nat, j: nat, k: nat | i < j < k < bound && i in ids && k in ids :: j in ids
  }

  method IsItemIdsMapContinuous(map_: nat, bound: nat, ghost ids: set<nat>) returns (continuous: bool)
    requires Represents(map_, ids)
    ensures continuous <==> Continuous(ids, bound)
  {
    var mask := 1;
    var hasValidBits, hasZeroAfterValidBit := false, false;
    ghost var first, gap: nat := 0, 0;
    var id := 0;
    while id < bound
      invariant 0 <= id <= bound
      invariant mask == ShiftOne(id)
      invariant hasValidBits <==> exists i: nat :: i < id && i in ids
      invariant hasValidBits ==> first < id && first in ids
      invariant hasZeroAfterValidBit ==> hasValidBits && first < gap < id && gap !in ids
      invariant !hasZeroAfterValidBit ==> forall i: nat, j: nat | i < j < id && i in ids :: j in ids
      invariant hasZeroAfterValidBit ==> forall i: nat | gap <= i < id :: i !in ids
      invariant Continuous(ids, id)
    {
      MaskTest(map_, id);
      if And(map_, mask) != 0 {
        if !hasValidBits { hasValidBits := true; first := id; }
        if hasZeroAfterValidBit {
          assert first < gap < id && first in ids && id in ids && gap !in ids;
          return false;
        }
      } else if hasValidBits && !hasZeroAfterValidBit {
        hasZeroAfterValidBit := true;
        gap := id;
      }
      mask := mask * 2;
      id := id + 1;
    }
    return true;
  }
}
