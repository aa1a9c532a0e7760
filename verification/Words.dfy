/**
  Machine words and the bit operations on them.  A word is modelled by the
  natural number it holds.
 */
module Words {

  /** Whether bit i of the word is set; bit 0 is the least significant one. */
  ghost predicate Bit(word: nat, i: nat) {
    if i == 0 then word % 2 == 1 else Bit(word / 2, i - 1)
  }

  function ShiftOne(n: nat): (mask: nat)
    ensures mask > 0
  {
    if n == 0 then 1 else 2 * ShiftOne(n - 1)
  }

  function And(a: nat, b: nat): nat
    decreases a + b
  {
    if a == 0 || b == 0 then 0 else (a % 2) * (b % 2) + 2 * And(a / 2, b / 2)
  }

  function Or(a: nat, b: nat): nat
    decreases a + b
  {
    if a == 0 then b else if b == 0 then a
    else (if a % 2 == 1 || b % 2 == 1 then 1 else 0) + 2 * Or(a / 2, b / 2)
  }

  function Xor(a: nat, b: nat): nat
    decreases a + b
  {
    if a == 0 && b == 0 then 0
    else (if a % 2 == b % 2 then 0 else 1) + 2 * Xor(a / 2, b / 2)
  }

  lemma {:induction false} BitOfZero(i: nat)
    ensures !Bit(0, i)
  {
    if i > 0 { BitOfZero(i - 1); }
  }

  lemma {:induction false} BitOfAnd(a: nat, b: nat, i: nat)
    ensures Bit(And(a, b), i) <==> Bit(a, i) && Bit(b, i)
  {
    BitOfZero(i);
    if a != 0 && b != 0 && i > 0 {
      BitOfAnd(a / 2, b / 2, i - 1);
      assert And(a, b) / 2 == And(a / 2, b / 2);
    }
  }

  lemma {:induction false} BitOfOr(a: nat, b: nat, i: nat)
    ensures Bit(Or(a, b), i) <==> Bit(a, i) || Bit(b, i)
  {
    BitOfZero(i);
    if a != 0 && b != 0 && i > 0 {
      BitOfOr(a / 2, b / 2, i - 1);
      assert Or(a, b) / 2 == Or(a / 2, b / 2);
    }
  }

  lemma XorParts(a: nat, b: nat)
    ensures Xor(a, b) % 2 == if a % 2 == b % 2 then 0 else 1
    ensures Xor(a, b) / 2 == Xor(a / 2, b / 2)
  {
    if a != 0 || b != 0 {
      LowBit(Xor(a / 2, b / 2), if a % 2 == b % 2 then 0 else 1);
    }
  }

  lemma LowBit(word: nat, low: nat)
    requires low < 2
    ensures (low + 2 * word) % 2 == low && (low + 2 * word) / 2 == word
  {
  }

  lemma {:induction false} BitOfXor(a: nat, b: nat, i: nat)
    ensures Bit(Xor(a, b), i) <==> Bit(a, i) != Bit(b, i)
  {
    XorParts(a, b);
    if i > 0 {
      BitOfXor(a / 2, b / 2, i - 1);
    }
  }

  lemma {:induction false} BitOfShift(n: nat, i: nat)
    ensures Bit(ShiftOne(n), i) <==> i == n
  {
    if n == 0 {
      if i > 0 { BitOfZero(i - 1); }
    } else if i > 0 {
      BitOfShift(n - 1, i - 1);
    }
  }

  /** (1 << n) - 1 has exactly the bits below n. */
  lemma {:induction false} BitOfAllOnes(n: nat, i: nat)
    ensures Bit(ShiftOne(n) - 1, i) <==> i < n
  {
    if n == 0 {
      BitOfZero(i);
    } else if i > 0 {
      BitOfAllOnes(n - 1, i - 1);
      assert (ShiftOne(n) - 1) / 2 == ShiftOne(n - 1) - 1;
    }
  }

  /** Words are determined by their bits. */
  lemma {:induction false} SameBitsSameWord(a: nat, b: nat)
    requires forall i: nat :: Bit(a, i) <==> Bit(b, i)
    ensures a == b
    decreases a + b
  {
    assert Bit(a, 0) <==> Bit(b, 0);
    if a != 0 || b != 0 {
      forall i: nat ensures Bit(a / 2, i) <==> Bit(b / 2, i) {
        assert Bit(a, i + 1) <==> Bit(b, i + 1);
      }
      SameBitsSameWord(a / 2, b / 2);
    }
  }

  lemma DivideTwice(a: nat, s: nat)
    requires s > 0
    ensures a / 2 / s == a / (2 * s)
  {
    var x, q, r := a / 2, a / (2 * s), a % (2 * s);
    assert x == q * s + r / 2;
    MultipleIsFar(x / s - q, s);
    assert (x / s - q) * s == r / 2 - x % s;
  }

  lemma MultipleIsFar(d: int, s: nat)
    ensures d == 0 || d * s >= s || d * s <= 0 - s
  {
    if d > 0 { assert d * s >= s; } else if d < 0 { assert d * s <= 0 - s; }
  }

  lemma ShiftByEight(n: nat)
    ensures ShiftOne(n + 8) == 256 * ShiftOne(n)
  {
    assert ShiftOne(n + 4) == 4 * ShiftOne(n + 2) == 16 * ShiftOne(n);
    assert ShiftOne(n + 8) == 4 * ShiftOne(n + 6) == 16 * ShiftOne(n + 4);
  }

  /** `m` ones above `k` zeros. */
  function HighMask(k: nat, m: nat): nat {
    if k == 0 then ShiftOne(m) - 1 else 2 * HighMask(k - 1, m)
  }

  /** Words that agree under such a mask agree from bit k on. */
  lemma {:induction false} SameUnderHighMask(a: nat, b: nat, k: nat, m: nat)
    requires a < ShiftOne(k + m) && b < ShiftOne(k + m)
    ensures And(a, HighMask(k, m)) == And(b, HighMask(k, m)) <==> a / ShiftOne(k) == b / ShiftOne(k)
  {
    if k > 0 {
      AndDoubled(a, HighMask(k - 1, m));
      AndDoubled(b, HighMask(k - 1, m));
      DivideTwice(a, ShiftOne(k - 1));
      DivideTwice(b, ShiftOne(k - 1));
      SameUnderHighMask(a / 2, b / 2, k - 1, m);
    } else {
      OnesKeep(a, m);
      OnesKeep(b, m);
    }
  }

  lemma AndDoubled(a: nat, b: nat)
    ensures And(a, 2 * b) == 2 * And(a / 2, b)
  {
  }

  lemma {:induction false} OnesKeep(a: nat, m: nat)
    requires a < ShiftOne(m)
    ensures And(a, ShiftOne(m) - 1) == a
  {
    if m > 0 {
      OnesKeep(a / 2, m - 1);
      assert (ShiftOne(m) - 1) / 2 == ShiftOne(m - 1) - 1;
    }
  }

  /** The mask test the loops use is the bit test. */
  lemma MaskTest(word: nat, n: nat)
    ensures And(word, ShiftOne(n)) != 0 <==> Bit(word, n)
  {
    BitOfAnd(word, ShiftOne(n), n);
    BitOfShift(n, n);
    BitOfZero(n);
    if !Bit(word, n) {
      forall i: nat ensures Bit(And(word, ShiftOne(n)), i) <==> Bit(0, i) {
        BitOfAnd(word, ShiftOne(n), i);
        BitOfShift(n, i);
        BitOfZero(i);
      }
      SameBitsSameWord(And(word, ShiftOne(n)), 0);
    }
  }

  // ---------- exclusive or ----------

  /** Applying a mask twice restores the word. */
  lemma XorUndoes(a: nat, b: nat)
    ensures Xor(Xor(a, b), b) == a
  {
    forall i: nat ensures Bit(Xor(Xor(a, b), b), i) <==> Bit(a, i) {
      BitOfXor(Xor(a, b), b, i);
      BitOfXor(a, b, i);
    }
    SameBitsSameWord(Xor(Xor(a, b), b), a);
  }

  lemma {:induction false} XorBelow(a: nat, b: nat, n: nat)
    requires a < ShiftOne(n) && b < ShiftOne(n)
    ensures Xor(a, b) < ShiftOne(n)
    decreases a + b
  {
    if a != 0 || b != 0 {
      XorBelow(a / 2, b / 2, n - 1);
    }
  }
}
