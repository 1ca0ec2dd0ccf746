/** Machine-word masks as natural numbers, with the bitwise operations the
    cron engine uses defined digit by binary digit. */
module Bits {

  /** `1 << k`. */
  function Pow2(k: nat): (r: nat)
    ensures r > 0
  {
    if k == 0 then 1 else 2 * Pow2(k - 1)
  }

  /** Bit `i` of `m`. */
  predicate Bit(m: nat, i: nat) {
    if i == 0 then m % 2 == 1 else Bit(m / 2, i - 1)
  }

  ghost predicate HasBit(m: nat) {
    exists i: nat :: Bit(m, i)
  }

  ghost predicate HasBitBelow(m: nat, k: nat) {
    exists i: nat :: i < k && Bit(m, i)
  }

  function And(a: nat, b: nat): nat {
    if a == 0 || b == 0 then 0 else 2 * And(a / 2, b / 2) + (a % 2) * (b % 2)
  }

  function Or(a: nat, b: nat): nat {
    if a == 0 then b else 2 * Or(a / 2, b / 2) + (if a % 2 == 0 && b % 2 == 0 then 0 else 1)
  }

  function ShiftRight(m: nat, k: nat): nat {
    if k == 0 then m else ShiftRight(m / 2, k - 1)
  }

  function TrailingZeros(m: nat): nat
    requires m > 0
  {
    if m % 2 == 1 then 0 else 1 + TrailingZeros(m / 2)
  }

  lemma {:induction false} BitOfZero(i: nat)
    ensures !Bit(0, i)
  {
    if i > 0 { BitOfZero(i - 1); }
  }

  lemma {:induction false} BitOfAnd(a: nat, b: nat, i: nat)
    ensures Bit(And(a, b), i) <==> Bit(a, i) && Bit(b, i)
  {
    if a == 0 || b == 0 {
      BitOfZero(i);
    } else {
      assert And(a, b) / 2 == And(a / 2, b / 2);
      if i > 0 { BitOfAnd(a / 2, b / 2, i - 1); }
    }
  }

  lemma {:induction false} BitOfOr(a: nat, b: nat, i: nat)
    ensures Bit(Or(a, b), i) <==> Bit(a, i) || Bit(b, i)
  {
    if a == 0 {
      BitOfZero(i);
    } else {
      assert Or(a, b) / 2 == Or(a / 2, b / 2);
      if i > 0 { BitOfOr(a / 2, b / 2, i - 1); }
    }
  }

  lemma {:induction false} BitOfPow2(k: nat, i: nat)
    ensures Bit(Pow2(k), i) <==> i == k
  {
    if k == 0 {
      if i > 0 { BitOfZero(i - 1); }
    } else {
      assert Pow2(k) / 2 == Pow2(k - 1);
      if i > 0 { BitOfPow2(k - 1, i - 1); }
    }
  }

  /** The low mask `(1 << k) - 1`. */
  lemma {:induction false} BitOfLowMask(k: nat, i: nat)
    ensures Bit(Pow2(k) - 1, i) <==> i < k
  {
    if k == 0 {
      BitOfZero(i);
    } else {
      assert (Pow2(k) - 1) / 2 == Pow2(k - 1) - 1;
      if i > 0 { BitOfLowMask(k - 1, i - 1); }
    }
  }

  lemma {:induction false} BitOfShiftRight(m: nat, k: nat, i: nat)
    ensures Bit(ShiftRight(m, k), i) == Bit(m, k + i)
  {
    if k > 0 { BitOfShiftRight(m / 2, k - 1, i); }
  }

  /** The lowest set bit of a non-zero word. */
  lemma {:induction false} TrailingZerosIsLowest(m: nat)
    requires m > 0
    ensures Bit(m, TrailingZeros(m))
    ensures forall i :: 0 <= i < TrailingZeros(m) ==> !Bit(m, i)
  {
    if m % 2 == 0 {
      TrailingZerosIsLowest(m / 2);
      forall i | 0 <= i < TrailingZeros(m)
        ensures !Bit(m, i)
      {
        if i > 0 { assert !Bit(m / 2, i - 1); }
      }
    }
  }

  /** A word is zero exactly when it has no bit. */
  lemma NonZeroHasBit(m: nat)
    ensures m != 0 <==> HasBit(m)
  {
    if m != 0 {
      TrailingZerosIsLowest(m);
      var i: nat := TrailingZeros(m);
      assert Bit(m, i);
    } else {
      forall i: nat ensures !Bit(m, i) { BitOfZero(i); }
    }
  }

  /** `m & (1 << k) != 0`. */
  lemma TestBit(m: nat, k: nat)
    ensures And(m, Pow2(k)) != 0 <==> Bit(m, k)
  {
    var a := And(m, Pow2(k));
    NonZeroHasBit(a);
    forall i: nat
      ensures Bit(a, i) <==> i == k && Bit(m, k)
    {
      BitOfAnd(m, Pow2(k), i);
      BitOfPow2(k, i);
    }
  }

  /** `m & ((1 << k) - 1) != 0`. */
  lemma TestLowBits(m: nat, k: nat)
    ensures And(m, Pow2(k) - 1) != 0 <==> HasBitBelow(m, k)
  {
    var a := And(m, Pow2(k) - 1);
    NonZeroHasBit(a);
    forall i: nat
      ensures Bit(a, i) <==> i < k && Bit(m, i)
    {
      BitOfAnd(m, Pow2(k) - 1, i);
      BitOfLowMask(k, i);
    }
    if a != 0 {
      var i: nat :| Bit(a, i);
      assert i < k && Bit(m, i);
    }
  }

  /** `m | (1 << k)`. */
  lemma SetBit(m: nat, k: nat, i: nat)
    ensures Bit(Or(m, Pow2(k)), i) <==> i == k || Bit(m, i)
  {
    BitOfOr(m, Pow2(k), i);
    BitOfPow2(k, i);
  }

  /** A word whose bits all lie below `width` fits in `width` bits. */
  lemma {:induction false} FitsWidth(m: nat, width: nat)
    requires forall i: nat :: Bit(m, i) ==> i < width
    ensures m < Pow2(width)
  {
    NonZeroHasBit(m);
    if width > 0 {
      forall i: nat
        ensures Bit(m / 2, i) ==> i < width - 1
      {
        assert Bit(m / 2, i) == Bit(m, i + 1);
      }
      FitsWidth(m / 2, width - 1);
    }
  }

  /** A mask is determined by its bits. */
  lemma {:induction false} SameBits(a: nat, b: nat)
    requires forall i: nat :: Bit(a, i) <==> Bit(b, i)
    ensures a == b
    decreases a + b
  {
    NonZeroHasBit(a);
    NonZeroHasBit(b);
    if a != 0 || b != 0 {
      assert Bit(a, 0) <==> Bit(b, 0);
      forall i: nat
        ensures Bit(a / 2, i) <==> Bit(b / 2, i)
      {
        assert Bit(a, i + 1) <==> Bit(b, i + 1);
      }
      SameBits(a / 2, b / 2);
    }
  }
}
