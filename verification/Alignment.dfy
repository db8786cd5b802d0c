/**
 The alignment macros of CommonLib/inc/base.h. They mask bits; for an alignment that is a power of two
 that is rounding to a multiple, and for no other.
 */
module Alignment {
  import opened Products

  /** x & ~m, bit by bit. */
  function ClearBits(x: nat, m: nat): nat {
    if x == 0 then 0
    else 2 * ClearBits(x / 2, m / 2) + if m % 2 == 0 then x % 2 else 0
  }

  /** AlignAddressUpper. */
  function AlignUp(x: nat, alignment: Positive): nat {
    ClearBits(x + alignment - 1, alignment - 1)
  }

  /** IsAddressAligned: x & (alignment - 1) is 0. */
  predicate IsAligned(x: nat, alignment: Positive) {
    ClearBits(x, alignment - 1) == x
  }

  predicate PowerOfTwo(n: nat) {
    n == 1 || (n > 0 && n % 2 == 0 && PowerOfTwo(n / 2))
  }

  /** Clearing bits takes away at most the mask. */
  lemma {:induction false} ClearBitsNear(x: nat, m: nat)
    ensures ClearBits(x, m) <= x <= ClearBits(x, m) + m
  {
    if x == 0 {
    } else {
      ClearBitsNear(x / 2, m / 2);
    }
  }

  /** Whatever the alignment, the result is at or above the address, by less than the alignment. */
  lemma AlignUpNear(x: nat, alignment: Positive)
    ensures x <= AlignUp(x, alignment) < x + alignment
  {
    ClearBitsNear(x + alignment - 1, alignment - 1);
  }

  lemma {:induction false} ClearNoBits(x: nat)
    ensures ClearBits(x, 0) == x
  {
    if x == 0 {
    } else {
      ClearNoBits(x / 2);
    }
  }

  lemma {:induction false} ClearsToMultiple(x: nat, a: Positive) returns (k: nat)
    requires PowerOfTwo(a)
    ensures ClearBits(x, a - 1) == Times(k, a)
  {
    hide Times;
    if a == 1 {
      ClearNoBits(x);
      TimesOne(x);
      k := x;
    } else {
      k := ClearsToMultiple(x / 2, a / 2);
      TimesDouble(k, a / 2);
      if x == 0 {
        TimesZero(a);
        k := 0;
      }
    }
  }

  lemma TimesDouble(k: nat, a: nat)
    ensures Times(k, 2 * a) == 2 * Times(k, a)
  {
    assert k * (2 * a) == 2 * (k * a);
  }

  /** For a power of two the mask takes the remainder away. */
  lemma MaskIsRemainder(x: nat, a: Positive)
    requires PowerOfTwo(a)
    ensures ClearBits(x, a - 1) == x - Remainder(x, a)
    ensures IsAligned(x, a) <==> Remainder(x, a) == 0
  {
    hide Times;
    hide Remainder;
    ClearBitsNear(x, a - 1);
    var k := ClearsToMultiple(x, a);
    DivideExactly(k, x - Times(k, a), a);
  }

  /** The least power of two that is not below n. */
  function PowerAbove(n: nat): nat {
    if n <= 1 then 1 else 2 * PowerAbove((n + 1) / 2)
  }

  lemma {:induction false} PowerAboveIsNear(n: Positive)
    ensures PowerOfTwo(PowerAbove(n)) && n <= PowerAbove(n) < 2 * n
    ensures PowerAbove(n) == n <==> PowerOfTwo(n)
  {
    if n == 1 {
    } else {
      PowerAboveIsNear((n + 1) / 2);
    }
  }

  /** A power of two keeps its one bit when a smaller mask is cleared from it. */
  lemma {:induction false} ClearsBelow(p: nat, m: nat)
    requires PowerOfTwo(p) && m < p
    ensures ClearBits(p, m) == p
  {
    if p == 1 {
      ClearNoBits(1);
    } else {
      ClearsBelow(p / 2, m / 2);
    }
  }

  /** AlignAddressUpper gives a multiple of the alignment for every address exactly for powers of two. */
  lemma AlignsExactly(alignment: Positive)
    ensures (forall x: nat :: Remainder(AlignUp(x, alignment), alignment) == 0) <==> PowerOfTwo(alignment)
  {
    hide Remainder;
    if PowerOfTwo(alignment) {
      forall x: nat
        ensures Remainder(AlignUp(x, alignment), alignment) == 0
      {
        Aligns(x, alignment);
      }
    } else {
      PowerAboveIsNear(alignment);
      var p := PowerAbove(alignment);
      ClearsBelow(p, alignment - 1);
      TimesOne(alignment);
      DivideExactly(1, p - alignment, alignment);
      assert Remainder(AlignUp(p - (alignment - 1), alignment), alignment) != 0;
    }
  }

  lemma Aligns(x: nat, alignment: Positive)
    requires PowerOfTwo(alignment)
    ensures Remainder(AlignUp(x, alignment), alignment) == 0
  {
    hide Times;
    hide Remainder;
    var k := ClearsToMultiple(x + alignment - 1, alignment);
    DivideExactly(k, 0, alignment);
  }
}
