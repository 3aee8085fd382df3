/** The power-of-two helpers that both heaps share.  The bit tricks are written on the
    binary digits of a number and proved equal to the arithmetic they stand for. */
module Alignment {
  import opened Machine

  /** The largest alignment `NormaliseAlignment` can return. */
  const MAX_ALIGNMENT: nat := 0x4000_0000

  function BitAnd(x: nat, y: nat): nat
    decreases x
  {
    if x == 0 || y == 0 then 0
    else 2 * BitAnd(x / 2, y / 2) + (if x % 2 == 1 && y % 2 == 1 then 1 else 0)
  }

  function Not64(x: nat): nat { U64(-1 - x) }

  predicate IsPow2(v: nat) { v != 0 && BitAnd(v, v - 1) == 0 }

  function AlignUp(v: nat, a: nat): nat { BitAnd(U64(v + a - 1), Not64(U32(a - 1))) }

  function AlignDown(v: nat, a: nat): nat { BitAnd(v, Not64(U32(a - 1))) }

  function NormaliseAlignment(alignment: int): nat
  {
    var a := U32(if alignment < 0 then -alignment else alignment);
    if IsPow2(a) then a else 4
  }

  // ---- the same notions by repeated halving ----

  predicate PowerOfTwo(v: nat) { v == 1 || (v > 1 && v % 2 == 0 && PowerOfTwo(v / 2)) }

  predicate IsAlignment(a: nat) { PowerOfTwo(a) && a <= MAX_ALIGNMENT }

  /** `m` is divisible by the power of two `a` (see `AlignedIsDivisible`). */
  predicate Aligned(m: nat, a: nat) { a <= 1 || (m % 2 == 0 && Aligned(m / 2, a / 2)) }

  function RoundDown(v: nat, a: nat): nat { if a <= 1 then v else 2 * RoundDown(v / 2, a / 2) }

  lemma HalfProduct(q: nat, a: nat)
    requires a % 2 == 0
    ensures q * a % 2 == 0 && q * a / 2 == q * (a / 2)
  {
    var h := a / 2;
    assert a == h + h;
    assert q * a == q * h + q * h;
  }

  lemma {:induction false} AlignedIsDivisible(m: nat, a: nat)
    requires PowerOfTwo(a)
    ensures Aligned(m, a) <==> exists q: nat :: m == q * a
  {
    if a == 1 {
      assert m == m * a;
    } else {
      AlignedIsDivisible(m / 2, a / 2);
      if q: nat :| m == q * a { HalfProduct(q, a); }
      if Aligned(m, a) {
        var q: nat :| m / 2 == q * (a / 2);
        HalfProduct(q, a);
      }
    }
  }

  lemma {:induction false} BitAndSelf(x: nat)
    ensures BitAnd(x, x) == x
  {
    if x != 0 { BitAndSelf(x / 2); }
  }

  lemma {:induction false} IsPow2Meaning(v: nat)
    ensures IsPow2(v) <==> PowerOfTwo(v)
  {
    if v > 1 {
      if v % 2 == 1 {
        assert (v - 1) / 2 == v / 2 != 0;
        BitAndSelf(v / 2);
      } else {
        assert (v - 1) / 2 == v / 2 - 1;
        IsPow2Meaning(v / 2);
      }
    }
  }

  lemma {:induction false} NextPowerApart(a: nat, b: nat)
    requires PowerOfTwo(a) && PowerOfTwo(b) && a < 2 * b
    ensures a <= b
  {
    if a > 1 && b > 1 { NextPowerApart(a / 2, b / 2); }
  }

  lemma Doubled(v: nat, w: nat)
    requires PowerOfTwo(v) && w == v + v
    ensures PowerOfTwo(w)
  {
  }

  lemma Times256(v: nat)
    requires PowerOfTwo(v)
    ensures PowerOfTwo(0x100 * v)
  {
    Doubled(v, 2 * v);
    Doubled(2 * v, 4 * v);
    Doubled(4 * v, 8 * v);
    Doubled(8 * v, 0x10 * v);
    Doubled(0x10 * v, 0x20 * v);
    Doubled(0x20 * v, 0x40 * v);
    Doubled(0x40 * v, 0x80 * v);
    Doubled(0x80 * v, 0x100 * v);
  }

  lemma LargePowers()
    ensures PowerOfTwo(4) && PowerOfTwo(MAX_ALIGNMENT) && PowerOfTwo(TWO_64)
  {
    Times256(1);
    Times256(0x100);
    Times256(0x1_0000);
    Times256(0x40);
    Times256(0x4000);
    Times256(0x40_0000);
    Times256(0x100_0000);
    Times256(0x1_0000_0000);
    Times256(0x100_0000_0000);
    Times256(0x1_0000_0000_0000);
    Times256(0x100_0000_0000_0000);
  }

  lemma {:induction false} RoundDownSmall(v: nat, a: nat)
    requires PowerOfTwo(a) && v < a
    ensures RoundDown(v, a) == 0
  {
    if a > 1 { RoundDownSmall(v / 2, a / 2); }
  }

  /** Clearing the low bits with the mask W - a rounds a number below W down to a multiple of a. */
  lemma {:induction false} MaskRoundsDown(v: nat, w: nat, a: nat)
    requires PowerOfTwo(w) && PowerOfTwo(a) && a <= w && v < w
    ensures BitAnd(v, w - a) == RoundDown(v, a)
    decreases w
  {
    if w > 1 {
      var m := w - a;
      if a == 1 {
        MaskRoundsDown(v / 2, w / 2, 1);
        assert m / 2 == w / 2 - 1;
      } else {
        MaskRoundsDown(v / 2, w / 2, a / 2);
        assert m / 2 == w / 2 - a / 2;
        if m == 0 { RoundDownSmall(v, a); }
      }
    }
  }

  lemma {:induction false} RoundDownBounds(v: nat, a: nat)
    requires PowerOfTwo(a)
    ensures RoundDown(v, a) <= v < RoundDown(v, a) + a
    ensures Aligned(RoundDown(v, a), a)
  {
    if a > 1 { RoundDownBounds(v / 2, a / 2); }
  }

  lemma {:induction false} MultiplesApart(m: nat, n: nat, a: nat)
    requires PowerOfTwo(a) && Aligned(m, a) && Aligned(n, a) && m < n
    ensures m + a <= n
  {
    if a > 1 { MultiplesApart(m / 2, n / 2, a / 2); }
  }

  lemma {:induction false} AlignDownIsRoundDown(v: nat, a: nat)
    requires IsAlignment(a) && v < TWO_64
    ensures AlignDown(v, a) == RoundDown(v, a)
  {
    LargePowers();
    MaskRoundsDown(v, TWO_64, a);
  }

  // ---- what the helpers mean ----

  /** `AlignDown` is the greatest multiple of `a` not above `v`. */
  lemma {:induction false} AlignDownGreatest(v: nat, a: nat)
    requires IsAlignment(a) && v < TWO_64
    ensures AlignDown(v, a) <= v < AlignDown(v, a) + a
    ensures Aligned(AlignDown(v, a), a)
    ensures forall m: nat :: Aligned(m, a) && m <= v ==> m <= AlignDown(v, a)
  {
    AlignDownIsRoundDown(v, a);
    RoundDownBounds(v, a);
    forall m: nat | Aligned(m, a) && m <= v ensures m <= AlignDown(v, a) {
      if m > AlignDown(v, a) { MultiplesApart(AlignDown(v, a), m, a); }
    }
  }

  lemma WrapsOnce(x: nat)
    requires x < 2 * TWO_64
    ensures U64(x) == if x < TWO_64 then x else x - TWO_64
  {
  }

  lemma AlignUpIsAlignDown(v: nat, a: nat)
    requires a >= 1 && v + a - 1 < 2 * TWO_64
    ensures AlignUp(v, a) == AlignDown(if v + a - 1 < TWO_64 then v + a - 1 else v + a - 1 - TWO_64, a)
  {
    WrapsOnce(v + a - 1);
    var mask := Not64(U32(a - 1));
    assert AlignUp(v, a) == BitAnd(U64(v + a - 1), mask);
  }

  /** Below the top of the address space `AlignUp` is the least multiple of `a` not below `v`. */
  lemma {:induction false} AlignUpLeast(v: nat, a: nat)
    requires IsAlignment(a) && v + a - 1 < TWO_64
    ensures v <= AlignUp(v, a) < v + a
    ensures Aligned(AlignUp(v, a), a)
    ensures forall m: nat :: Aligned(m, a) && v <= m ==> AlignUp(v, a) <= m
  {
    AlignUpIsAlignDown(v, a);
    AlignDownGreatest(v + a - 1, a);
    forall m: nat | Aligned(m, a) && v <= m ensures AlignUp(v, a) <= m {
      if m < AlignUp(v, a) { MultiplesApart(m, AlignUp(v, a), a); }
    }
  }

  /** Rounding up stays at or above its argument exactly when the rounding sum does not wrap. */
  lemma {:induction false} AlignUpWrapsExactly(v: nat, a: nat)
    requires IsAlignment(a) && 0 < v < TWO_64
    ensures AlignUp(v, a) >= v <==> v + a - 1 < TWO_64
  {
    if v + a - 1 < TWO_64 {
      AlignUpLeast(v, a);
    } else {
      AlignUpIsAlignDown(v, a);
      AlignDownGreatest(v + a - 1 - TWO_64, a);
    }
  }

  lemma PowersStopAtMaximum(m: nat)
    requires PowerOfTwo(m) && m < 0x8000_0000
    ensures m <= MAX_ALIGNMENT
  {
    LargePowers();
    NextPowerApart(m, MAX_ALIGNMENT);
  }

  /** A power-of-two magnitude is used as it is; everything else, zero included, means 4. */
  lemma {:induction false} NormaliseAlignmentMeaning(alignment: int)
    requires -0x8000_0000 < alignment < 0x8000_0000
    ensures var m: nat := if alignment < 0 then -alignment else alignment;
            var a := NormaliseAlignment(alignment);
            IsAlignment(a) && a == if PowerOfTwo(m) then m else 4
  {
    var m: nat := if alignment < 0 then -alignment else alignment;
    assert NormaliseAlignment(alignment) == if IsPow2(m) then m else 4;
    IsPow2Meaning(m);
    if PowerOfTwo(m) { PowersStopAtMaximum(m); }
  }

  lemma MultipleOfFour(v: nat)
    ensures Aligned(v, 4) <==> v % 4 == 0
  {
    assert Aligned(v, 4) <==> v % 2 == 0 && Aligned(v / 2, 2);
    assert Aligned(v / 2, 2) <==> v / 2 % 2 == 0;
  }

  lemma NextMultipleOfFour(v: nat) returns (first: nat)
    requires v + 3 < TWO_64
    ensures first == AlignUp(v, 4) && v <= first < v + 4 && first % 4 == 0 && (v % 4 == 0 ==> first == v)
  {
    LargePowers();
    AlignUpLeast(v, 4);
    first := AlignUp(v, 4);
    MultipleOfFour(v);
    MultipleOfFour(first);
  }
}
