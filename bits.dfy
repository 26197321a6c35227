/**
 * Word-level bit primitives on a 64-bit free mask: test a bit, clear a bit,
 * set a bit, count trailing zeros and population count. The slab block keeps
 * one such word per block; these are the operations it relies on.
 *
 * Bit positions are `bv6` values, so that every position is in range by its
 * type and every statement here stays inside bit-vector arithmetic. The
 * facts about a single position are proved by the bit-vector solver; the
 * facts about whole words are proved by induction over positions and only
 * combine those single-position facts.
 */
module Bits {

  /** All 64 bits set: UINT64_MAX. */
  const ALL: bv64 := 0xFFFF_FFFF_FFFF_FFFF

  /** `get`: the value (0 or 1) of bit `i` of `w`. */
  function Get(w: bv64, i: bv6): (r: bv64)
    ensures r == 0 || r == 1
  {
    (w >> i) & 1
  }

  /** `set_zero`: `w` with bit `i` cleared; no other bit changes (ClearKeepsOthers). */
  function SetZero(w: bv64, i: bv6): (r: bv64)
    ensures Get(r, i) == 0
  {
    w & !(1 << i)
  }

  /** `set_one`: `w` with bit `i` set; no other bit changes (SetKeepsOthers). */
  function SetOne(w: bv64, i: bv6): (r: bv64)
    ensures Get(r, i) == 1
  {
    w | (1 << i)
  }

  /** 1 when bit `k` of `w` is set, 0 otherwise. */
  function Bit(w: bv64, k: bv6): (n: nat)
    ensures n <= 1 && (n == 1 <==> Get(w, k) == 1)
  {
    if Get(w, k) == 1 then 1 else 0
  }

  /** The number of set bits of `w` at positions `k` up to 63. */
  function PopFrom(w: bv64, k: bv6): (n: nat)
    decreases 63 - k
  {
    if k == 63 then Bit(w, 63) else Bit(w, k) + PopFrom(w, k + 1)
  }

  /** `popcnt64`: the number of set bits of `w`, at most 64. */
  function Popcnt64(w: bv64): (n: nat)
    ensures n <= 64
  {
    PopFromBound(w, 0);
    PopFrom(w, 0)
  }

  /**
   * The lowest set bit of `w` at position `k` or above; there is one because
   * the bits from `k` up are not all clear.
   */
  function CtzFrom(w: bv64, k: bv6): (r: bv6)
    requires PopFrom(w, k) > 0
    ensures k <= r && Bit(w, r) == 1
    decreases 63 - k
  {
    if Bit(w, k) == 1 then k else CtzFrom(w, k + 1)
  }

  lemma {:induction false} CtzFromLowest(w: bv64, k: bv6, j: bv6)
    requires PopFrom(w, k) > 0
    requires k <= j < CtzFrom(w, k)
    ensures Bit(w, j) == 0
    decreases 63 - k
  {
    if j != k {
      CtzFromLowest(w, k + 1, j);
    }
  }

  /** `ctz64`: the position of the lowest set bit of a non-zero word. */
  function Ctz64(w: bv64): (r: bv6)
    requires w != 0
    ensures Bit(w, r) == 1
    ensures forall j: bv6 :: j < r ==> Bit(w, j) == 0
  {
    PopcntZero(w);
    forall j: bv6 | j < CtzFrom(w, 0) ensures Bit(w, j) == 0 {
      CtzFromLowest(w, 0, j);
    }
    CtzFrom(w, 0)
  }

  // ---------------------------------------------------------------------------
  // Facts about one or two positions, each proved by the bit-vector solver alone

  /** Clearing bit `i` leaves every other bit as it was. */
  lemma ClearKeepsBit(w: bv64, i: bv6, j: bv6)
    requires j != i
    ensures Get(SetZero(w, i), j) == Get(w, j)
  {
  }

  /** Clearing bit `i` changes no other bit. */
  lemma ClearKeepsOthers(w: bv64, i: bv6)
    ensures forall j: bv6 :: j != i ==> Get(SetZero(w, i), j) == Get(w, j)
  {
    forall j: bv6 | j != i
      ensures Get(SetZero(w, i), j) == Get(w, j)
    {
      ClearKeepsBit(w, i, j);
    }
  }

  /** Setting bit `i` leaves every other bit as it was. */
  lemma SetKeepsBit(w: bv64, i: bv6, j: bv6)
    requires j != i
    ensures Get(SetOne(w, i), j) == Get(w, j)
  {
  }

  /** Setting bit `i` changes no other bit. */
  lemma SetKeepsOthers(w: bv64, i: bv6)
    ensures forall j: bv6 :: j != i ==> Get(SetOne(w, i), j) == Get(w, j)
  {
    forall j: bv6 | j != i
      ensures Get(SetOne(w, i), j) == Get(w, j)
    {
      SetKeepsBit(w, i, j);
    }
  }

  /** Every bit of UINT64_MAX is set. */
  lemma AllBit(i: bv6)
    ensures Get(ALL, i) == 1
  {
  }

  lemma ShiftStepZero(w: bv64, k: bv6)
    requires k < 63 && w >> k == 0
    ensures Get(w, k) == 0 && w >> (k + 1) == 0
  {
  }

  lemma ShiftStepNonZero(w: bv64, k: bv6)
    requires k < 63 && Get(w, k) == 0 && w >> (k + 1) == 0
    ensures w >> k == 0
  {
  }

  lemma ShiftTop(w: bv64)
    ensures w >> 63 == Get(w, 63)
  {
  }

  lemma ComplementBit(w: bv64, k: bv6)
    ensures Get(!w, k) == 1 - Get(w, k)
  {
  }

  lemma BitSetZero(w: bv64, i: bv6, k: bv6)
    requires Get(w, i) == 1
    ensures Bit(SetZero(w, i), k) + (if k == i then 1 else 0) == Bit(w, k)
  {
    if k != i { ClearKeepsBit(w, i, k); }
  }

  lemma BitSetOne(w: bv64, i: bv6, k: bv6)
    requires Get(w, i) == 0
    ensures Bit(SetOne(w, i), k) == Bit(w, k) + (if k == i then 1 else 0)
  {
    if k != i { SetKeepsBit(w, i, k); }
  }

  // ---------------------------------------------------------------------------
  // Population count

  lemma {:induction false} PopFromBound(w: bv64, k: bv6)
    ensures PopFrom(w, k) <= 64 - k as int
    decreases 63 - k
  {
    if k < 63 {
      PopFromBound(w, k + 1);
    }
  }

  lemma {:induction false} ClearFromHasNoBits(w: bv64, k: bv6)
    requires w >> k == 0
    ensures PopFrom(w, k) == 0
    decreases 63 - k
  {
    if k < 63 {
      ShiftStepZero(w, k);
      ClearFromHasNoBits(w, k + 1);
    } else {
      ShiftTop(w);
    }
  }

  lemma {:induction false} NoBitsIsClearFrom(w: bv64, k: bv6)
    requires PopFrom(w, k) == 0
    ensures w >> k == 0
    decreases 63 - k
  {
    if k < 63 {
      NoBitsIsClearFrom(w, k + 1);
      ShiftStepNonZero(w, k);
    } else {
      ShiftTop(w);
    }
  }

  /** A word has no set bit exactly when it is zero. */
  lemma PopcntZero(w: bv64)
    ensures Popcnt64(w) == 0 <==> w == 0
  {
    if w == 0 { ClearFromHasNoBits(w, 0); } else if Popcnt64(w) == 0 { NoBitsIsClearFrom(w, 0); }
  }

  lemma {:induction false} PopFromComplement(w: bv64, k: bv6)
    ensures PopFrom(w, k) + PopFrom(!w, k) == 64 - k as int
    decreases 63 - k
  {
    ComplementBit(w, k);
    if k < 63 {
      PopFromComplement(w, k + 1);
    }
  }

  /** Every position is set either in `w` or in its complement. */
  lemma PopcntComplement(w: bv64)
    ensures Popcnt64(w) + Popcnt64(!w) == 64
  {
    PopFromComplement(w, 0);
  }

  /** A word has all 64 bits set exactly when it is UINT64_MAX. */
  lemma PopcntFull(w: bv64)
    ensures Popcnt64(w) == 64 <==> w == ALL
  {
    PopcntComplement(w);
    PopcntZero(!w);
  }

  /** `v` is `w` with bit `i` cleared, counted from position `k` up. */
  lemma {:induction false} PopFromCleared(w: bv64, v: bv64, i: bv6, k: bv6)
    requires forall j: bv6 :: Bit(v, j) + (if j == i then 1 else 0) == Bit(w, j)
    ensures PopFrom(v, k) + (if k <= i then 1 else 0) == PopFrom(w, k)
    decreases 63 - k
  {
    if k < 63 {
      PopFromCleared(w, v, i, k + 1);
    }
  }

  /** Clearing a set bit lowers the population count by one. */
  lemma PopcntSetZero(w: bv64, i: bv6)
    requires Get(w, i) == 1
    ensures Popcnt64(SetZero(w, i)) + 1 == Popcnt64(w)
  {
    forall j: bv6
      ensures Bit(SetZero(w, i), j) + (if j == i then 1 else 0) == Bit(w, j)
    {
      BitSetZero(w, i, j);
    }
    PopFromCleared(w, SetZero(w, i), i, 0);
  }

  /** `v` is `w` with clear bit `i` set, counted from position `k` up. */
  lemma {:induction false} PopFromRaised(w: bv64, v: bv64, i: bv6, k: bv6)
    requires forall j: bv6 :: Bit(v, j) == Bit(w, j) + (if j == i then 1 else 0)
    ensures PopFrom(v, k) == PopFrom(w, k) + (if k <= i then 1 else 0)
    decreases 63 - k
  {
    if k < 63 {
      PopFromRaised(w, v, i, k + 1);
    }
  }

  /** Setting a clear bit raises the population count by one. */
  lemma PopcntSetOne(w: bv64, i: bv6)
    requires Get(w, i) == 0
    ensures Popcnt64(SetOne(w, i)) == Popcnt64(w) + 1
  {
    forall j: bv6
      ensures Bit(SetOne(w, i), j) == Bit(w, j) + (if j == i then 1 else 0)
    {
      BitSetOne(w, i, j);
    }
    PopFromRaised(w, SetOne(w, i), i, 0);
  }
}
