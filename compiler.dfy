/**
 * Bit scans of compiler.c / compiler.h.  The GCC-builtin branch of compiler.h
 * is modelled by the pure functions CountLeadingZeros and CountTrailingZeros,
 * whose contracts are compiler.h's documented ones.  The portable branch
 * (compiled when the compiler is not GCC) is a binary search over halving
 * windows; it is modelled by the scan methods below, proved against the same
 * contracts.  The leading-zero scan as written slides its mask the wrong way
 * and is kept, with its miscount, beside the corrected scan.
 */
module Compiler {
  import opened Bits

  /** Some bit of `e` in the half-open range [lo, hi) is set. */
  ghost predicate HasBitIn(e: nat, lo: int, hi: int)
  {
    exists i: nat :: lo <= i < hi && Bit(e, i)
  }

  /** The documented contract of countTrailingZeros for a `w`-bit word. */
  ghost predicate IsTrailingZeroCount(e: nat, w: nat, r: nat)
  {
    if e == 0 then r == w
    else r < w && Bit(e, r) && forall i: nat :: i < r ==> !Bit(e, i)
  }

  /** The documented contract of countLeadingZeros for a `w`-bit word. */
  ghost predicate IsLeadingZeroCount(e: nat, w: nat, r: nat)
  {
    if e == 0 then r == w
    else r < w && Bit(e, w - 1 - r) && forall i: nat :: w - r <= i < w ==> !Bit(e, i)
  }

  /** Each contract pins the count down: two results meeting it are equal. */
  lemma ZeroCountsUnique(e: nat, w: nat, r1: nat, r2: nat)
    ensures IsTrailingZeroCount(e, w, r1) && IsTrailingZeroCount(e, w, r2) ==> r1 == r2
    ensures IsLeadingZeroCount(e, w, r1) && IsLeadingZeroCount(e, w, r2) ==> r1 == r2
  {
  }

  /** Index of the lowest set bit of a nonzero value. */
  function LowestSetBit(e: nat): (r: nat)
    requires e != 0
    ensures Bit(e, r) && forall i: nat :: i < r ==> !Bit(e, i)
    decreases e
  {
    if e % 2 == 1 then 0 else 1 + LowestSetBit(e / 2)
  }

  /**
   * The trailing-zero count documented for countTrailingZeros32/64
   * (compiler.h:70-71, 83-84), which the GCC branch
   * `v == 0 ? w : __builtin_ctz(v)` / `__builtin_ctzl(v)` meets.
   */
  function CountTrailingZeros(e: nat, w: nat): (r: nat)
    requires e < Pow2(w)
    ensures IsTrailingZeroCount(e, w, r)
  {
    if e == 0 then w
    else
      var t := LowestSetBit(e);
      if w <= t then BitAboveWidth(e, w, t); w else t
  }

  /**
   * The leading-zero count of a `w`-bit word, as documented for
   * countLeadingZeros32/64 (compiler.h:44-45, 57-58).  The GCC branch of
   * countLeadingZeros32 calls `__builtin_clzl` on an `unsigned long`, which
   * counts in 64 bits on LP64 targets; that builtin is not modelled.
   */
  function CountLeadingZeros(e: nat, w: nat): (r: nat)
    requires e < Pow2(w)
    ensures IsLeadingZeroCount(e, w, r)
  {
    LeadingZerosFromBitLen(e, w);
    w - BitLen(e)
  }

  lemma LeadingZerosFromBitLen(e: nat, w: nat)
    requires e < Pow2(w)
    ensures BitLen(e) <= w && IsLeadingZeroCount(e, w, w - BitLen(e))
  {
    BitLenBound(e, w);
    if e != 0 {
      BitLenTop(e);
      forall i: nat | BitLen(e) <= i
        ensures !Bit(e, i)
      {
        BitLenAbove(e, i);
      }
    }
  }

  // ------------------------------------------------------------ window tests

  /** `e & (mask << offset)` with mask = bits [0, d) tests bits [offset, offset + d). */
  lemma LowWindowTest(e: nat, mask: nat, d: nat, offset: nat, w: nat)
    requires offset + d <= w
    requires MaskBand(mask, 0, d)
    ensures And(e, ShiftLeft(mask, offset, w)) == 0 <==> !HasBitIn(e, offset, offset + d)
  {
    var m := ShiftLeft(mask, offset, w);
    forall i: nat
      ensures Bit(And(e, m), i) == (offset <= i < offset + d && Bit(e, i))
    {
      BitAnd(e, m, i);
      BitShiftLeft(mask, offset, w, i);
    }
    ZeroIffNoBits(And(e, m));
    if HasBitIn(e, offset, offset + d) {
      var i: nat :| offset <= i < offset + d && Bit(e, i);
      assert Bit(And(e, m), i);
    }
  }

  /** `e & (mask >> offset)` with mask = bits [lo, lo + d) tests bits [lo - offset, lo + d - offset). */
  lemma HighWindowTest(e: nat, mask: nat, lo: nat, d: nat, offset: nat)
    requires offset <= lo
    requires forall i: nat :: Bit(mask, i) == (lo <= i < lo + d)
    ensures And(e, Shr(mask, offset)) == 0 <==> !HasBitIn(e, lo - offset, lo + d - offset)
  {
    var m := Shr(mask, offset);
    forall i: nat
      ensures Bit(And(e, m), i) == (lo - offset <= i < lo + d - offset && Bit(e, i))
    {
      BitAnd(e, m, i);
      BitShr(mask, offset, i);
    }
    ZeroIffNoBits(And(e, m));
    if HasBitIn(e, lo - offset, lo + d - offset) {
      var i: nat :| lo - offset <= i < lo + d - offset && Bit(e, i);
      assert Bit(And(e, m), i);
    }
  }

  /** The scans' initial mask `(1 << d) - 1` is the band [0, d). */
  lemma LowOnesBand(d: nat)
    ensures MaskBand(Pow2(d) - 1, 0, d)
  {
    var ones := Pow2(d) - 1;
    forall i: nat
      ensures Bit(ones, i) == (0 <= i < d)
    {
      BitLowOnes(d, i);
    }
  }

  /** `mask >>= s` on the band [0, d) leaves the band [0, d - s). */
  lemma LowBandShiftRight(mask: nat, d: nat, s: nat)
    requires MaskBand(mask, 0, d) && s <= d
    ensures MaskBand(Shr(mask, s), 0, d - s)
  {
    forall i: nat
      ensures Bit(Shr(mask, s), i) == (0 <= i < d - s)
    {
      BitShr(mask, s, i);
    }
  }

  /** The values the scans' step `d` takes, from w/2 down to 0. */
  predicate IsStep(d: nat)
  {
    d == 0 || d == 1 || d == 2 || d == 4 || d == 8 || d == 16 || d == 32
  }

  lemma Pow2Small()
    ensures Pow2(5) == 32 && Pow2(6) == 64
  {
  }

  /** No bit of `e` at or above `w` is set: e is a w-bit word. */
  ghost predicate FitsIn(e: nat, w: nat)
  {
    forall i: nat :: w <= i ==> !Bit(e, i)
  }

  lemma WordFits(e: nat, w: nat)
    requires e < Pow2(w)
    ensures FitsIn(e, w)
  {
    forall i: nat | w <= i
      ensures !Bit(e, i)
    {
      BitAboveWidth(e, w, i);
    }
  }

  lemma NonzeroHasBitBelow(e: nat, w: nat)
    requires e != 0 && FitsIn(e, w)
    ensures HasBitIn(e, 0, w)
  {
    var i := NonzeroHasBit(e);
  }

  // --------------------------------------------------------- trailing zeros

  /** Loop state of the trailing-zero scan: bits below `offset` clear, a set bit in the next `win` bits. */
  ghost predicate TrailingWindow(e: nat, w: nat, offset: nat, win: nat)
  {
    offset + win <= w &&
    (forall i: nat :: i < offset ==> !Bit(e, i)) &&
    HasBitIn(e, offset, offset + win)
  }

  /** Testing the lower half of the window keeps the set bit inside the half kept. */
  lemma TrailingWindowStep(e: nat, w: nat, offset: nat, d: nat)
    requires 1 <= d && TrailingWindow(e, w, offset, 2 * d)
    ensures !HasBitIn(e, offset, offset + d) ==> TrailingWindow(e, w, offset + d, d)
    ensures HasBitIn(e, offset, offset + d) ==> TrailingWindow(e, w, offset, d)
  {
    if !HasBitIn(e, offset, offset + d) {
      var j: nat :| offset <= j < offset + 2 * d && Bit(e, j);
      assert offset + d <= j;
    }
  }

  lemma TrailingWindowDone(e: nat, w: nat, offset: nat)
    requires e != 0 && TrailingWindow(e, w, offset, 1)
    ensures IsTrailingZeroCount(e, w, offset)
  {
    var j: nat :| offset <= j < offset + 1 && Bit(e, j);
  }

  /** Size of the window still searched when the step is `d`: 2d, and 1 once d reaches 0. */
  function Window(d: nat): nat
  {
    if d == 0 then 1 else 2 * d
  }

  /** Loop invariant of the trailing-zero scan. */
  ghost predicate TrailingState(e: nat, w: nat, offset: nat, d: nat, mask: nat)
  {
    IsStep(d) && (d != 0 ==> MaskBand(mask, 0, d)) && TrailingWindow(e, w, offset, Window(d))
  }

  /** One round of the trailing-zero scan keeps its invariant. */
  lemma TrailingIteration(e: nat, w: nat, offset: nat, d: nat, mask: nat)
    requires d != 0 && TrailingState(e, w, offset, d, mask)
    ensures
      var next := if And(e, ShiftLeft(mask, offset, w)) == 0 then offset + d else offset;
      TrailingState(e, w, next, d / 2, Shr(mask, d / 2))
  {
    LowWindowTest(e, mask, d, offset, w);
    TrailingWindowStep(e, w, offset, d);
    if d / 2 != 0 {
      LowBandShiftRight(mask, d, d / 2);
    }
  }

  /** The trailing-zero scan starts with the low half of the word as its mask. */
  lemma TrailingStart(e: nat, w: nat)
    requires w == 32 || w == 64
    requires e != 0 && FitsIn(e, w)
    ensures TrailingState(e, w, 0, w / 2, Pow2(w / 2) - 1)
  {
    var d := w / 2;
    assert d == 16 || d == 32;
    LowOnesBand(d);
    NonzeroHasBitBelow(e, w);
  }

  /** The portable countTrailingZeros loop for a `w`-bit word, w being 32 or 64. */
  method TrailingZerosScan(e: nat, w: nat) returns (offset: nat)
    requires w == 32 || w == 64
    requires FitsIn(e, w)
    ensures IsTrailingZeroCount(e, w, offset)
  {
    offset := 0;
    if e == 0 {
      offset := w;
    } else {
      var d: nat := w / 2;
      var mask: nat := Pow2(d) - 1;
      TrailingStart(e, w);
      while d != 0
        invariant TrailingState(e, w, offset, d, mask)
        decreases d
      {
        TrailingIteration(e, w, offset, d, mask);
        if And(e, ShiftLeft(mask, offset, w)) == 0 {
          offset := offset + d;
        }
        d := d / 2;
        mask := Shr(mask, d);
      }
      TrailingWindowDone(e, w, offset);
    }
  }

  /** countTrailingZeros32 (compiler.c:74-94). */
  method CountTrailingZeros32(e: Word32) returns (r: nat)
    ensures IsTrailingZeroCount(e, 32, r)
  {
    Pow2WordSizes();
    WordFits(e, 32);
    r := TrailingZerosScan(e, 32);
  }

  /** The 64-bit scan, declared a second time as countTrailingZeros32 at compiler.c:97. */
  method CountTrailingZeros64(e: Word64) returns (r: nat)
    ensures IsTrailingZeroCount(e, 64, r)
  {
    Pow2WordSizes();
    WordFits(e, 64);
    r := TrailingZerosScan(e, 64);
  }

  // ---------------------------------------------------------- leading zeros

  /** Loop state of the leading-zero scan: the top `offset` bits clear, a set bit in the next `win` bits down. */
  ghost predicate LeadingWindow(e: nat, w: nat, offset: nat, win: nat)
  {
    offset + win <= w &&
    (forall i: nat :: w - offset <= i ==> !Bit(e, i)) &&
    HasBitIn(e, w - offset - win, w - offset)
  }

  /** Testing the upper half of the window keeps the set bit inside the half kept. */
  lemma LeadingWindowStep(e: nat, w: nat, offset: nat, d: nat)
    requires 1 <= d && LeadingWindow(e, w, offset, 2 * d)
    ensures !HasBitIn(e, w - offset - d, w - offset) ==> LeadingWindow(e, w, offset + d, d)
    ensures HasBitIn(e, w - offset - d, w - offset) ==> LeadingWindow(e, w, offset, d)
  {
    if !HasBitIn(e, w - offset - d, w - offset) {
      var j: nat :| w - offset - 2 * d <= j < w - offset && Bit(e, j);
      assert j < w - offset - d;
    }
  }

  lemma LeadingWindowDone(e: nat, w: nat, offset: nat)
    requires e != 0 && LeadingWindow(e, w, offset, 1)
    ensures IsLeadingZeroCount(e, w, offset)
  {
    var j: nat :| w - offset - 1 <= j < w - offset && Bit(e, j);
  }

  /** All bits of `mask` are clear except those in [lo, lo + d). */
  ghost predicate MaskBand(mask: nat, lo: nat, d: nat)
  {
    forall i: nat :: Bit(mask, i) == (lo <= i < lo + d)
  }

  /** The scans' initial mask `((1 << d) - 1) << d` is the band [d, 2d). */
  lemma InitialHighMask(d: nat, w: nat)
    requires 2 * d <= w
    ensures MaskBand(ShiftLeft(Pow2(d) - 1, d, w), d, d)
  {
    var ones := Pow2(d) - 1;
    forall i: nat
      ensures Bit(ShiftLeft(ones, d, w), i) == (d <= i < d + d)
    {
      BitShiftLeft(ones, d, w, i);
      if d <= i {
        BitLowOnes(d, i - d);
      }
    }
  }

  /** `mask <<= s` on a band ending at the word's top keeps the band's top s bits... shifted up by s and cut at w. */
  lemma MaskBandShiftLeft(mask: nat, lo: nat, d: nat, s: nat, w: nat)
    requires MaskBand(mask, lo, d) && lo + d == w && s <= d
    ensures MaskBand(ShiftLeft(mask, s, w), lo + s, d - s)
  {
    forall i: nat
      ensures Bit(ShiftLeft(mask, s, w), i) == (lo + s <= i < lo + d)
    {
      BitShiftLeft(mask, s, w, i);
    }
  }

  /** `mask >>= s` moves a band down by s. */
  lemma MaskBandShiftRight(mask: nat, lo: nat, d: nat, s: nat)
    requires MaskBand(mask, lo, d) && s <= lo
    ensures MaskBand(Shr(mask, s), lo - s, d)
  {
    forall i: nat
      ensures Bit(Shr(mask, s), i) == (lo - s <= i < lo - s + d)
    {
      BitShr(mask, s, i);
    }
  }

  /** Loop invariant of the corrected leading-zero scan. */
  ghost predicate LeadingState(e: nat, w: nat, offset: nat, d: nat, mask: nat)
  {
    IsStep(d) && d <= w && (d != 0 ==> MaskBand(mask, w - d, d)) && LeadingWindow(e, w, offset, Window(d))
  }

  /** One round of the corrected leading-zero scan keeps its invariant. */
  lemma LeadingIteration(e: nat, w: nat, offset: nat, d: nat, mask: nat)
    requires d != 0 && LeadingState(e, w, offset, d, mask)
    ensures
      var next := if And(e, Shr(mask, offset)) == 0 then offset + d else offset;
      LeadingState(e, w, next, d / 2, ShiftLeft(mask, d / 2, w))
  {
    HighWindowTest(e, mask, w - d, d, offset);
    LeadingWindowStep(e, w, offset, d);
    if d / 2 != 0 {
      MaskBandShiftLeft(mask, w - d, d, d / 2, w);
    }
  }

  /** The leading-zero scan starts with the high half of the word as its mask. */
  lemma LeadingStart(e: nat, w: nat)
    requires w == 32 || w == 64
    requires e != 0 && FitsIn(e, w)
    ensures LeadingState(e, w, 0, w / 2, ShiftLeft(Pow2(w / 2) - 1, w / 2, w))
  {
    var d := w / 2;
    assert d == 16 || d == 32;
    NonzeroHasBitBelow(e, w);
    InitialHighMask(d, w);
  }

  /**
   * The portable countLeadingZeros loop with the mask moved UP after each
   * halving (`mask <<= d`), so that `mask >> offset` is always the upper half
   * of the window still being searched.
   */
  method LeadingZerosScan(e: nat, w: nat) returns (offset: nat)
    requires w == 32 || w == 64
    requires FitsIn(e, w)
    ensures IsLeadingZeroCount(e, w, offset)
  {
    offset := 0;
    if e == 0 {
      offset := w;
    } else {
      var d: nat := w / 2;
      var mask := ShiftLeft(Pow2(d) - 1, d, w);
      LeadingStart(e, w);
      while d != 0
        invariant LeadingState(e, w, offset, d, mask)
        decreases d
      {
        LeadingIteration(e, w, offset, d, mask);
        if And(e, Shr(mask, offset)) == 0 {
          offset := offset + d;
        }
        d := d / 2;
        mask := ShiftLeft(mask, d, w);
      }
      LeadingWindowDone(e, w, offset);
    }
  }

  /** countLeadingZeros32 with the mask update corrected. */
  method CountLeadingZeros32(e: Word32) returns (r: nat)
    ensures IsLeadingZeroCount(e, 32, r)
  {
    Pow2WordSizes();
    WordFits(e, 32);
    r := LeadingZerosScan(e, 32);
  }

  /** countLeadingZeros64 with the mask update corrected. */
  method CountLeadingZeros64(e: Word64) returns (r: nat)
    ensures IsLeadingZeroCount(e, 64, r)
  {
    Pow2WordSizes();
    WordFits(e, 64);
    r := LeadingZerosScan(e, 64);
  }

  /**
   * One test of the scan as written on a value with bit 0 set and nothing in
   * the upper half: the first test (offset 0, the top half) finds nothing,
   * every later one (offset w/2, a band reaching down to bit 0) finds bit 0.
   */
  lemma AsWrittenTestLowOdd(e: nat, w: nat, mask: nat, d: nat, offset: nat)
    requires 1 <= d <= w / 2 && Bit(e, 0) && e < Pow2(w / 2)
    requires MaskBand(mask, d, w / 2)
    requires (offset == 0 && d == w / 2) || (offset == w / 2 && d < w / 2)
    ensures (And(e, Shr(mask, offset)) == 0) == (offset == 0)
  {
    if offset == 0 {
      HighWindowTest(e, mask, d, w / 2, 0);
      if HasBitIn(e, w / 2, w) {
        var j: nat :| w / 2 <= j < w && Bit(e, j);
        BitAboveWidth(e, w / 2, j);
      }
    } else {
      BitShr(mask, offset, 0);
      BitAnd(e, Shr(mask, offset), 0);
      ZeroIffNoBits(And(e, Shr(mask, offset)));
    }
  }

  /**
   * Loop invariant of the leading-zero scan as written: the mask is the band
   * [d, d + w/2), and on a value with bit 0 set and an empty upper half the
   * offset is 0 before the first round and w/2 after it.
   */
  ghost predicate AsWrittenState(e: nat, w: nat, offset: nat, d: nat, mask: nat)
  {
    IsStep(d) && d <= w / 2 && (d != 0 ==> MaskBand(mask, d, w / 2)) && offset + Window(d) <= w &&
    (Bit(e, 0) && e < Pow2(w / 2) ==> (offset == 0 && d == w / 2) || (offset == w / 2 && d < w / 2))
  }

  /** One round of the leading-zero scan as written keeps its invariant. */
  lemma AsWrittenIteration(e: nat, w: nat, offset: nat, d: nat, mask: nat)
    requires d != 0 && AsWrittenState(e, w, offset, d, mask)
    ensures
      var next := if And(e, Shr(mask, offset)) == 0 then offset + d else offset;
      AsWrittenState(e, w, next, d / 2, Shr(mask, d / 2))
  {
    if Bit(e, 0) && e < Pow2(w / 2) {
      AsWrittenTestLowOdd(e, w, mask, d, offset);
    }
    if d / 2 != 0 {
      MaskBandShiftRight(mask, d, w / 2, d / 2);
    }
  }

  /**
   * The portable countLeadingZeros loop exactly as written: `mask >>= d`
   * after halving d.  The first test is right (the top half); afterwards the
   * mask is the band [d, d + w/2), so `mask >> offset` no longer follows the
   * window being searched.  Any nonzero value confined to the low half with
   * bit 0 set counts w/2 leading zeros, and every nonzero value counts fewer
   * than w.
   */
  method LeadingZerosScanAsWritten(e: nat, w: nat) returns (offset: nat)
    requires w == 32 || w == 64
    requires e < Pow2(w)
    ensures e == 0 ==> offset == w
    ensures e != 0 ==> offset < w
    ensures e != 0 && Bit(e, 0) && e < Pow2(w / 2) ==> offset == w / 2
  {
    offset := 0;
    if e == 0 {
      offset := w;
    } else {
      var d: nat := w / 2;
      var mask := ShiftLeft(Pow2(d) - 1, d, w);
      InitialHighMask(d, w);
      while d != 0
        invariant AsWrittenState(e, w, offset, d, mask)
        decreases d
      {
        AsWrittenIteration(e, w, offset, d, mask);
        if And(e, Shr(mask, offset)) == 0 {
          offset := offset + d;
        }
        d := d / 2;
        mask := Shr(mask, d);
      }
    }
  }

  /** countLeadingZeros32 as written (compiler.c:28-48). */
  method CountLeadingZeros32AsWritten(e: Word32) returns (r: nat)
    ensures e == 0 ==> r == 32
    ensures e != 0 ==> r < 32
    ensures e != 0 && Bit(e, 0) && e < 0x1_0000 ==> r == 16
  {
    Pow2WordSizes();
    r := LeadingZerosScanAsWritten(e, 32);
  }

  /** countLeadingZeros64 as written (compiler.c:51-71). */
  method CountLeadingZeros64AsWritten(e: Word64) returns (r: nat)
    ensures e == 0 ==> r == 64
    ensures e != 0 ==> r < 64
    ensures e != 0 && Bit(e, 0) && e < TWO_32 ==> r == 32
  {
    Pow2WordSizes();
    r := LeadingZerosScanAsWritten(e, 64);
  }

  /** The documented count for 1 is 31; the 16 the scan as written returns does not meet the contract. */
  lemma ClzOfOneMiscounted()
    ensures IsLeadingZeroCount(1, 32, 31)
    ensures !IsLeadingZeroCount(1, 32, 16)
  {
    assert Bit(1, 0);
    forall i: nat | 1 <= i
      ensures !Bit(1, i)
    {
      BitOfZero(i - 1);
    }
  }

  /** Running both scans on 1: the scan as written returns 16 where the contract demands 31. */
  method ClzOfOneAsWritten() returns (asWritten: nat, corrected: nat)
    ensures asWritten == 16 && corrected == 31
  {
    assert Bit(1, 0);
    asWritten := CountLeadingZeros32AsWritten(1);
    corrected := CountLeadingZeros32(1);
    ClzOfOneMiscounted();
    ZeroCountsUnique(1, 32, corrected, 31);
  }
}
