/**
 * Single 32-bit puddle words, as both prime lists use them: clearing one bit
 * with `entry & ~(1 << offset)` and keeping the bits from `offset` up with
 * `entry & (~0 << offset)`.
 */
module Puddles {
  import opened Bits

  /** `(PuddleEntry) -1`: every bit of a puddle set. */
  const ALL_ONES: Word32 := 0xFFFF_FFFF

  lemma WordBits(w: Word32, i: nat)
    ensures Bit(w, i) ==> i < 32
  {
    Pow2WordSizes();
    if 32 <= i {
      BitAboveWidth(w, 32, i);
    }
  }

  lemma AllOnesBits(i: nat)
    ensures Bit(ALL_ONES, i) == (i < 32)
  {
    Pow2WordSizes();
    BitLowOnes(32, i);
  }

  lemma WordFromBits(x: nat)
    requires forall i: nat :: Bit(x, i) ==> i < 32
    ensures x < TWO_32
  {
    Pow2WordSizes();
    BoundFromBits(x, 32);
  }

  /** `entry & ~(1 << offset)`: the word with bit `offset` cleared and every other bit kept. */
  function ClearBit(w: Word32, offset: nat): (r: Word32)
    requires offset < 32
    ensures forall i: nat :: Bit(r, i) == (Bit(w, i) && i != offset)
  {
    ClearBitSpec(w, offset);
    And(w, Not(ShiftLeft(1, offset, 32), 32))
  }

  lemma ClearBitSpec(w: Word32, offset: nat)
    requires offset < 32
    ensures forall i: nat :: Bit(And(w, Not(ShiftLeft(1, offset, 32), 32)), i) == (Bit(w, i) && i != offset)
    ensures And(w, Not(ShiftLeft(1, offset, 32), 32)) < TWO_32
  {
    var r := And(w, Not(ShiftLeft(1, offset, 32), 32));
    forall i: nat
      ensures Bit(r, i) == (Bit(w, i) && i != offset)
    {
      BitAnd(w, Not(ShiftLeft(1, offset, 32), 32), i);
      BitNot(ShiftLeft(1, offset, 32), 32, i);
      BitShiftLeft(1, offset, 32, i);
      if offset <= i {
        BitPow2(0, i - offset);
      }
      WordBits(w, i);
    }
    forall i: nat
      ensures Bit(r, i) ==> i < 32
    {
      WordBits(w, i);
    }
    WordFromBits(r);
  }

  /** `entry & (((PuddleEntry) -1) << offset)`: the bits of the word at `offset` and above. */
  function BitsFrom(w: Word32, offset: nat): (r: Word32)
    requires offset < 32
    ensures forall i: nat :: Bit(r, i) == (offset <= i && Bit(w, i))
  {
    BitsFromSpec(w, offset);
    And(w, ShiftLeft(ALL_ONES, offset, 32))
  }

  lemma BitsFromSpec(w: Word32, offset: nat)
    requires offset < 32
    ensures forall i: nat :: Bit(And(w, ShiftLeft(ALL_ONES, offset, 32)), i) == (offset <= i && Bit(w, i))
    ensures And(w, ShiftLeft(ALL_ONES, offset, 32)) < TWO_32
  {
    var r := And(w, ShiftLeft(ALL_ONES, offset, 32));
    forall i: nat
      ensures Bit(r, i) == (offset <= i && Bit(w, i))
    {
      BitAnd(w, ShiftLeft(ALL_ONES, offset, 32), i);
      BitShiftLeft(ALL_ONES, offset, 32, i);
      if offset <= i {
        AllOnesBits(i - offset);
      }
      WordBits(w, i);
    }
    forall i: nat
      ensures Bit(r, i) ==> i < 32
    {
      WordBits(w, i);
    }
    WordFromBits(r);
  }

  /** `entry & (1 << offset)`: only bit `offset` of the word, if it is set. */
  function SelectBit(w: Word32, offset: nat): (r: Word32)
    requires offset < 32
    ensures forall i: nat :: Bit(r, i) == (i == offset && Bit(w, i))
  {
    SelectBitSpec(w, offset);
    And(w, ShiftLeft(1, offset, 32))
  }

  lemma SelectBitSpec(w: Word32, offset: nat)
    requires offset < 32
    ensures forall i: nat :: Bit(And(w, ShiftLeft(1, offset, 32)), i) == (i == offset && Bit(w, i))
    ensures And(w, ShiftLeft(1, offset, 32)) < TWO_32
  {
    var r := And(w, ShiftLeft(1, offset, 32));
    forall i: nat
      ensures Bit(r, i) == (i == offset && Bit(w, i))
    {
      BitAnd(w, ShiftLeft(1, offset, 32), i);
      BitShiftLeft(1, offset, 32, i);
      if offset <= i {
        BitPow2(0, i - offset);
      }
    }
    forall i: nat
      ensures Bit(r, i) ==> i < 32
    {
    }
    WordFromBits(r);
  }

  /** A position is determined by its word index and its offset in the word. */
  lemma SameQuotientAndRemainder(a: nat, b: nat, d: nat)
    requires 0 < d
    ensures a / d == b / d && a % d == b % d <==> a == b
  {
    if a / d == b / d && a % d == b % d {
      assert a == d * (a / d) + a % d;
      assert b == d * (b / d) + b % d;
    }
  }

  /** A word is nonzero exactly when one of its bits is set. */
  lemma NonzeroIffSomeBit(w: nat)
    ensures w != 0 ==> exists i: nat :: Bit(w, i)
    ensures (exists i: nat :: Bit(w, i)) ==> w != 0
  {
    if w != 0 {
      var i := NonzeroHasBit(w);
      assert Bit(w, i);
    } else {
      ZeroIffNoBits(w);
    }
  }

  /** Clearing a bit twice is clearing it once. */
  lemma ClearBitIdempotent(w: Word32, offset: nat)
    requires offset < 32
    ensures ClearBit(ClearBit(w, offset), offset) == ClearBit(w, offset)
  {
    var once := ClearBit(w, offset);
    var twice := ClearBit(once, offset);
    forall i: nat
      ensures Bit(twice, i) == Bit(once, i)
    {
    }
    BitExt(twice, once);
  }
}
