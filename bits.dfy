/**
 * Unsigned machine words as natural numbers, and the bitwise operators of C
 * (`^`, `&`, `|`, `~`, `<<`, `>>`) defined on them.  Bit `i` of a word is the
 * coefficient of 2^i; every operator is characterised bit by bit, and two
 * numbers with the same bits are equal (BitExt), so the word-level laws used
 * elsewhere are all derived from the per-bit ones.
 */
module Bits {

  const TWO_32: nat := 0x1_0000_0000
  const TWO_64: nat := 0x1_0000_0000_0000_0000

  /** A `uint32_t`. */
  type Word32 = x: nat | x < TWO_32
  /** A `uint64_t`. */
  type Word64 = x: nat | x < TWO_64

  function Pow2(n: nat): (r: nat)
    ensures 1 <= r
  {
    if n == 0 then 1 else 2 * Pow2(n - 1)
  }

  lemma {:induction false} Pow2Add(a: nat, b: nat)
    ensures Pow2(a + b) == Pow2(a) * Pow2(b)
  {
    if a > 0 {
      Pow2Add(a - 1, b);
    }
  }

  lemma {:induction false} Pow2Monotone(a: nat, b: nat)
    requires a <= b
    ensures Pow2(a) <= Pow2(b)
  {
    if a < b {
      Pow2Monotone(a, b - 1);
    }
  }

  lemma Pow2WordSizes()
    ensures Pow2(16) == 0x1_0000 && Pow2(32) == TWO_32 && Pow2(64) == TWO_64
  {
    assert Pow2(2) == 4;
    Pow2Add(2, 2);
    assert Pow2(4) == 16;
    Pow2Add(4, 4);
    assert Pow2(8) == 256;
    Pow2Add(8, 8);
    assert Pow2(16) == 65536;
    Pow2Add(16, 16);
    assert Pow2(32) == TWO_32;
    Pow2Add(32, 32);
  }

  /** Bit `i` of `x`. */
  predicate Bit(x: nat, i: nat)
  {
    if i == 0 then x % 2 == 1 else Bit(x / 2, i - 1)
  }

  lemma {:induction false} BitOfZero(i: nat)
    ensures !Bit(0, i)
  {
    if i > 0 {
      BitOfZero(i - 1);
    }
  }

  /** Two numbers with the same bits are equal. */
  lemma {:induction false} BitExt(a: nat, b: nat)
    requires forall i: nat :: Bit(a, i) == Bit(b, i)
    ensures a == b
    decreases a + b
  {
    if a != 0 || b != 0 {
      assert Bit(a, 0) == Bit(b, 0);
      forall i: nat
        ensures Bit(a / 2, i) == Bit(b / 2, i)
      {
        assert Bit(a, i + 1) == Bit(b, i + 1);
      }
      BitExt(a / 2, b / 2);
    }
  }

  /** A nonzero number has some bit set. */
  lemma {:induction false} NonzeroHasBit(x: nat) returns (i: nat)
    requires x != 0
    ensures Bit(x, i)
  {
    if x % 2 == 1 {
      i := 0;
    } else {
      var j := NonzeroHasBit(x / 2);
      i := j + 1;
    }
  }

  /** A number is zero exactly when none of its bits is set. */
  lemma ZeroIffNoBits(x: nat)
    ensures x == 0 ==> forall i: nat :: !Bit(x, i)
    ensures (forall i: nat :: !Bit(x, i)) ==> x == 0
  {
    if x == 0 {
      forall i: nat
        ensures !Bit(x, i)
      {
        BitOfZero(i);
      }
    } else {
      var i := NonzeroHasBit(x);
      assert Bit(x, i);
    }
  }

  lemma {:induction false} BitAboveWidth(x: nat, w: nat, i: nat)
    requires x < Pow2(w) && w <= i
    ensures !Bit(x, i)
  {
    if w == 0 {
      BitOfZero(i);
    } else {
      BitAboveWidth(x / 2, w - 1, i - 1);
    }
  }

  lemma {:induction false} BoundFromBits(x: nat, w: nat)
    requires forall i: nat :: w <= i ==> !Bit(x, i)
    ensures x < Pow2(w)
  {
    if w == 0 {
      ZeroIffNoBits(x);
    } else {
      forall i: nat | w - 1 <= i
        ensures !Bit(x / 2, i)
      {
        assert !Bit(x, i + 1);
      }
      BoundFromBits(x / 2, w - 1);
    }
  }

  /** `a ^ b` */
  function Xor(a: nat, b: nat): nat
    decreases a + b
  {
    if a == 0 && b == 0 then 0
    else 2 * Xor(a / 2, b / 2) + (if a % 2 == b % 2 then 0 else 1)
  }

  /** `a & b` */
  function And(a: nat, b: nat): nat
    decreases a + b
  {
    if a == 0 && b == 0 then 0
    else 2 * And(a / 2, b / 2) + (if a % 2 == 1 && b % 2 == 1 then 1 else 0)
  }

  /** `a | b` */
  function Or(a: nat, b: nat): nat
    decreases a + b
  {
    if a == 0 && b == 0 then 0
    else 2 * Or(a / 2, b / 2) + (if a % 2 == 1 || b % 2 == 1 then 1 else 0)
  }

  /** `~a` on a `w`-bit word. */
  function Not(a: nat, w: nat): nat
  {
    if w == 0 then 0 else 2 * Not(a / 2, w - 1) + (1 - a % 2)
  }

  /** Reduction to the low `w` bits (the implicit truncation of a `w`-bit word). */
  function Trunc(a: nat, w: nat): nat
  {
    if w == 0 then 0 else 2 * Trunc(a / 2, w - 1) + a % 2
  }

  /** `a << s` without truncation. */
  function Shl(a: nat, s: nat): nat
    decreases s
  {
    if s == 0 then a else Shl(2 * a, s - 1)
  }

  /** `a << s` on a `w`-bit word. */
  function ShiftLeft(a: nat, s: nat, w: nat): nat
  {
    Trunc(Shl(a, s), w)
  }

  /** `a >> s` */
  function Shr(a: nat, s: nat): nat
  {
    if s == 0 then a else Shr(a / 2, s - 1)
  }

  lemma {:induction false} BitXor(a: nat, b: nat, i: nat)
    ensures Bit(Xor(a, b), i) == (Bit(a, i) != Bit(b, i))
    decreases i
  {
    if a == 0 && b == 0 {
      BitOfZero(i);
    } else if i > 0 {
      BitXor(a / 2, b / 2, i - 1);
    }
  }

  lemma {:induction false} BitAnd(a: nat, b: nat, i: nat)
    ensures Bit(And(a, b), i) == (Bit(a, i) && Bit(b, i))
    decreases i
  {
    if a == 0 && b == 0 {
      BitOfZero(i);
    } else if i > 0 {
      BitAnd(a / 2, b / 2, i - 1);
    }
  }

  lemma {:induction false} BitOr(a: nat, b: nat, i: nat)
    ensures Bit(Or(a, b), i) == (Bit(a, i) || Bit(b, i))
    decreases i
  {
    if a == 0 && b == 0 {
      BitOfZero(i);
    } else if i > 0 {
      BitOr(a / 2, b / 2, i - 1);
    }
  }

  lemma {:induction false} BitNot(a: nat, w: nat, i: nat)
    ensures Bit(Not(a, w), i) == (i < w && !Bit(a, i))
  {
    if w == 0 {
      BitOfZero(i);
    } else if i > 0 {
      BitNot(a / 2, w - 1, i - 1);
    }
  }

  lemma {:induction false} BitTrunc(a: nat, w: nat, i: nat)
    ensures Bit(Trunc(a, w), i) == (i < w && Bit(a, i))
  {
    if w == 0 {
      BitOfZero(i);
    } else if i > 0 {
      BitTrunc(a / 2, w - 1, i - 1);
    }
  }

  lemma {:induction false} BitShl(a: nat, s: nat, i: nat)
    ensures Bit(Shl(a, s), i) == (s <= i && Bit(a, i - s))
    decreases s
  {
    if s > 0 {
      BitShl(2 * a, s - 1, i);
      if s <= i {
        assert Bit(2 * a, i - (s - 1)) == Bit(a, i - s);
      } else if i == s - 1 {
        assert !Bit(2 * a, 0);
      }
    }
  }

  lemma BitShiftLeft(a: nat, s: nat, w: nat, i: nat)
    ensures Bit(ShiftLeft(a, s, w), i) == (s <= i < w && Bit(a, i - s))
  {
    BitTrunc(Shl(a, s), w, i);
    BitShl(a, s, i);
  }

  lemma {:induction false} BitShr(a: nat, s: nat, i: nat)
    ensures Bit(Shr(a, s), i) == Bit(a, i + s)
  {
    if s > 0 {
      BitShr(a / 2, s - 1, i);
    }
  }

  lemma {:induction false} BitPow2(s: nat, i: nat)
    ensures Bit(Pow2(s), i) == (i == s)
  {
    if s == 0 {
      if i > 0 {
        BitOfZero(i - 1);
      }
    } else if i == 0 {
    } else {
      BitPow2(s - 1, i - 1);
    }
  }

  /** `(1 << w) - 1`: the low `w` bits set. */
  lemma {:induction false} BitLowOnes(w: nat, i: nat)
    ensures Bit(Pow2(w) - 1, i) == (i < w)
  {
    if w == 0 {
      BitOfZero(i);
    } else if i > 0 {
      assert (Pow2(w) - 1) / 2 == Pow2(w - 1) - 1;
      BitLowOnes(w - 1, i - 1);
    }
  }

  lemma TruncBound(a: nat, w: nat)
    ensures Trunc(a, w) < Pow2(w)
  {
    forall i: nat | w <= i
      ensures !Bit(Trunc(a, w), i)
    {
      BitTrunc(a, w, i);
    }
    BoundFromBits(Trunc(a, w), w);
  }

  lemma TruncIdentity(a: nat, w: nat)
    requires a < Pow2(w)
    ensures Trunc(a, w) == a
  {
    forall i: nat
      ensures Bit(Trunc(a, w), i) == Bit(a, i)
    {
      BitTrunc(a, w, i);
      if w <= i {
        BitAboveWidth(a, w, i);
      }
    }
    BitExt(Trunc(a, w), a);
  }

  lemma XorBound(a: nat, b: nat, w: nat)
    requires a < Pow2(w) && b < Pow2(w)
    ensures Xor(a, b) < Pow2(w)
  {
    forall i: nat | w <= i
      ensures !Bit(Xor(a, b), i)
    {
      BitXor(a, b, i);
      BitAboveWidth(a, w, i);
      BitAboveWidth(b, w, i);
    }
    BoundFromBits(Xor(a, b), w);
  }

  lemma AndBound(a: nat, b: nat, w: nat)
    requires a < Pow2(w)
    ensures And(a, b) < Pow2(w) && And(b, a) < Pow2(w)
  {
    forall i: nat | w <= i
      ensures !Bit(And(a, b), i) && !Bit(And(b, a), i)
    {
      BitAnd(a, b, i);
      BitAnd(b, a, i);
      BitAboveWidth(a, w, i);
    }
    BoundFromBits(And(a, b), w);
    BoundFromBits(And(b, a), w);
  }

  lemma OrBound(a: nat, b: nat, w: nat)
    requires a < Pow2(w) && b < Pow2(w)
    ensures Or(a, b) < Pow2(w)
  {
    forall i: nat | w <= i
      ensures !Bit(Or(a, b), i)
    {
      BitOr(a, b, i);
      BitAboveWidth(a, w, i);
      BitAboveWidth(b, w, i);
    }
    BoundFromBits(Or(a, b), w);
  }

  lemma NotBound(a: nat, w: nat)
    ensures Not(a, w) < Pow2(w)
  {
    forall i: nat | w <= i
      ensures !Bit(Not(a, w), i)
    {
      BitNot(a, w, i);
    }
    BoundFromBits(Not(a, w), w);
  }

  /** Number of significant bits: 0 for 0, otherwise one more than the index of the highest set bit. */
  function BitLen(x: nat): nat
  {
    if x == 0 then 0 else 1 + BitLen(x / 2)
  }

  lemma {:induction false} BitLenTop(x: nat)
    requires x != 0
    ensures 1 <= BitLen(x) && Bit(x, BitLen(x) - 1)
  {
    if x / 2 != 0 {
      BitLenTop(x / 2);
    }
  }

  lemma {:induction false} BitLenAbove(x: nat, i: nat)
    requires BitLen(x) <= i
    ensures !Bit(x, i)
  {
    if x == 0 {
      BitOfZero(i);
    } else {
      BitLenAbove(x / 2, i - 1);
    }
  }

  /** BitLen is the width of the narrowest word that holds `x`. */
  lemma {:induction false} BitLenBound(x: nat, w: nat)
    ensures x < Pow2(w) <==> BitLen(x) <= w
  {
    if x != 0 && w != 0 {
      BitLenBound(x / 2, w - 1);
    } else if x != 0 {
      assert 1 <= BitLen(x);
    }
  }

  lemma BitLenMonotone(a: nat, b: nat)
    requires a <= b
    ensures BitLen(a) <= BitLen(b)
  {
    BitLenBound(b, BitLen(b));
    if BitLen(b) == 0 {
    } else {
      BitLenBound(b, BitLen(b));
      BitLenBound(a, BitLen(b));
    }
  }

  /** The top set bit and the clear bits above it determine BitLen. */
  lemma BitLenFromBits(x: nat, n: nat)
    requires 1 <= n && Bit(x, n - 1)
    requires forall i: nat :: n <= i ==> !Bit(x, i)
    ensures BitLen(x) == n
  {
    BoundFromBits(x, n);
    BitLenBound(x, n);
    if BitLen(x) < n {
      BitLenAbove(x, n - 1);
    }
  }
}
