/**
 * Polynomials over GF(2) encoded as natural numbers (bit i is the coefficient
 * of x^i), without any word-size limit.  Addition is Xor; Mul is the
 * carry-less product, defined by the same shift-and-add recursion that
 * gf2.c's loop runs.  The algebraic laws proved here (commutativity,
 * associativity, distributivity, degree additivity) are what the division
 * identity and the sieve's correctness rest on.
 */
module Gf2Math {
  import opened Bits

  /** Carry-less product: for each set bit i of b, add a shifted left by i. */
  function Mul(a: nat, b: nat): nat
    decreases b
  {
    if b == 0 then 0 else Xor(if b % 2 == 1 then a else 0, Mul(2 * a, b / 2))
  }

  // ---------------------------------------------------------------- Xor laws

  lemma XorComm(a: nat, b: nat)
    ensures Xor(a, b) == Xor(b, a)
  {
    forall i: nat
      ensures Bit(Xor(a, b), i) == Bit(Xor(b, a), i)
    {
      BitXor(a, b, i);
      BitXor(b, a, i);
    }
    BitExt(Xor(a, b), Xor(b, a));
  }

  lemma XorAssoc(a: nat, b: nat, c: nat)
    ensures Xor(Xor(a, b), c) == Xor(a, Xor(b, c))
  {
    forall i: nat
      ensures Bit(Xor(Xor(a, b), c), i) == Bit(Xor(a, Xor(b, c)), i)
    {
      BitXor(Xor(a, b), c, i);
      BitXor(a, b, i);
      BitXor(a, Xor(b, c), i);
      BitXor(b, c, i);
    }
    BitExt(Xor(Xor(a, b), c), Xor(a, Xor(b, c)));
  }

  lemma XorSelf(a: nat)
    ensures Xor(a, a) == 0
  {
    forall i: nat
      ensures Bit(Xor(a, a), i) == Bit(0, i)
    {
      BitXor(a, a, i);
      BitOfZero(i);
    }
    BitExt(Xor(a, a), 0);
  }

  lemma XorZero(a: nat)
    ensures Xor(a, 0) == a && Xor(0, a) == a
  {
    forall i: nat
      ensures Bit(Xor(a, 0), i) == Bit(a, i) && Bit(Xor(0, a), i) == Bit(a, i)
    {
      BitXor(a, 0, i);
      BitXor(0, a, i);
      BitOfZero(i);
    }
    BitExt(Xor(a, 0), a);
    BitExt(Xor(0, a), a);
  }

  lemma XorDouble(a: nat, b: nat)
    ensures Xor(2 * a, 2 * b) == 2 * Xor(a, b)
  {
    if a != 0 || b != 0 {
      assert (2 * a) / 2 == a && (2 * b) / 2 == b;
    }
  }

  /** Rearranging four summands: (a + b) + (c + d) == (a + c) + (b + d). */
  lemma XorSwapMiddle(a: nat, b: nat, c: nat, d: nat)
    ensures Xor(Xor(a, b), Xor(c, d)) == Xor(Xor(a, c), Xor(b, d))
  {
    forall i: nat
      ensures Bit(Xor(Xor(a, b), Xor(c, d)), i) == Bit(Xor(Xor(a, c), Xor(b, d)), i)
    {
      BitXor(Xor(a, b), Xor(c, d), i);
      BitXor(Xor(a, c), Xor(b, d), i);
      BitXor(a, b, i);
      BitXor(c, d, i);
      BitXor(a, c, i);
      BitXor(b, d, i);
    }
    BitExt(Xor(Xor(a, b), Xor(c, d)), Xor(Xor(a, c), Xor(b, d)));
  }

  /** Splitting a number into its low bit and the rest is a sum. */
  lemma XorLowBit(b: nat)
    ensures Xor(b % 2, 2 * (b / 2)) == b
  {
    if b % 2 == 0 {
      XorZero(2 * (b / 2));
    } else {
      assert (2 * (b / 2)) / 2 == b / 2;
      XorZero(b / 2);
    }
  }

  // ---------------------------------------------------------------- Mul laws

  lemma {:induction false} MulZeroLeft(b: nat)
    ensures Mul(0, b) == 0
    decreases b
  {
    if b != 0 {
      MulZeroLeft(b / 2);
      XorZero(0);
    }
  }

  lemma MulOne(a: nat)
    ensures Mul(a, 1) == a
  {
    XorZero(a);
  }

  /** Shifting the left factor shifts the product. */
  lemma {:induction false} MulDoubleLeft(a: nat, b: nat)
    ensures Mul(2 * a, b) == 2 * Mul(a, b)
    decreases b
  {
    if b != 0 {
      MulDoubleLeft(2 * a, b / 2);
      XorDouble(if b % 2 == 1 then a else 0, Mul(2 * a, b / 2));
    }
  }

  /** The product distributes over addition in its left factor. */
  lemma {:induction false} MulXorLeft(a: nat, c: nat, b: nat)
    ensures Mul(Xor(a, c), b) == Xor(Mul(a, b), Mul(c, b))
    decreases b
  {
    if b == 0 {
      XorZero(0);
    } else {
      XorDouble(a, c);
      MulXorLeft(2 * a, 2 * c, b / 2);
      if b % 2 == 1 {
        XorSwapMiddle(a, c, Mul(2 * a, b / 2), Mul(2 * c, b / 2));
      } else {
        XorZero(0);
        XorZero(Mul(Xor(2 * a, 2 * c), b / 2));
        XorZero(Mul(2 * a, b / 2));
        XorZero(Mul(2 * c, b / 2));
      }
    }
  }

  lemma MulOneLeft(b: nat)
    ensures Mul(1, b) == b
  {
    MulComm(1, b);
    MulOne(b);
  }

  lemma {:induction false} MulComm(a: nat, b: nat)
    ensures Mul(a, b) == Mul(b, a)
    decreases b
  {
    if b == 0 {
      MulZeroLeft(a);
    } else {
      // Mul(a, b) == (b odd ? a : 0) + 2 * Mul(a, b / 2)
      MulDoubleLeft(a, b / 2);
      MulComm(a, b / 2);
      // 2 * Mul(b / 2, a) == Mul(2 * (b / 2), a)
      MulDoubleLeft(b / 2, a);
      // (b odd ? a : 0) == Mul(b % 2, a)
      if b % 2 == 1 {
        MulOneLeft1(a);
      } else {
        MulZeroLeft(a);
      }
      MulXorLeft(b % 2, 2 * (b / 2), a);
      XorLowBit(b);
    }
  }

  /** Mul(1, a) == a, proved without commutativity (MulComm relies on it). */
  lemma {:induction false} MulOneLeft1(a: nat)
    ensures Mul(1, a) == a
    decreases a
  {
    if a != 0 {
      MulDoubleLeft(1, a / 2);
      MulOneLeft1(a / 2);
      XorLowBit(a);
    }
  }

  lemma MulXorRight(a: nat, b: nat, c: nat)
    ensures Mul(a, Xor(b, c)) == Xor(Mul(a, b), Mul(a, c))
  {
    MulComm(a, Xor(b, c));
    MulXorLeft(b, c, a);
    MulComm(b, a);
    MulComm(c, a);
  }

  lemma MulDoubleRight(a: nat, b: nat)
    ensures Mul(a, 2 * b) == 2 * Mul(a, b)
  {
    MulComm(a, 2 * b);
    MulDoubleLeft(b, a);
    MulComm(b, a);
  }

  lemma {:induction false} MulAssoc(a: nat, b: nat, c: nat)
    ensures Mul(Mul(a, b), c) == Mul(a, Mul(b, c))
    decreases c
  {
    if c == 0 {
      MulComm(a, 0);
    } else {
      // left side: (c odd ? ab : 0) + 2 * Mul(ab, c / 2)
      MulDoubleLeft(Mul(a, b), c / 2);
      MulAssoc(a, b, c / 2);
      // right side: Mul(a, (c odd ? b : 0) + 2 * Mul(b, c / 2))
      MulDoubleLeft(b, c / 2);
      MulXorRight(a, if c % 2 == 1 then b else 0, 2 * Mul(b, c / 2));
      MulDoubleRight(a, Mul(b, c / 2));
      if c % 2 == 0 {
        MulComm(a, 0);
      }
    }
  }

  // ------------------------------------------------------------------ degree

  /** Adding a shorter polynomial does not change the bit length. */
  lemma XorShorter(x: nat, y: nat)
    requires BitLen(y) < BitLen(x)
    ensures BitLen(Xor(x, y)) == BitLen(x)
  {
    var n := BitLen(x);
    BitLenTop(x);
    BitXor(x, y, n - 1);
    BitLenAbove(y, n - 1);
    forall i: nat | n <= i
      ensures !Bit(Xor(x, y), i)
    {
      BitXor(x, y, i);
      BitLenAbove(x, i);
      BitLenAbove(y, i);
    }
    BitLenFromBits(Xor(x, y), n);
  }

  /** Adding two polynomials of the same degree cancels the leading term. */
  lemma XorSameLength(x: nat, y: nat)
    requires BitLen(x) == BitLen(y) && x != 0
    ensures BitLen(Xor(x, y)) < BitLen(x)
  {
    var n := BitLen(x);
    BitLenTop(x);
    BitLenTop(y);
    forall i: nat | n - 1 <= i
      ensures !Bit(Xor(x, y), i)
    {
      BitXor(x, y, i);
      if n <= i {
        BitLenAbove(x, i);
        BitLenAbove(y, i);
      }
    }
    BoundFromBits(Xor(x, y), n - 1);
    BitLenBound(Xor(x, y), n - 1);
  }

  /** The degree of a product is the sum of the degrees. */
  lemma {:induction false} MulBitLen(a: nat, b: nat)
    requires a != 0 && b != 0
    ensures BitLen(Mul(a, b)) == BitLen(a) + BitLen(b) - 1
    decreases b
  {
    if b == 1 {
      MulOne(a);
    } else {
      MulBitLen(a, b / 2);
      MulDoubleLeft(a, b / 2);
      assert BitLen(2 * Mul(a, b / 2)) == 1 + BitLen(Mul(a, b / 2)) by {
        assert (2 * Mul(a, b / 2)) / 2 == Mul(a, b / 2);
      }
      if b % 2 == 1 {
        XorShorter(2 * Mul(a, b / 2), a);
        XorComm(a, 2 * Mul(a, b / 2));
      } else {
        XorZero(2 * Mul(a, b / 2));
      }
    }
  }

  lemma MulNonzero(a: nat, b: nat)
    requires a != 0 && b != 0
    ensures Mul(a, b) != 0
  {
    MulBitLen(a, b);
  }

  /** The constant term of a product is the product of the constant terms. */
  lemma MulLowBit(a: nat, b: nat)
    ensures Bit(Mul(a, b), 0) == (Bit(a, 0) && Bit(b, 0))
  {
    if b != 0 {
      BitXor(if b % 2 == 1 then a else 0, Mul(2 * a, b / 2), 0);
      MulDoubleLeft(a, b / 2);
      BitOfZero(0);
    }
  }

  // -------------------------------------------------------------- truncation

  lemma TruncXor(a: nat, b: nat, w: nat)
    ensures Trunc(Xor(a, b), w) == Xor(Trunc(a, w), Trunc(b, w))
  {
    forall i: nat
      ensures Bit(Trunc(Xor(a, b), w), i) == Bit(Xor(Trunc(a, w), Trunc(b, w)), i)
    {
      BitTrunc(Xor(a, b), w, i);
      BitXor(a, b, i);
      BitXor(Trunc(a, w), Trunc(b, w), i);
      BitTrunc(a, w, i);
      BitTrunc(b, w, i);
    }
    BitExt(Trunc(Xor(a, b), w), Xor(Trunc(a, w), Trunc(b, w)));
  }

  lemma TruncDouble(a: nat, w: nat)
    ensures Trunc(2 * Trunc(a, w), w) == Trunc(2 * a, w)
  {
    forall i: nat
      ensures Bit(Trunc(2 * Trunc(a, w), w), i) == Bit(Trunc(2 * a, w), i)
    {
      BitTrunc(2 * Trunc(a, w), w, i);
      BitTrunc(2 * a, w, i);
      if i > 0 {
        assert (2 * Trunc(a, w)) / 2 == Trunc(a, w);
        assert (2 * a) / 2 == a;
        BitTrunc(a, w, i - 1);
      }
    }
    BitExt(Trunc(2 * Trunc(a, w), w), Trunc(2 * a, w));
  }

  lemma TruncTrunc(a: nat, w: nat)
    ensures Trunc(Trunc(a, w), w) == Trunc(a, w)
  {
    TruncBound(a, w);
    TruncIdentity(Trunc(a, w), w);
  }

  /** The low w bits of a product depend only on the low w bits of the left factor. */
  lemma {:induction false} MulTrunc(a: nat, b: nat, w: nat)
    ensures Trunc(Mul(a, b), w) == Trunc(Mul(Trunc(a, w), b), w)
    decreases b
  {
    if b != 0 {
      var ta := Trunc(a, w);
      MulTrunc(2 * a, b / 2, w);
      MulTrunc(2 * ta, b / 2, w);
      TruncDouble(a, w);
      TruncXor(if b % 2 == 1 then a else 0, Mul(2 * a, b / 2), w);
      TruncXor(if b % 2 == 1 then ta else 0, Mul(2 * ta, b / 2), w);
      TruncTrunc(a, w);
    }
  }

  /** Multiplying by x^s is a left shift by s. */
  lemma {:induction false} MulPow2(d: nat, s: nat)
    ensures Mul(Pow2(s), d) == Shl(d, s)
    decreases s
  {
    if s == 0 {
      MulOneLeft1(d);
    } else {
      MulDoubleLeft(Pow2(s - 1), d);
      MulPow2(d, s - 1);
      ShlDouble(d, s - 1);
    }
  }

  lemma {:induction false} ShlDouble(d: nat, s: nat)
    ensures Shl(d, s + 1) == 2 * Shl(d, s)
    decreases s
  {
    if s > 0 {
      ShlDouble(2 * d, s - 1);
    }
  }

  lemma ShlBitLen(d: nat, s: nat)
    requires d != 0
    ensures BitLen(Shl(d, s)) == BitLen(d) + s
  {
    MulPow2(d, s);
    MulBitLen(Pow2(s), d);
    BitPow2(s, s);
    forall i: nat | s + 1 <= i
      ensures !Bit(Pow2(s), i)
    {
      BitPow2(s, i);
    }
    BitLenFromBits(Pow2(s), s + 1);
  }
}
