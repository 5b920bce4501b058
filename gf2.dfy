/**
 * gf2.h / gf2.c: arithmetic on polynomials over GF(2) held in 64-bit words
 * (Gf2Polynomial).  Add is exclusive or; Multiply is the shift-and-add loop,
 * so its result is the carry-less product reduced modulo x^64; Divide and
 * Remainder are long division driven by the bit length of the remainder.
 */
module Gf2 {
  import opened Bits
  import opened Gf2Math
  import Compiler

  /** Gf2Polynomial: bit i is the coefficient of x^i. */
  type Polynomial = Word64

  lemma PolynomialBound(p: Polynomial)
    ensures p < Pow2(64)
  {
    Pow2WordSizes();
  }

  // -------------------------------------------------------------------- add

  /** gf2Add: coefficient-wise sum, i.e. bitwise exclusive or. */
  function Add(p1: Polynomial, p2: Polynomial): (r: Polynomial)
    ensures forall i: nat :: Bit(r, i) == (Bit(p1, i) != Bit(p2, i))
  {
    AddBits(p1, p2);
    Xor(p1, p2)
  }

  lemma AddBits(p1: Polynomial, p2: Polynomial)
    ensures Xor(p1, p2) < TWO_64
    ensures forall i: nat :: Bit(Xor(p1, p2), i) == (Bit(p1, i) != Bit(p2, i))
  {
    Pow2WordSizes();
    XorBound(p1, p2, 64);
    forall i: nat
      ensures Bit(Xor(p1, p2), i) == (Bit(p1, i) != Bit(p2, i))
    {
      BitXor(p1, p2, i);
    }
  }

  lemma AddCommutative(a: Polynomial, b: Polynomial)
    ensures Add(a, b) == Add(b, a)
  {
    XorComm(a, b);
  }

  lemma AddAssociative(a: Polynomial, b: Polynomial, c: Polynomial)
    ensures Add(Add(a, b), c) == Add(a, Add(b, c))
  {
    XorAssoc(a, b, c);
  }

  /** Every polynomial is its own negative, and 0 is the neutral element. */
  lemma AddInverseAndZero(a: Polynomial)
    ensures Add(a, a) == 0
    ensures Add(a, 0) == a
  {
    XorSelf(a);
    XorZero(a);
  }

  // --------------------------------------------------------------- multiply

  /**
   * What gf2Multiply computes: the carry-less product, kept to its low 64
   * coefficients (the word holds polynomials modulo x^64).
   */
  function Product(p1: Polynomial, p2: Polynomial): (r: Polynomial)
    ensures r < Pow2(64)
  {
    TruncBound(Mul(p1, p2), 64);
    Pow2WordSizes();
    Trunc(Mul(p1, p2), 64)
  }

  /** One round of gf2Multiply keeps `product + s1 * s2 == p1 * p2` modulo x^64. */
  lemma MultiplyStep(product: nat, s1: nat, s2: nat)
    requires s2 != 0
    ensures
      var product' := if s2 % 2 == 1 then Xor(product, s1) else product;
      Trunc(Xor(product', Mul(ShiftLeft(s1, 1, 64), s2 / 2)), 64) == Trunc(Xor(product, Mul(s1, s2)), 64)
  {
    var odd := if s2 % 2 == 1 then s1 else 0;
    var rest := Mul(2 * s1, s2 / 2);
    assert Shl(s1, 1) == 2 * s1;
    MulTrunc(2 * s1, s2 / 2, 64);
    TruncXor(product, Xor(odd, rest), 64);
    TruncXor(Xor(product, odd), rest, 64);
    TruncXor(Xor(product, odd), Mul(ShiftLeft(s1, 1, 64), s2 / 2), 64);
    XorAssoc(product, odd, rest);
    XorZero(product);
  }

  /** gf2Multiply (gf2.c:30-45). */
  method Multiply(p1: Polynomial, p2: Polynomial) returns (product: Polynomial)
    ensures product == Product(p1, p2)
  {
    product := 0;
    var s1: Polynomial := p1;
    var s2: Polynomial := p2;
    XorZero(Mul(s1, s2));
    while s2 != 0
      invariant Trunc(Xor(product, Mul(s1, s2)), 64) == Product(p1, p2)
      decreases s2
    {
      MultiplyStep(product, s1, s2);
      if s2 % 2 == 1 {
        product := Add(product, s1);
      }
      s2 := s2 / 2;
      TruncBound(Shl(s1, 1), 64);
      Pow2WordSizes();
      s1 := ShiftLeft(s1, 1, 64);
    }
    XorZero(product);
    PolynomialBound(product);
    TruncIdentity(product, 64);
  }

  lemma ProductZeroOne(p: Polynomial)
    ensures Product(p, 0) == 0 && Product(0, p) == 0
    ensures Product(p, 1) == p && Product(1, p) == p
  {
    MulZeroLeft(p);
    MulOne(p);
    MulOneLeft(p);
    PolynomialBound(p);
    TruncIdentity(p, 64);
    TruncIdentity(0, 64);
  }

  lemma ProductCommutative(a: Polynomial, b: Polynomial)
    ensures Product(a, b) == Product(b, a)
  {
    MulComm(a, b);
  }

  /** Multiplication distributes over gf2Add. */
  lemma ProductDistributes(a: Polynomial, b: Polynomial, c: Polynomial)
    ensures Product(a, Add(b, c)) == Add(Product(a, b), Product(a, c))
  {
    MulXorRight(a, b, c);
    TruncXor(Mul(a, b), Mul(a, c), 64);
  }

  /** Products modulo x^64 associate. */
  lemma ProductAssociative(a: Polynomial, b: Polynomial, c: Polynomial)
    ensures Product(Product(a, b), c) == Product(a, Product(b, c))
  {
    // Both sides are the low 64 coefficients of a*b*c.
    MulTrunc(Mul(a, b), c, 64);
    MulAssoc(a, b, c);
    MulComm(a, Product(b, c));
    MulTrunc(Mul(b, c), a, 64);
    MulComm(Mul(b, c), a);
  }

  /** The constant term of a product is the product of the constant terms: odd times odd is odd. */
  lemma ProductLowBit(a: Polynomial, b: Polynomial)
    ensures Bit(Product(a, b), 0) == (Bit(a, 0) && Bit(b, 0))
  {
    MulLowBit(a, b);
    BitTrunc(Mul(a, b), 64, 0);
  }

  /** When the degrees fit in the word, nothing is cut off and the degrees add. */
  lemma ProductDegree(a: Polynomial, b: Polynomial)
    requires a != 0 && b != 0 && BitLen(a) + BitLen(b) <= 65
    ensures Product(a, b) == Mul(a, b)
    ensures BitLen(Product(a, b)) == BitLen(a) + BitLen(b) - 1
  {
    MulBitLen(a, b);
    BitLenBound(Mul(a, b), 64);
    TruncIdentity(Mul(a, b), 64);
  }

  // -------------------------------------------------------- bit length

  /**
   * mantissaSizeInBits (gf2.c:48-50): `64 - countLeadingZeros64(m)`, with the
   * zero-guarded builtin of the GCC branch (compiler.h:94-96), which returns
   * the documented leading-zero count.
   */
  function MantissaSizeInBits(m: Polynomial): (r: nat)
    ensures r <= 64
    ensures r == 0 <==> m == 0
    ensures m != 0 ==> Bit(m, r - 1) && forall i: nat :: r <= i ==> !Bit(m, i)
    ensures r == BitLen(m)
  {
    PolynomialBound(m);
    MantissaBits(m);
    64 - Compiler.CountLeadingZeros(m, 64)
  }

  lemma MantissaBits(m: Polynomial)
    requires m < Pow2(64)
    ensures
      var z := Compiler.CountLeadingZeros(m, 64);
      z <= 64 && 64 - z == BitLen(m) &&
      (m != 0 ==> Bit(m, 63 - z) && forall i: nat :: 64 - z <= i ==> !Bit(m, i))
  {
    var z := Compiler.CountLeadingZeros(m, 64);
    Compiler.LeadingZerosFromBitLen(m, 64);
    if m != 0 {
      forall i: nat | 64 - z <= i
        ensures !Bit(m, i)
      {
        if 64 <= i {
          BitAboveWidth(m, 64, i);
        }
      }
    }
  }

  // --------------------------------------------------------------- division

  /** `q` and `r` are the quotient and remainder of dividing `a` by `d`. */
  ghost predicate IsDivision(a: nat, d: nat, q: nat, r: nat)
  {
    BitLen(r) < BitLen(d) && a == Xor(Mul(q, d), r)
  }

  /** `r` is the remainder of dividing `a` by `d`. */
  ghost predicate IsRemainder(a: nat, d: nat, r: nat)
  {
    exists q: nat :: IsDivision(a, d, q, r)
  }

  lemma XorCancel(x: nat, y: nat)
    requires Xor(x, y) == 0
    ensures x == y
  {
    forall i: nat
      ensures Bit(x, i) == Bit(y, i)
    {
      BitXor(x, y, i);
      BitOfZero(i);
    }
    BitExt(x, y);
  }

  /** Polynomial division has exactly one quotient and one remainder. */
  lemma DivisionUnique(a: nat, d: nat, q1: nat, r1: nat, q2: nat, r2: nat)
    requires IsDivision(a, d, q1, r1) && IsDivision(a, d, q2, r2)
    ensures q1 == q2 && r1 == r2
  {
    // (q1 + q2) * d == r1 + r2, which is shorter than d.
    var m1 := Mul(q1, d);
    var m2 := Mul(q2, d);
    forall i: nat
      ensures Bit(Xor(m1, m2), i) == Bit(Xor(r1, r2), i)
    {
      BitXor(m1, r1, i);
      BitXor(m2, r2, i);
      BitXor(m1, m2, i);
      BitXor(r1, r2, i);
    }
    BitExt(Xor(m1, m2), Xor(r1, r2));
    MulXorLeft(q1, q2, d);
    var n := BitLen(d);
    BitLenBound(r1, n - 1);
    BitLenBound(r2, n - 1);
    XorBound(r1, r2, n - 1);
    BitLenBound(Xor(r1, r2), n - 1);
    if Xor(q1, q2) != 0 {
      MulBitLen(Xor(q1, q2), d);
      assert false;
    }
    XorCancel(q1, q2);
    XorSelf(m1);
    XorCancel(r1, r2);
  }

  /** The division identity holds for gf2Multiply and gf2Add, too: the product never overflows the word. */
  lemma DivisionIdentity(a: Polynomial, d: Polynomial, q: Polynomial, r: Polynomial)
    requires IsDivision(a, d, q, r)
    ensures a == Add(Product(q, d), r)
  {
    var m := Mul(q, d);
    XorAssoc(m, r, r);
    XorSelf(r);
    XorZero(m);
    assert m == Xor(a, r);
    AddBits(a, r);
    Pow2WordSizes();
    TruncIdentity(m, 64);
  }

  /** A shift that keeps every bit of a nonzero d within w bits loses nothing. */
  lemma ShiftFits(d: nat, b: nat, w: nat)
    requires d != 0 && BitLen(d) + b <= w
    ensures ShiftLeft(d, b, w) == Shl(d, b) && BitLen(Shl(d, b)) == BitLen(d) + b && Shl(d, b) < Pow2(w)
  {
    ShlBitLen(d, b);
    BitLenBound(Shl(d, b), w);
    TruncIdentity(Shl(d, b), w);
  }

  /** One round of long division: subtract divisor * x^b from the remainder and add x^b to the quotient. */
  lemma DivideStep(a: nat, d: nat, q: nat, r: nat)
    requires d != 0 && r < TWO_64 && q < TWO_64
    requires a == Xor(Mul(q, d), r)
    requires BitLen(d) <= BitLen(r)
    requires forall i: nat :: i + BitLen(d) <= BitLen(r) ==> !Bit(q, i)
    ensures
      var b := BitLen(r) - BitLen(d);
      var q' := Or(q, ShiftLeft(1, b, 64));
      var r' := Xor(r, ShiftLeft(d, b, 64));
      b < 64 && ShiftLeft(1, b, 64) == Pow2(b) && ShiftLeft(d, b, 64) == Shl(d, b) &&
      q' < TWO_64 && r' < TWO_64 &&
      a == Xor(Mul(q', d), r') &&
      BitLen(r') < BitLen(r) &&
      (forall i: nat :: i + BitLen(d) <= BitLen(r') ==> !Bit(q', i))
  {
    var b := BitLen(r) - BitLen(d);
    Pow2WordSizes();
    BitLenBound(r, 64);
    assert 1 <= BitLen(d) by {
      BitLenTop(d);
    }
    // 1 << b and divisor << b fit in the word.
    MulPow2(1, b);
    MulOne(Pow2(b));
    assert BitLen(1) == 1;
    ShiftFits(1, b, 64);
    ShiftFits(d, b, 64);
    var s := Shl(d, b);
    // Setting bit b of q is adding x^b.
    forall i: nat
      ensures Bit(Or(q, Pow2(b)), i) == Bit(Xor(q, Pow2(b)), i)
    {
      BitOr(q, Pow2(b), i);
      BitXor(q, Pow2(b), i);
      BitPow2(b, i);
    }
    BitExt(Or(q, Pow2(b)), Xor(q, Pow2(b)));
    var q' := Xor(q, Pow2(b));
    OrBound(q, Pow2(b), 64);
    XorBound(r, s, 64);
    // (q + x^b) * d + (r + d x^b) == q * d + r
    MulXorLeft(q, Pow2(b), d);
    MulPow2(d, b);
    XorSwapMiddle(Mul(q, d), s, r, s);
    XorSelf(s);
    XorZero(Xor(Mul(q, d), r));
    // The leading terms cancel.
    XorSameLength(r, s);
    forall i: nat | i + BitLen(d) <= BitLen(Xor(r, s))
      ensures !Bit(q', i)
    {
      BitXor(q, Pow2(b), i);
      BitPow2(b, i);
    }
  }

  /** The pointee of gf2Divide's optionalRemainder argument. */
  class PolynomialCell {
    var value: Polynomial

    constructor (v: Polynomial)
      ensures value == v
    {
      value := v;
    }
  }

  /**
   * gf2Divide with the quotient bit set by a 64-bit shift,
   * `quotient |= (Gf2Polynomial) 1 << b`.  The remainder is written through
   * `optionalRemainder` when it is not null; a zero divisor would loop forever.
   */
  method Divide(dividend: Polynomial, divisor: Polynomial, optionalRemainder: PolynomialCell?)
    returns (quotient: Polynomial)
    requires divisor != 0
    modifies optionalRemainder
    ensures optionalRemainder != null ==> IsDivision(dividend, divisor, quotient, optionalRemainder.value)
    ensures exists r: nat :: IsDivision(dividend, divisor, quotient, r)
  {
    var remainder: Polynomial := dividend;
    quotient := 0;
    var divisorSize := MantissaSizeInBits(divisor);
    var remainderSize := MantissaSizeInBits(remainder);
    MulZeroLeft(divisor);
    XorZero(dividend);
    forall i: nat
      ensures !Bit(quotient, i)
    {
      BitOfZero(i);
    }
    while remainderSize >= divisorSize
      invariant remainderSize == BitLen(remainder) && divisorSize == BitLen(divisor)
      invariant dividend == Xor(Mul(quotient, divisor), remainder)
      invariant forall i: nat :: i + divisorSize <= remainderSize ==> !Bit(quotient, i)
      decreases remainderSize
    {
      var b := remainderSize - divisorSize;
      DivideStep(dividend, divisor, quotient, remainder);
      quotient := Or(quotient, ShiftLeft(1, b, 64));
      remainder := Xor(remainder, ShiftLeft(divisor, b, 64));
      remainderSize := MantissaSizeInBits(remainder);
    }
    assert IsDivision(dividend, divisor, quotient, remainder);
    if optionalRemainder != null {
      optionalRemainder.value := remainder;
    }
  }

  /** gf2Remainder (gf2.c:76-87): the same long division, keeping only the remainder. */
  method Remainder(dividend: Polynomial, divisor: Polynomial) returns (remainder: Polynomial)
    requires divisor != 0
    ensures IsRemainder(dividend, divisor, remainder)
  {
    remainder := dividend;
    ghost var quotient: Polynomial := 0;
    var divisorSize := MantissaSizeInBits(divisor);
    var remainderSize := MantissaSizeInBits(remainder);
    MulZeroLeft(divisor);
    XorZero(dividend);
    forall i: nat
      ensures !Bit(quotient, i)
    {
      BitOfZero(i);
    }
    while remainderSize >= divisorSize
      invariant remainderSize == BitLen(remainder) && divisorSize == BitLen(divisor)
      invariant dividend == Xor(Mul(quotient, divisor), remainder)
      invariant forall i: nat :: i + divisorSize <= remainderSize ==> !Bit(quotient, i)
      decreases remainderSize
    {
      var b := remainderSize - divisorSize;
      DivideStep(dividend, divisor, quotient, remainder);
      quotient := Or(quotient, ShiftLeft(1, b, 64));
      remainder := Xor(remainder, ShiftLeft(divisor, b, 64));
      remainderSize := MantissaSizeInBits(remainder);
    }
    assert IsDivision(dividend, divisor, quotient, remainder);
  }

  /** gf2Remainder returns exactly the remainder gf2Divide stores through its pointer. */
  method RemainderAgreesWithDivide(dividend: Polynomial, divisor: Polynomial)
    returns (quotient: Polynomial, stored: Polynomial, remainder: Polynomial)
    requires divisor != 0
    ensures stored == remainder
    ensures IsDivision(dividend, divisor, quotient, remainder)
  {
    var cell := new PolynomialCell(0);
    quotient := Divide(dividend, divisor, cell);
    stored := cell.value;
    remainder := Remainder(dividend, divisor);
    ghost var q: nat :| IsDivision(dividend, divisor, q, remainder);
    DivisionUnique(dividend, divisor, quotient, stored, q, remainder);
  }

  // ------------------------------------------------- division as written

  /**
   * `1 << b` at gf2.c:62 shifts the int 1.  For b <= 30 it is x^b.  For larger
   * b C leaves the result undefined; this model takes what an x86-64 build
   * does: the count is taken modulo 32, bit 31 is the sign of a 32-bit int,
   * and the conversion to the 64-bit quotient sign-extends it.
   */
  function IntShiftOne(b: nat): (r: Polynomial)
    ensures b <= 30 ==> r == Pow2(b)
  {
    var s := b % 32;
    if s == 31 then 0xFFFF_FFFF_8000_0000
    else
      IntShiftFits(s);
      Pow2(s)
  }

  /** An int shift by less than 31 stays below 2^30, well inside the word. */
  lemma IntShiftFits(s: nat)
    requires s <= 30
    ensures Pow2(s) <= 0x4000_0000
  {
    Pow2Monotone(s, 30);
    Pow2WordSizes();
    assert Pow2(32) == 4 * Pow2(30);
  }

  /**
   * One `quotient |= 1 << b` as written, beside the intended
   * `quotient |= (Gf2Polynomial) 1 << b`: equal while b <= 30, and once b is
   * 31 (or bit 63 is already set) bit 63 of the quotient is set.
   */
  lemma AsWrittenQuotientStep(q: nat, intended: nat, b: nat)
    requires q < TWO_64
    ensures Or(q, IntShiftOne(b)) < TWO_64
    ensures b <= 30 && q == intended ==> Or(q, IntShiftOne(b)) == Or(intended, Pow2(b))
    ensures b == 31 || Bit(q, 63) ==> Bit(Or(q, IntShiftOne(b)), 63)
  {
    var bit := IntShiftOne(b);
    Pow2WordSizes();
    OrBound(q, bit, 64);
    BitOr(q, bit, 63);
    if b == 31 {
      SignExtendedTopBit();
    }
  }

  lemma SignExtendedTopBit()
    ensures Bit(0xFFFF_FFFF_8000_0000, 63)
  {
    var x := 0xFFFF_FFFF_8000_0000;
    Pow2WordSizes();
    assert Pow2(64) == 2 * Pow2(63);
    BitLenBound(x, 63);
    BitLenBound(x, 64);
    BitLenTop(x);
  }

  /**
   * gf2Divide exactly as written (gf2.c:53-73).  The remainder is always
   * right.  The quotient is right while every shift is at most 30, that is
   * when the degrees differ by at most 30; when they differ by exactly 31 the
   * first shift sets bits 31 to 63 of the quotient.
   */
  method DivideAsWritten(dividend: Polynomial, divisor: Polynomial, optionalRemainder: PolynomialCell?)
    returns (quotient: Polynomial)
    requires divisor != 0
    modifies optionalRemainder
    ensures optionalRemainder != null ==> IsRemainder(dividend, divisor, optionalRemainder.value)
    ensures BitLen(dividend) <= BitLen(divisor) + 30 ==>
      optionalRemainder != null ==> IsDivision(dividend, divisor, quotient, optionalRemainder.value)
    ensures BitLen(dividend) <= BitLen(divisor) + 30 ==> exists r: nat :: IsDivision(dividend, divisor, quotient, r)
    ensures BitLen(dividend) == BitLen(divisor) + 31 ==> Bit(quotient, 63)
  {
    var remainder: Polynomial := dividend;
    quotient := 0;
    ghost var intended: nat := 0;
    var divisorSize := MantissaSizeInBits(divisor);
    var remainderSize := MantissaSizeInBits(remainder);
    MulZeroLeft(divisor);
    XorZero(dividend);
    forall i: nat
      ensures !Bit(intended, i)
    {
      BitOfZero(i);
    }
    ghost var fits := BitLen(dividend) <= BitLen(divisor) + 30;
    ghost var overflows := BitLen(dividend) == BitLen(divisor) + 31;
    while remainderSize >= divisorSize
      invariant remainderSize == BitLen(remainder) && divisorSize == BitLen(divisor)
      invariant remainderSize <= BitLen(dividend)
      invariant intended < TWO_64
      invariant dividend == Xor(Mul(intended, divisor), remainder)
      invariant forall i: nat :: i + divisorSize <= remainderSize ==> !Bit(intended, i)
      invariant fits ==> quotient == intended
      invariant overflows && remainderSize < BitLen(dividend) ==> Bit(quotient, 63)
      decreases remainderSize
    {
      var b := remainderSize - divisorSize;
      DivideStep(dividend, divisor, intended, remainder);
      AsWrittenQuotientStep(quotient, intended, b);
      intended := Or(intended, ShiftLeft(1, b, 64));
      quotient := Or(quotient, IntShiftOne(b));
      remainder := Xor(remainder, ShiftLeft(divisor, b, 64));
      remainderSize := MantissaSizeInBits(remainder);
    }
    assert IsDivision(dividend, divisor, intended, remainder);
    if optionalRemainder != null {
      optionalRemainder.value := remainder;
    }
  }

  /** The only quotient of x^31 by 1 is x^31, which has no coefficient at x^63. */
  lemma QuotientOfX31(q: nat, r: nat)
    requires IsDivision(Pow2(31), 1, q, r)
    ensures q == Pow2(31) && !Bit(q, 63)
  {
    assert BitLen(1) == 1;
    assert r == 0;
    MulOne(q);
    XorZero(q);
    BitPow2(31, 63);
  }

  /** Dividing x^31 by 1 as written yields a quotient that is not x^31. */
  method DivideAsWrittenOverflows() returns (quotient: Polynomial)
    ensures Bit(quotient, 63)
    ensures forall r: nat :: !IsDivision(Pow2(31), 1, quotient, r)
  {
    var dividend := Pow2(31);
    PolynomialBound(0);
    Pow2Monotone(31, 64);
    Pow2WordSizes();
    forall i: nat | 32 <= i
      ensures !Bit(dividend, i)
    {
      BitPow2(31, i);
    }
    BitPow2(31, 31);
    BitLenFromBits(dividend, 32);
    quotient := DivideAsWritten(dividend, 1, null);
    forall r: nat
      ensures !IsDivision(Pow2(31), 1, quotient, r)
    {
      if IsDivision(Pow2(31), 1, quotient, r) {
        QuotientOfX31(quotient, r);
      }
    }
  }
}
