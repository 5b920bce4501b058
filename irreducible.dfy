/**
 * What the sieves compute: the irreducible ("prime") polynomials over GF(2).
 * A polynomial v >= 2 is reducible when it is the carry-less product of two
 * polynomials that are both at least 2 (degree at least 1).  The least
 * factor of v is the smallest a >= 2 dividing v; everything the sieves rely
 * on is proved about it here.
 */
module Irreducibility {
  import opened Bits
  import opened Gf2Math

  ghost predicate Divides(a: nat, v: nat)
  {
    exists b: nat :: Mul(a, b) == v
  }

  ghost predicate Reducible(v: nat)
  {
    exists a: nat, b: nat :: 2 <= a && 2 <= b && Mul(a, b) == v
  }

  ghost predicate Irreducible(v: nat)
  {
    2 <= v && !Reducible(v)
  }

  lemma BitLenAtLeastTwo(a: nat)
    requires 2 <= a
    ensures 2 <= BitLen(a)
  {
    assert BitLen(a) == 1 + BitLen(a / 2);
  }

  /** A product with a factor of degree at least 1 exceeds the other factor. */
  lemma ProductExceeds(a: nat, b: nat)
    requires 2 <= a && 1 <= b
    ensures b < Mul(a, b) && b < Mul(b, a)
  {
    MulBitLen(a, b);
    BitLenAtLeastTwo(a);
    BitLenBound(Mul(a, b), BitLen(b));
    BitLenBound(b, BitLen(b));
    MulComm(a, b);
  }

  /** Multiplying by a larger polynomial never lowers the degree. */
  lemma ProductDegreeMonotone(p: nat, q: nat, q': nat)
    requires 1 <= p && 1 <= q <= q'
    ensures BitLen(Mul(p, q)) <= BitLen(Mul(p, q'))
  {
    MulBitLen(p, q);
    MulBitLen(p, q');
    BitLenMonotone(q, q');
  }

  /** Below a bound 2^n - 1, a product stays below it when the right factor shrinks. */
  lemma ProductBoundMonotone(p: nat, q: nat, q': nat, n: nat)
    requires 1 <= p && 1 <= q <= q' && Mul(p, q') < Pow2(n)
    ensures Mul(p, q) < Pow2(n)
  {
    ProductDegreeMonotone(p, q, q');
    BitLenBound(Mul(p, q'), n);
    BitLenBound(Mul(p, q), n);
  }

  // ----------------------------------------------------------- least factor

  ghost function LeastFactorFrom(v: nat, a: nat): (f: nat)
    requires 2 <= a <= v
    ensures a <= f <= v
    decreases v - a
  {
    if a == v || Divides(a, v) then a else LeastFactorFrom(v, a + 1)
  }

  /** The smallest a >= 2 dividing v (v itself when nothing smaller does). */
  ghost function LeastFactor(v: nat): (f: nat)
    requires 2 <= v
    ensures 2 <= f <= v
  {
    LeastFactorFrom(v, 2)
  }

  lemma {:induction false} LeastFactorFromSpec(v: nat, a: nat)
    requires 2 <= a <= v
    ensures Divides(LeastFactorFrom(v, a), v)
    ensures forall c: nat :: a <= c < LeastFactorFrom(v, a) ==> !Divides(c, v)
    decreases v - a
  {
    if a == v {
      MulOne(v);
    } else if !Divides(a, v) {
      LeastFactorFromSpec(v, a + 1);
    }
  }

  /** LeastFactor divides v and nothing in [2, LeastFactor(v)) does. */
  lemma LeastFactorSpec(v: nat)
    requires 2 <= v
    ensures Divides(LeastFactor(v), v)
    ensures forall c: nat :: 2 <= c < LeastFactor(v) ==> !Divides(c, v)
  {
    LeastFactorFromSpec(v, 2);
  }

  /** Any divisor in [2, v) bounds the least factor. */
  lemma LeastFactorAtMost(v: nat, a: nat)
    requires 2 <= a < v && Divides(a, v)
    ensures LeastFactor(v) <= a
  {
    LeastFactorSpec(v);
  }

  /** v is reducible exactly when its least factor is a proper one. */
  lemma ReducibleIffProperFactor(v: nat)
    requires 2 <= v
    ensures Reducible(v) <==> LeastFactor(v) < v
  {
    LeastFactorSpec(v);
    var f := LeastFactor(v);
    if Reducible(v) {
      var a: nat, b: nat :| 2 <= a && 2 <= b && Mul(a, b) == v;
      ProductExceeds(b, a);
      LeastFactorAtMost(v, a);
    }
    if f < v {
      var b: nat :| Mul(f, b) == v;
      if b == 1 {
        MulOne(f);
      }
      assert 2 <= f && 2 <= b && Mul(f, b) == v;
    }
  }

  /** A reducible v is its least factor times a cofactor no smaller than it. */
  lemma Cofactor(v: nat) returns (e: nat)
    requires 2 <= v && Reducible(v)
    ensures LeastFactor(v) <= e < v && Mul(LeastFactor(v), e) == v
  {
    ReducibleIffProperFactor(v);
    LeastFactorSpec(v);
    var f := LeastFactor(v);
    e :| Mul(f, e) == v;
    if e == 1 {
      MulOne(f);
    }
    ProductExceeds(f, e);
    MulComm(f, e);
    assert Divides(e, v);
    LeastFactorAtMost(v, e);
  }

  lemma DividesTransitive(a: nat, b: nat, v: nat)
    requires Divides(a, b) && Divides(b, v)
    ensures Divides(a, v)
  {
    var c: nat :| Mul(a, c) == b;
    var d: nat :| Mul(b, d) == v;
    MulAssoc(a, c, d);
  }

  /** The least factor of any v >= 2 is irreducible. */
  lemma LeastFactorIrreducible(v: nat)
    requires 2 <= v
    ensures Irreducible(LeastFactor(v))
  {
    var f := LeastFactor(v);
    LeastFactorSpec(v);
    if Reducible(f) {
      var a: nat, b: nat :| 2 <= a && 2 <= b && Mul(a, b) == f;
      ProductExceeds(b, a);
      DividesTransitive(a, f, v);
      assert false;
    }
  }

  /** An irreducible polynomial is its own least factor. */
  lemma IrreducibleOwnLeastFactor(v: nat)
    requires Irreducible(v)
    ensures LeastFactor(v) == v
  {
    ReducibleIffProperFactor(v);
  }

  /** A product of two factors >= 2 is reducible, and its least factor is at most either factor. */
  lemma ProductLeastFactor(p: nat, q: nat)
    requires 2 <= p && 2 <= q
    ensures 2 <= Mul(p, q) && Reducible(Mul(p, q))
    ensures LeastFactor(Mul(p, q)) <= p
  {
    ProductExceeds(q, p);
    ProductExceeds(p, q);
    assert Divides(p, Mul(p, q));
    LeastFactorAtMost(Mul(p, q), p);
  }

  /** An odd polynomial has only odd factors. */
  lemma OddFactors(a: nat, b: nat)
    requires Bit(Mul(a, b), 0)
    ensures Bit(a, 0) && Bit(b, 0)
  {
    MulLowBit(a, b);
  }

  lemma OddLeastFactor(v: nat)
    requires 2 <= v && Bit(v, 0)
    ensures Bit(LeastFactor(v), 0)
  {
    LeastFactorSpec(v);
    var b: nat :| Mul(LeastFactor(v), b) == v;
    OddFactors(LeastFactor(v), b);
  }

  /**
   * The least factor of a reducible v below 2^n has its square below 2^n
   * too; so once p * p reaches 2^n every reducible v below 2^n has a least
   * factor below p.
   */
  lemma LeastFactorSquare(v: nat, n: nat)
    requires 2 <= v && Reducible(v) && v < Pow2(n)
    ensures Mul(LeastFactor(v), LeastFactor(v)) < Pow2(n)
  {
    var f := LeastFactor(v);
    var e := Cofactor(v);
    ProductBoundMonotone(f, f, e, n);
  }

  lemma SquareBeyondBound(p: nat, v: nat, n: nat)
    requires 2 <= p && Pow2(n) <= Mul(p, p)
    requires 2 <= v && Reducible(v) && v < Pow2(n)
    ensures LeastFactor(v) < p
  {
    var f := LeastFactor(v);
    LeastFactorSquare(v, n);
    if p <= f {
      ProductDegreeMonotone(p, p, f);
      MulComm(p, f);
      ProductDegreeMonotone(f, p, f);
      BitLenBound(Mul(p, p), n);
      BitLenBound(Mul(f, f), n);
    }
  }

  /** v is p * q' for some q' in [p, q). */
  ghost predicate MultipleBelow(p: nat, q: nat, v: nat)
  {
    exists q': nat :: p <= q' < q && Mul(p, q') == v
  }

  /**
   * One round of the sieve: once p * q reaches 2^n, the multiples p * q'
   * with p <= q' < q, together with the v whose least factor is below p,
   * are exactly the reducible v below 2^n whose least factor is at most p.
   */
  lemma SievingRound(p: nat, q: nat, v: nat, n: nat)
    requires 2 <= p && Pow2(n) <= Mul(p, q)
    requires 2 <= v < Pow2(n)
    ensures (Reducible(v) && LeastFactor(v) < p) || MultipleBelow(p, q, v) <==> Reducible(v) && LeastFactor(v) <= p
  {
    if Reducible(v) && LeastFactor(v) == p {
      var e := Cofactor(v);
      if q <= e {
        ProductBoundMonotone(p, q, e, n);
      }
      assert p <= e < q && Mul(p, e) == v;
    }
    if MultipleBelow(p, q, v) {
      var q': nat :| p <= q' < q && Mul(p, q') == v;
      ProductLeastFactor(p, q');
    }
  }

  // ------------------------------------------------- the list of irreducibles

  /** The irreducible polynomials in [2, hi], in increasing order. */
  ghost function IrreduciblesUpTo(hi: nat): seq<nat>
  {
    if hi < 2 then [] else IrreduciblesUpTo(hi - 1) + (if Irreducible(hi) then [hi] else [])
  }

  /** The list holds exactly the irreducibles up to hi, in strictly increasing order. */
  lemma {:induction false} IrreduciblesUpToSpec(hi: nat)
    ensures forall v: nat :: v in IrreduciblesUpTo(hi) <==> v <= hi && Irreducible(v)
    ensures forall i: nat, j: nat :: i < j < |IrreduciblesUpTo(hi)| ==> IrreduciblesUpTo(hi)[i] < IrreduciblesUpTo(hi)[j]
  {
    if 2 <= hi {
      IrreduciblesUpToSpec(hi - 1);
      var below := IrreduciblesUpTo(hi - 1);
      assert forall i: nat :: i < |below| ==> below[i] <= hi - 1 by {
        forall i: nat | i < |below|
          ensures below[i] <= hi - 1
        {
          assert below[i] in below;
        }
      }
    }
  }

  /** With no irreducible in (lo, hi], the lists up to lo and up to hi agree. */
  lemma {:induction false} IrreduciblesGap(lo: nat, hi: nat)
    requires lo <= hi
    requires forall v: nat :: lo < v <= hi ==> !Irreducible(v)
    ensures IrreduciblesUpTo(hi) == IrreduciblesUpTo(lo)
    decreases hi - lo
  {
    if lo < hi {
      IrreduciblesGap(lo, hi - 1);
    }
  }
}
