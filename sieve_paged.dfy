/**
 * main of sieve_of_eratosthenes_gf2.c: the sieve over the paged prime list
 * of prime_list.c, which keeps odd values only.  It starts from 3, clears
 * p * q for odd q = p, p + 2, ... while the product stays within the bound,
 * moves to the next set bit, and stops once p * p exceeds the bound or no
 * set bit is left; the list is then written back to its pool files.
 */
module PagedSieve {
  import opened Bits
  import opened Gf2Math
  import opened Parameters
  import opened Irreducibility
  import opened PrimeList
  import opened Puddles
  import Gf2

  /** The bit of odd value v in the paged list. */
  predicate OddBit(pools: Disk, v: nat)
  {
    ListBit(pools, v / 2)
  }

  /**
   * The paged list after sieving with every prime below `bound`: all pools
   * present, 1 cleared, and an odd v in [3, MAXIMUM_PRIME] set exactly when
   * it has no proper factor below the bound.
   */
  ghost predicate OddSieved(pools: Disk, bound: nat)
  {
    Complete(pools) && !ListBit(pools, 0) &&
    forall v: nat :: 3 <= v <= MAXIMUM_PRIME && v % 2 == 1 ==>
      (OddBit(pools, v) <==> !(Reducible(v) && LeastFactor(v) < bound))
  }

  /** Midway through the odd multiples of p: p * p .. p * (q - 2) are cleared too. */
  ghost predicate OddMarking(pools: Disk, p: nat, q: nat)
  {
    2 <= p <= q && Complete(pools) && !ListBit(pools, 0) &&
    forall v: nat :: 3 <= v <= MAXIMUM_PRIME && v % 2 == 1 ==>
      (OddBit(pools, v) <==> !((Reducible(v) && LeastFactor(v) < p) || MultipleBelow(p, q, v)))
  }

  /** Within 13 bits gf2Multiply does not overflow: it is the true product. */
  lemma ProductFits(p: Gf2.Polynomial, q: Gf2.Polynomial)
    requires 1 <= p < 2 * (MAXIMUM_PRIME + 1) && 1 <= q < 2 * (MAXIMUM_PRIME + 1)
    ensures Gf2.Product(p, q) == Mul(p, q)
  {
    BoundIsDegree(0);
    assert Pow2(BOUND_BITS + 1) == 2 * (MAXIMUM_PRIME + 1);
    BitLenBound(p, BOUND_BITS + 1);
    BitLenBound(q, BOUND_BITS + 1);
    Gf2.ProductDegree(p, q);
  }

  /** Every odd value up to the bound has its pool in a complete list. */
  lemma PoolForOdd(pools: Disk, v: nat)
    requires Complete(pools) && v <= MAXIMUM_PRIME
    ensures HasPoolFor(pools, v / 2)
  {
    DerivedSizes();
  }

  /** A fresh list with 1 cleared is sieved with nothing: no odd value has the factor 2. */
  lemma InitialState(pools: Disk)
    requires Complete(pools) && !ListBit(pools, 0)
    requires forall k: nat :: 1 <= k < CAPACITY ==> ListBit(pools, k)
    ensures OddSieved(pools, 3)
  {
    DerivedSizes();
    forall v: nat | 3 <= v <= MAXIMUM_PRIME && v % 2 == 1
      ensures OddBit(pools, v) && !(Reducible(v) && LeastFactor(v) < 3)
    {
      assert 1 <= v / 2 < CAPACITY;
      OddLeastFactor(v);
    }
  }

  lemma StartMarking(pools: Disk, p: nat)
    requires 2 <= p && OddSieved(pools, p)
    ensures OddMarking(pools, p, p)
  {
  }

  /**
   * Clearing p * q for odd p and q extends the cleared multiples of p up to
   * q + 2: p * (q + 1) is even, and even values have no bit.
   */
  lemma MarkStep(pools: Disk, p: nat, q: nat)
    requires OddMarking(pools, p, q) && p % 2 == 1 && q % 2 == 1 && Mul(p, q) <= MAXIMUM_PRIME
    ensures HasPoolFor(pools, Mul(p, q) / 2)
    ensures OddMarking(Marked(pools, Mul(p, q)), p, q + 2)
  {
    var m := Mul(p, q);
    PoolForOdd(pools, m);
    MulLowBit(p, q);
    MarkedSpec(pools, m);
    var pools' := Marked(pools, m);
    assert m % 2 == 1;
    forall v: nat | 3 <= v <= MAXIMUM_PRIME && v % 2 == 1
      ensures OddBit(pools', v) == (OddBit(pools, v) && v != m)
    {
      assert ListBit(pools', v / 2) == (ListBit(pools, v / 2) && v / 2 != m / 2);
      SameQuotientAndRemainder(v, m, 2);
    }
    forall v: nat | 3 <= v <= MAXIMUM_PRIME && v % 2 == 1
      ensures MultipleBelow(p, q + 2, v) == (MultipleBelow(p, q, v) || v == m)
    {
      OddMultipleStep(p, q, v);
    }
  }

  /** For odd v, the multiples of p below q + 2 are those below q and p * q: p * (q + 1) is even. */
  lemma OddMultipleStep(p: nat, q: nat, v: nat)
    requires p <= q && q % 2 == 1 && v % 2 == 1
    ensures MultipleBelow(p, q + 2, v) == (MultipleBelow(p, q, v) || v == Mul(p, q))
  {
    if MultipleBelow(p, q + 2, v) {
      var q': nat :| p <= q' < q + 2 && Mul(p, q') == v;
      EvenMultiple(p, q, v, q');
    }
    if MultipleBelow(p, q, v) {
      var q': nat :| p <= q' < q && Mul(p, q') == v;
      assert p <= q' < q + 2 && Mul(p, q') == v;
    }
    if v == Mul(p, q) {
      assert p <= q < q + 2 && Mul(p, q) == v;
    }
  }

  /** The one multiple p * q' with q' in [q, q + 2) that can be odd is p * q. */
  lemma EvenMultiple(p: nat, q: nat, v: nat, q': nat)
    requires q % 2 == 1 && v % 2 == 1 && p <= q' < q + 2 && Mul(p, q') == v
    ensures MultipleBelow(p, q, v) || v == Mul(p, q)
  {
    if q' < q {
      assert MultipleBelow(p, q, v);
    } else if q' != q {
      // p * (q + 1) is even, and v is odd.
      MulLowBit(p, q');
      assert false;
    }
  }

  /** Once p * q exceeds the bound, every odd v whose least factor is p has been cleared. */
  lemma FinishMarking(pools: Disk, p: nat, q: nat)
    requires OddMarking(pools, p, q) && MAXIMUM_PRIME < Mul(p, q)
    ensures OddSieved(pools, p + 1)
  {
    BoundIsDegree(0);
    forall v: nat | 3 <= v <= MAXIMUM_PRIME && v % 2 == 1
      ensures (Reducible(v) && LeastFactor(v) < p) || MultipleBelow(p, q, v) <==> Reducible(v) && LeastFactor(v) < p + 1
    {
      SievingRound(p, q, v, BOUND_BITS);
    }
  }

  /** When p * p exceeds the bound, every reducible v up to it has a least factor below p. */
  lemma DoneSquare(pools: Disk, p: nat)
    requires 2 <= p && OddSieved(pools, p) && MAXIMUM_PRIME < Mul(p, p)
    ensures OddSieved(pools, p + 1) && OddSieved(pools, MAXIMUM_PRIME + 1)
  {
    BoundIsDegree(0);
    forall v: nat | 3 <= v <= MAXIMUM_PRIME && v % 2 == 1 && Reducible(v)
      ensures LeastFactor(v) < p
    {
      SquareBeyondBound(p, v, BOUND_BITS);
    }
  }

  /**
   * From a list sieved below a bound past the odd p, the value findNextPrime
   * returns is the next irreducible polynomial when it lies within the
   * bound; when it is 0 or lies in the padding beyond the bound, no odd
   * irreducible follows p and the list is already complete.
   */
  lemma Advance(pools: Disk, p: nat, bound: nat, r: nat)
    requires 3 <= p <= MAXIMUM_PRIME && p % 2 == 1 && p < bound && OddSieved(pools, bound)
    requires r != 0 ==>
      r % 2 == 1 && p / 2 + 1 <= r / 2 < CAPACITY && ListBit(pools, r / 2) && NoneSet(pools, p / 2 + 1, r / 2)
    requires r == 0 ==>
      NUMBER_PUDDLES * PUDDLE_SIZE <= p / 2 + 1 || NoneSet(pools, p / 2 + 1, CAPACITY)
    ensures r != 0 ==> p < r < 2 * CAPACITY + 1
    ensures r != 0 && r <= MAXIMUM_PRIME ==> Irreducible(r) && (bound <= r ==> OddSieved(pools, r))
    ensures r == 0 || MAXIMUM_PRIME < r ==> OddSieved(pools, MAXIMUM_PRIME + 1)
  {
    DerivedSizes();
    var top := if r == 0 || MAXIMUM_PRIME < r then MAXIMUM_PRIME + 1 else r;
    // No odd value strictly between p and top has its bit set.
    forall v: nat | p < v < top && v % 2 == 1
      ensures !OddBit(pools, v)
    {
      assert p / 2 + 1 <= v / 2;
      if r != 0 {
        assert v / 2 < r / 2;
      }
    }
    // So no least factor of an odd v at or past the bound lies below top.
    forall v: nat | 3 <= v <= MAXIMUM_PRIME && v % 2 == 1 && Reducible(v) && bound <= LeastFactor(v)
      ensures top <= LeastFactor(v)
    {
      LeastFactorIrreducible(v);
      OddLeastFactor(v);
      ReducibleIffProperFactor(v);
    }
    if r != 0 && r <= MAXIMUM_PRIME {
      assert OddBit(pools, r);
      if Reducible(r) {
        ReducibleIffProperFactor(r);
      }
    }
  }

  /** With every prime up to the bound sieved out, the odd bits are exactly the odd irreducibles. */
  lemma FinalState(pools: Disk)
    requires OddSieved(pools, MAXIMUM_PRIME + 1)
    ensures forall v: nat :: 3 <= v <= MAXIMUM_PRIME && v % 2 == 1 ==> (OddBit(pools, v) <==> Irreducible(v))
  {
    forall v: nat | 3 <= v <= MAXIMUM_PRIME && v % 2 == 1
      ensures OddBit(pools, v) <==> Irreducible(v)
    {
      LeastFactorSpec(v);
    }
  }

  /**
   * One round of main's loop before the next prime is looked up: when
   * prime * prime exceeds the bound the sieve is done (and already
   * complete); otherwise the multiples of prime are cleared.
   */
  method MarkMultiples(list: PagedList, prime: Gf2.Polynomial) returns (done: bool)
    requires list.Valid() && 3 <= prime < 2 * CAPACITY + 1 && prime % 2 == 1
    requires prime <= MAXIMUM_PRIME ==> OddSieved(list.Pools(), prime)
    requires MAXIMUM_PRIME < prime ==> OddSieved(list.Pools(), MAXIMUM_PRIME + 1)
    modifies list, list.inMemoryPool
    ensures list.Valid()
    ensures done <==> MAXIMUM_PRIME < Mul(prime, prime)
    ensures MAXIMUM_PRIME < prime ==> done
    ensures prime <= MAXIMUM_PRIME ==> OddSieved(list.Pools(), prime + 1)
    ensures done ==> OddSieved(list.Pools(), MAXIMUM_PRIME + 1)
  {
    var product := Gf2.Multiply(prime, prime);
    ProductFits(prime, prime);
    ProductExceeds(prime, prime);
    if product > MAXIMUM_PRIME {
      done := true;
      if prime <= MAXIMUM_PRIME {
        DoneSquare(list.Pools(), prime);
      }
    } else {
      done := false;
      ClearOddMultiples(list, prime, product);
    }
  }

  /**
   * The inner do-while of main: prime * q is cleared for q = prime,
   * prime + 2, ... (the global q of the source) while the product stays
   * within the bound.  Even multiples have no bit, so this is every multiple.
   */
  method ClearOddMultiples(list: PagedList, prime: Gf2.Polynomial, square: Gf2.Polynomial)
    requires list.Valid() && 3 <= prime <= MAXIMUM_PRIME && prime % 2 == 1
    requires square == Mul(prime, prime) <= MAXIMUM_PRIME
    requires OddSieved(list.Pools(), prime)
    modifies list, list.inMemoryPool
    ensures list.Valid()
    ensures OddSieved(list.Pools(), prime + 1)
  {
    var q: Gf2.Polynomial := prime;
    var product := square;
    ghost var pools := list.Pools();
    StartMarking(pools, prime);
    while true
      invariant list.Valid() && list.Pools() == pools
      invariant prime <= q <= MAXIMUM_PRIME && q % 2 == 1
      invariant product == Mul(prime, q) <= MAXIMUM_PRIME
      invariant OddMarking(pools, prime, q)
      decreases MAXIMUM_PRIME - q
    {
      q, product, pools := NextMultiple(list, prime, q, product, pools);
      if product > MAXIMUM_PRIME {
        break;
      }
    }
  }

  /**
   * One pass of the inner do-while: markComposite(prime * q), which extends
   * the cleared multiples to q + 2, then the product with q + 2.  Past the
   * bound, every multiple of prime has been cleared.
   */
  method NextMultiple(list: PagedList, prime: Gf2.Polynomial, q: Gf2.Polynomial, product: Gf2.Polynomial, ghost pools: Disk)
    returns (q': Gf2.Polynomial, product': Gf2.Polynomial, ghost pools': Disk)
    requires list.Valid() && list.Pools() == pools && OddMarking(pools, prime, q)
    requires prime % 2 == 1 && q <= MAXIMUM_PRIME && q % 2 == 1 && product == Mul(prime, q) <= MAXIMUM_PRIME
    modifies list, list.inMemoryPool
    ensures list.Valid() && list.Pools() == pools' && q' == q + 2
    ensures product' <= MAXIMUM_PRIME ==> product' == Mul(prime, q') && q' <= MAXIMUM_PRIME && q' % 2 == 1 && OddMarking(pools', prime, q')
    ensures MAXIMUM_PRIME < product' ==> OddSieved(pools', prime + 1)
  {
    pools' := MarkProduct(list, prime, q, product, pools);
    assert (q + 2) % 2 == 1;
    q' := q + 2;
    product' := Gf2.Multiply(prime, q');
    ProductFits(prime, q');
    ProductExceeds(prime, q');
    if product' > MAXIMUM_PRIME {
      FinishMarking(pools', prime, q');
    }
  }

  /** markComposite(prime * q): the cleared multiples now reach q + 2. */
  method MarkProduct(list: PagedList, prime: Gf2.Polynomial, q: nat, product: Gf2.Polynomial, ghost pools: Disk)
    returns (ghost pools': Disk)
    requires list.Valid() && list.Pools() == pools && OddMarking(pools, prime, q)
    requires prime % 2 == 1 && q % 2 == 1 && product == Mul(prime, q) <= MAXIMUM_PRIME
    modifies list, list.inMemoryPool
    ensures list.Valid() && list.Pools() == pools' && OddMarking(pools', prime, q + 2)
  {
    MarkStep(pools, prime, q);
    list.MarkComposite(product);
    pools' := Marked(pools, product);
  }

  /**
   * main: a new list over the pool files (those of the list overwritten,
   * any others kept), 1 marked composite, then rounds of sieving until
   * prime * prime exceeds the bound or no prime is left, and the list
   * written back.  On disk, the bit of every odd value 3 .. MAXIMUM_PRIME is
   * then set exactly when the value is irreducible, and the bit of 1 is
   * clear.
   */
  method Sieve(existing: Disk) returns (list: PagedList)
    ensures list.Valid() && Complete(list.disk) && !ListBit(list.disk, 0)
    ensures forall v: nat :: 3 <= v <= MAXIMUM_PRIME && v % 2 == 1 ==> (OddBit(list.disk, v) <==> Irreducible(v))
  {
    DerivedSizes();
    var done := false;
    var prime: Gf2.Polynomial := 3;
    list := new PagedList.Create(existing);
    ghost var created := list.Pools();
    PoolForOdd(created, 1);
    list.MarkComposite(0);
    list.MarkComposite(1);
    MarkedSpec(created, 1);
    InitialState(list.Pools());
    assert Irreducible(3) by {
      OddLeastFactor(3);
      ReducibleIffProperFactor(3);
    }
    while true
      invariant list.Valid() && Complete(list.Pools())
      invariant 3 <= prime < 2 * CAPACITY + 1 && prime % 2 == 1
      invariant prime <= MAXIMUM_PRIME ==> Irreducible(prime) && OddSieved(list.Pools(), prime)
      invariant MAXIMUM_PRIME < prime ==> OddSieved(list.Pools(), MAXIMUM_PRIME + 1)
      decreases 2 * CAPACITY + 1 - prime
    {
      done := MarkMultiples(list, prime);
      var next := list.FindNextPrimeAsWritten(prime);
      if !done {
        Advance(list.Pools(), prime, prime + 1, next);
      }
      prime := next;
      if done || prime == 0 {
        break;
      }
    }
    list.Terminate();
    FinalState(list.disk);
  }
}
