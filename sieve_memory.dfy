/**
 * sieve_of_eratosthenes_memory_gf2.c: the sieve over a flat bit list held in
 * memory, one bit per polynomial 0 .. MAXIMUM_PRIME.  Bit v sits at offset
 * v % POOL_SIZE of word v / POOL_SIZE; a set bit means "not yet known to be
 * composite".  The program's global array and its three static functions
 * become the class PrimeTable; main becomes the method Sieve, whose two
 * printed lists ("* " lines for the primes it sieved with, "- " lines for
 * the rest) are returned instead of printed.
 */
module MemorySieve {
  import opened Bits
  import opened Gf2Math
  import opened Parameters
  import opened Puddles
  import opened Irreducibility
  import Compiler
  import Gf2

  /** Bit v of the flat list is set. */
  predicate IsSet(words: seq<Word32>, v: nat)
  {
    v / POOL_SIZE < |words| && Bit(words[v / POOL_SIZE], v % POOL_SIZE)
  }

  /** The list with bit `value` cleared: what markComposite leaves behind. */
  function Cleared(words: seq<Word32>, value: nat): (r: seq<Word32>)
    requires value / POOL_SIZE < |words|
    ensures |r| == |words|
    ensures forall v: nat :: IsSet(r, v) == (IsSet(words, v) && v != value)
  {
    var index := value / POOL_SIZE;
    var cleared: Word32 := ClearBit(words[index], value % POOL_SIZE);
    var r := words[index := cleared];
    forall v: nat
      ensures IsSet(r, v) == (IsSet(words, v) && v != value)
    {
      SameQuotientAndRemainder(v, value, POOL_SIZE);
    }
    r
  }

  /** Value v lies in word `index` of the list, at offset v - 32 * index. */
  lemma WordPosition(v: nat, index: nat)
    requires POOL_SIZE * index <= v < POOL_SIZE * index + POOL_SIZE
    ensures v / POOL_SIZE == index && v % POOL_SIZE == v - POOL_SIZE * index
  {
  }

  /** Every bit of a word that is zero is clear. */
  lemma ZeroWordClear(words: seq<Word32>, index: nat, v: nat)
    requires index < |words| && words[index] == 0
    requires POOL_SIZE * index <= v < POOL_SIZE * index + POOL_SIZE
    ensures !IsSet(words, v)
  {
    WordPosition(v, index);
    BitOfZero(v % POOL_SIZE);
  }

  class PrimeTable {
    /** primeList: NUMBER_POOLS words of POOL_SIZE bits each. */
    const words: array<Word32>

    predicate Valid()
    {
      words.Length == MEMORY_NUMBER_POOLS
    }

    constructor ()
      ensures Valid() && fresh(words)
    {
      words := new Word32[MEMORY_NUMBER_POOLS](_ => 0);
    }

    /** initializePrimeList: every value 0 .. MAXIMUM_PRIME is a candidate, nothing beyond it. */
    method Initialize()
      requires Valid()
      modifies words
      ensures forall v: nat :: IsSet(words[..], v) == (v <= MAXIMUM_PRIME)
    {
      forall i | 0 <= i < words.Length {
        words[i] := ALL_ONES;
      }
      DerivedSizes();
      forall v: nat
        ensures IsSet(words[..], v) == (v <= MAXIMUM_PRIME)
      {
        if v / POOL_SIZE < words.Length {
          AllOnesBits(v % POOL_SIZE);
        }
      }
    }

    /** markComposite: clears the bit of `value` and no other. */
    method MarkComposite(value: Gf2.Polynomial)
      requires Valid() && value <= MAXIMUM_PRIME
      modifies words
      ensures words[..] == Cleared(old(words[..]), value)
    {
      var index := value / POOL_SIZE;
      var offset := value % POOL_SIZE;
      words[index] := ClearBit(words[index], offset);
    }

    /**
     * findNextPrime: the first set bit at or after currentPrime + 1, where
     * the increment wraps as unsigned 64-bit arithmetic does.  0 is returned
     * when no bit from there on is set, and also, after the wrap, when bit
     * 0 itself is the first set bit.
     */
    method FindNextPrime(currentPrime: Gf2.Polynomial) returns (result: Gf2.Polynomial)
      requires Valid()
      ensures var start := (currentPrime + 1) % TWO_64;
        result != 0 ==> start <= result && IsSet(words[..], result)
      ensures var start := (currentPrime + 1) % TWO_64;
        forall v: nat :: start <= v < result ==> !IsSet(words[..], v)
      ensures var start := (currentPrime + 1) % TWO_64;
        result == 0 ==> (start == 0 && IsSet(words[..], 0)) || forall v: nat :: start <= v ==> !IsSet(words[..], v)
    {
      var start: nat := (currentPrime + 1) % TWO_64;
      var index: nat := start / POOL_SIZE;
      result := 0;
      if index < words.Length {
        var offset := start % POOL_SIZE;
        var entry := BitsFrom(words[index], offset);
        if entry == 0 {
          forall v: nat | start <= v < POOL_SIZE * index + POOL_SIZE
            ensures !IsSet(words[..], v)
          {
            WordPosition(v, index);
            WordPosition(start, index);
            BitOfZero(v % POOL_SIZE);
          }
          index := index + 1;
          while index < words.Length && words[index] == 0
            invariant start / POOL_SIZE < index <= words.Length
            invariant forall v: nat :: start <= v < POOL_SIZE * index ==> !IsSet(words[..], v)
          {
            forall v: nat | POOL_SIZE * index <= v < POOL_SIZE * index + POOL_SIZE
              ensures !IsSet(words[..], v)
            {
              ZeroWordClear(words[..], index, v);
            }
            index := index + 1;
          }
          if index < words.Length {
            entry := words[index];
          } else {
            forall v: nat | start <= v
              ensures !IsSet(words[..], v)
            {
            }
          }
        }
        if index < words.Length {
          offset := Compiler.CountTrailingZeros32(entry);
          WordPosition(POOL_SIZE * index + offset, index);
          forall v: nat | POOL_SIZE * index <= v < POOL_SIZE * index + offset
            ensures start <= v ==> !IsSet(words[..], v)
          {
            WordPosition(v, index);
            assert !Bit(entry, v % POOL_SIZE);
          }
          result := POOL_SIZE * index + offset;
        }
      }
    }
  }

  // ------------------------------------------------------------- the sieve

  /**
   * The list after sieving with every prime below `bound`: bit v is set for
   * 2 <= v <= MAXIMUM_PRIME exactly when v has no proper factor below the
   * bound; 0 and 1 are clear.
   */
  ghost predicate Sieved(words: seq<Word32>, bound: nat)
  {
    |words| == MEMORY_NUMBER_POOLS && !IsSet(words, 0) && !IsSet(words, 1) &&
    forall v: nat {:trigger IsSet(words, v)} :: 2 <= v <= MAXIMUM_PRIME ==> (IsSet(words, v) <==> !(Reducible(v) && LeastFactor(v) < bound))
  }

  /** Midway through the multiples of p: those of p * p .. p * (q - 1) are cleared too. */
  ghost predicate Marking(words: seq<Word32>, p: nat, q: nat)
  {
    2 <= p <= q && |words| == MEMORY_NUMBER_POOLS && !IsSet(words, 0) && !IsSet(words, 1) &&
    forall v: nat {:trigger IsSet(words, v)} :: 2 <= v <= MAXIMUM_PRIME ==>
      (IsSet(words, v) <==> !((Reducible(v) && LeastFactor(v) < p) || MultipleBelow(p, q, v)))
  }

  /** After clearing 0 and 1 nothing has been sieved out yet. */
  lemma InitialState(words: seq<Word32>)
    requires |words| == MEMORY_NUMBER_POOLS
    requires forall v: nat :: IsSet(words, v) == (v <= MAXIMUM_PRIME && v != 0 && v != 1)
    ensures Sieved(words, 2)
  {
  }

  /** Below 2^12 gf2Multiply does not overflow: it is the true product. */
  lemma SmallProduct(p: Gf2.Polynomial, q: Gf2.Polynomial)
    requires 1 <= p <= MAXIMUM_PRIME && 1 <= q <= MAXIMUM_PRIME
    ensures Gf2.Product(p, q) == Mul(p, q)
  {
    BoundIsDegree(p);
    BoundIsDegree(q);
    Gf2.ProductDegree(p, q);
  }

  lemma StartMarking(words: seq<Word32>, p: nat)
    requires 2 <= p && Sieved(words, p)
    ensures Marking(words, p, p)
  {
  }

  /** Clearing p * q extends the cleared multiples of p by one. */
  lemma MarkStep(words: seq<Word32>, p: nat, q: nat)
    requires Marking(words, p, q) && Mul(p, q) <= MAXIMUM_PRIME
    ensures Marking(Cleared(words, Mul(p, q)), p, q + 1)
  {
    DerivedSizes();
    var words' := Cleared(words, Mul(p, q));
    ProductExceeds(p, q);
    forall v: nat | 2 <= v <= MAXIMUM_PRIME
      ensures MultipleBelow(p, q + 1, v) == (MultipleBelow(p, q, v) || v == Mul(p, q))
    {
      if MultipleBelow(p, q + 1, v) {
        var q': nat :| p <= q' < q + 1 && Mul(p, q') == v;
        if q' < q {
          assert MultipleBelow(p, q, v);
        }
      }
      if MultipleBelow(p, q, v) {
        var q': nat :| p <= q' < q && Mul(p, q') == v;
        assert p <= q' < q + 1 && Mul(p, q') == v;
      }
      if v == Mul(p, q) {
        assert p <= q < q + 1 && Mul(p, q) == v;
      }
    }
  }

  /**
   * Once p * q exceeds the bound, every v whose least factor is p has been
   * cleared, and nothing with a larger least factor has.
   */
  lemma FinishMarking(words: seq<Word32>, p: nat, q: nat)
    requires Marking(words, p, q) && MAXIMUM_PRIME < Mul(p, q)
    ensures Sieved(words, p + 1)
  {
    BoundIsDegree(0);
    forall v: nat | 2 <= v <= MAXIMUM_PRIME
      ensures (Reducible(v) && LeastFactor(v) < p) || MultipleBelow(p, q, v) <==> Reducible(v) && LeastFactor(v) < p + 1
    {
      SievingRound(p, q, v, BOUND_BITS);
    }
  }

  /** When p * p exceeds the bound, every reducible v up to it has a least factor below p. */
  lemma DoneSquare(words: seq<Word32>, p: nat)
    requires 2 <= p && Sieved(words, p) && MAXIMUM_PRIME < Mul(p, p)
    ensures Sieved(words, p + 1) && Sieved(words, MAXIMUM_PRIME + 1)
  {
    BoundIsDegree(0);
    forall v: nat | 2 <= v <= MAXIMUM_PRIME && Reducible(v)
      ensures LeastFactor(v) < p
    {
      SquareBeyondBound(p, v, BOUND_BITS);
    }
  }

  /**
   * From a list sieved below a bound past p, the first set bit after p is
   * the next irreducible polynomial, and none lies between; with no set bit
   * after p, no irreducible lies beyond p.
   */
  lemma Advance(words: seq<Word32>, p: nat, bound: nat, r: nat)
    requires 2 <= p <= MAXIMUM_PRIME && p < bound && Sieved(words, bound)
    requires r != 0 ==> (p + 1) % TWO_64 <= r && IsSet(words, r)
    requires forall v: nat :: (p + 1) % TWO_64 <= v < r ==> !IsSet(words, v)
    requires r == 0 ==> ((p + 1) % TWO_64 == 0 && IsSet(words, 0)) || forall v: nat :: (p + 1) % TWO_64 <= v ==> !IsSet(words, v)
    ensures r != 0 ==> p < r <= MAXIMUM_PRIME && Irreducible(r) && IrreduciblesUpTo(r - 1) == IrreduciblesUpTo(p)
    ensures r != 0 && bound <= r ==> Sieved(words, r)
    ensures r == 0 ==> IrreduciblesUpTo(MAXIMUM_PRIME) == IrreduciblesUpTo(p) && Sieved(words, MAXIMUM_PRIME + 1)
  {
    DerivedSizes();
    assert (p + 1) % TWO_64 == p + 1;
    var top := if r == 0 then MAXIMUM_PRIME + 1 else r;
    forall v: nat | p < v < top
      ensures !IsSet(words, v)
    {
    }
    SievedGap(words, p, bound, top);
    if r != 0 {
      if Reducible(r) {
        ReducibleIffProperFactor(r);
        LeastFactorIrreducible(r);
      }
      IrreduciblesGap(p, r - 1);
    } else {
      IrreduciblesGap(p, MAXIMUM_PRIME);
    }
  }

  /**
   * With no bit set strictly between p and top in a list sieved below a
   * bound past p, no irreducible lies there, and no least factor at or past
   * the bound lies below top.
   */
  lemma SievedGap(words: seq<Word32>, p: nat, bound: nat, top: nat)
    requires p < bound && top <= MAXIMUM_PRIME + 1 && Sieved(words, bound)
    requires forall v: nat :: p < v < top ==> !IsSet(words, v)
    ensures forall v: nat :: p < v < top ==> !Irreducible(v)
    ensures forall v: nat :: 2 <= v <= MAXIMUM_PRIME && Reducible(v) && bound <= LeastFactor(v) ==> top <= LeastFactor(v)
  {
    forall v: nat | p < v < top
      ensures !Irreducible(v)
    {
      assert !IsSet(words, v);
    }
    forall v: nat | 2 <= v <= MAXIMUM_PRIME && Reducible(v) && bound <= LeastFactor(v)
      ensures top <= LeastFactor(v)
    {
      LeastFactorIrreducible(v);
    }
  }

  /** Sieved with every prime up to the bound, the set bits are exactly the irreducibles. */
  lemma FinalState(words: seq<Word32>)
    requires Sieved(words, MAXIMUM_PRIME + 1)
    ensures forall v: nat :: IsSet(words, v) <==> 2 <= v <= MAXIMUM_PRIME && Irreducible(v)
  {
    DerivedSizes();
    forall v: nat
      ensures IsSet(words, v) <==> 2 <= v <= MAXIMUM_PRIME && Irreducible(v)
    {
      if 2 <= v <= MAXIMUM_PRIME {
        LeastFactorSpec(v);
      }
    }
  }

  /** The list up to an irreducible p is the list below it followed by p. */
  lemma AppendIrreducible(p: nat)
    requires Irreducible(p)
    ensures IrreduciblesUpTo(p) == IrreduciblesUpTo(p - 1) + [p]
  {
  }

  /**
   * One round of main's outer loop before the prime is printed: when
   * prime * prime exceeds the bound the sieve is done (and already
   * complete); otherwise prime * q is cleared for q = prime, prime + 1, ...
   * while the product stays within the bound.
   */
  method MarkMultiples(table: PrimeTable, prime: Gf2.Polynomial) returns (done: bool)
    requires table.Valid() && 2 <= prime <= MAXIMUM_PRIME && Sieved(table.words[..], prime)
    modifies table.words
    ensures Sieved(table.words[..], prime + 1)
    ensures done <==> MAXIMUM_PRIME < Mul(prime, prime)
    ensures done ==> Sieved(table.words[..], MAXIMUM_PRIME + 1)
  {
    done := false;
    var product := Gf2.Multiply(prime, prime);
    SmallProduct(prime, prime);
    if product > MAXIMUM_PRIME {
      done := true;
      DoneSquare(table.words[..], prime);
    } else {
      var q: Gf2.Polynomial := prime;
      StartMarking(table.words[..], prime);
      while true
        invariant prime <= q <= MAXIMUM_PRIME
        invariant product == Mul(prime, q) <= MAXIMUM_PRIME
        invariant Marking(table.words[..], prime, q)
        decreases MAXIMUM_PRIME - q
      {
        ghost var before := table.words[..];
        table.MarkComposite(product);
        MarkStep(before, prime, q);
        ProductExceeds(prime, q);
        q := q + 1;
        product := Gf2.Multiply(prime, q);
        SmallProduct(prime, q);
        if product > MAXIMUM_PRIME {
          FinishMarking(table.words[..], prime, q);
          break;
        }
      }
    }
  }

  /** findNextPrime on a list sieved below a bound past prime: the next irreducible polynomial, or 0 when none is left. */
  method NextIrreducible(table: PrimeTable, prime: Gf2.Polynomial, ghost bound: nat) returns (next: Gf2.Polynomial)
    requires table.Valid() && 2 <= prime <= MAXIMUM_PRIME && prime < bound && Sieved(table.words[..], bound)
    ensures next != 0 ==> prime < next <= MAXIMUM_PRIME && Irreducible(next) && IrreduciblesUpTo(next - 1) == IrreduciblesUpTo(prime)
    ensures next != 0 && bound <= next ==> Sieved(table.words[..], next)
    ensures next == 0 ==> IrreduciblesUpTo(MAXIMUM_PRIME) == IrreduciblesUpTo(prime) && Sieved(table.words[..], MAXIMUM_PRIME + 1)
  {
    next := table.FindNextPrime(prime);
    Advance(table.words[..], prime, bound, next);
  }

  /**
   * main's closing loop: every set bit after `prime` is listed, in order,
   * and the lists end with the last irreducible up to the bound.
   */
  method Drain(table: PrimeTable, prime: Gf2.Polynomial, starred: seq<nat>) returns (drained: seq<nat>)
    requires table.Valid() && Sieved(table.words[..], MAXIMUM_PRIME + 1)
    requires prime != 0 ==> 2 <= prime <= MAXIMUM_PRIME && Irreducible(prime)
    requires starred == IrreduciblesUpTo(if prime == 0 then MAXIMUM_PRIME else prime - 1)
    ensures starred + drained == IrreduciblesUpTo(MAXIMUM_PRIME)
  {
    var prime := prime;
    drained := [];
    while prime != 0
      invariant Sieved(table.words[..], MAXIMUM_PRIME + 1)
      invariant prime != 0 ==> 2 <= prime <= MAXIMUM_PRIME && Irreducible(prime)
      invariant prime != 0 ==> starred + drained == IrreduciblesUpTo(prime - 1)
      invariant prime == 0 ==> starred + drained == IrreduciblesUpTo(MAXIMUM_PRIME)
      decreases if prime == 0 then 0 else MAXIMUM_PRIME + 1 - prime
    {
      AppendIrreducible(prime);
      drained := drained + [prime];
      prime := NextIrreducible(table, prime, MAXIMUM_PRIME + 1);
    }
  }

  /** The start of main: a new list with every value up to the bound a candidate, then 0 and 1 marked composite. */
  method NewTable() returns (table: PrimeTable)
    ensures table.Valid() && fresh(table.words)
    ensures Sieved(table.words[..], 2)
  {
    DerivedSizes();
    table := new PrimeTable();
    table.Initialize();
    table.MarkComposite(0);
    table.MarkComposite(1);
    InitialState(table.words[..]);
  }

  /**
   * main: sieve with 2, 3, ... while p * p stays within the bound, then list
   * the remaining set bits.  The primes announced with "* " followed by
   * those announced with "- " are exactly the irreducible polynomials up to
   * MAXIMUM_PRIME, in increasing order, and the table ends with exactly
   * their bits set.
   */
  method Sieve() returns (table: PrimeTable, starred: seq<nat>, drained: seq<nat>)
    ensures table.Valid()
    ensures starred + drained == IrreduciblesUpTo(MAXIMUM_PRIME)
    ensures forall v: nat :: IsSet(table.words[..], v) <==> 2 <= v <= MAXIMUM_PRIME && Irreducible(v)
  {
    table := NewTable();
    var done := false;
    var prime: Gf2.Polynomial := 2;
    starred := [];
    assert Irreducible(2) by {
      ReducibleIffProperFactor(2);
    }
    while true
      invariant table.Valid()
      invariant 2 <= prime <= MAXIMUM_PRIME && Irreducible(prime)
      invariant Sieved(table.words[..], prime)
      invariant starred == IrreduciblesUpTo(prime - 1)
      decreases MAXIMUM_PRIME - prime
    {
      done := MarkMultiples(table, prime);
      AppendIrreducible(prime);
      starred := starred + [prime];
      prime := NextIrreducible(table, prime, prime + 1);
      if done || prime == 0 {
        break;
      }
    }
    drained := Drain(table, prime, starred);
    FinalState(table.words[..]);
  }
}
