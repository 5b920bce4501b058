/**
 * parameters.h and the sizes derived from it in prime_list.c and
 * sieve_of_eratosthenes_memory_gf2.c.  The shipped values (a bound of
 * 2^34 - 1 and 1 GiB pools) are replaced by small ones.  The bound is still
 * 2^n - 1, so "product <= bound" is a degree condition.  The pool size is
 * chosen so that it does not divide the list: the last pool then has
 * padding puddles beyond the bound.  With the shipped values a single pool
 * holds the whole list exactly, and there is no padding.
 */
module Parameters {
  import opened Bits

  /** n, with MAXIMUM_PRIME == 2^n - 1. */
  const BOUND_BITS: nat := 12

  /** MAXIMUM_PRIME: the largest polynomial the sieves consider. */
  const MAXIMUM_PRIME: nat := 4095

  /** PUDDLE_SIZE: bits per puddle word (PuddleEntry is uint32_t). */
  const PUDDLE_SIZE: nat := 32

  /** POOL_SIZE_IN_BYTES: bytes per pool file and per in-memory pool. */
  const POOL_SIZE_IN_BYTES: nat := 12

  /** NUMBER_PUDDLES_PER_POOL (prime_list.c:39). */
  const NUMBER_PUDDLES_PER_POOL: nat := 3

  /** NUMBER_BITS (prime_list.c:40): odd values only, bit k standing for 2k + 1. */
  const NUMBER_BITS: nat := 2047

  /** NUMBER_PUDDLES (prime_list.c:41). */
  const NUMBER_PUDDLES: nat := 64

  /** NUMBER_POOLS (prime_list.c:42). */
  const NUMBER_POOLS: nat := 22

  /** (unsigned long) -1, the "no pool resident" index of prime_list.c:142. */
  const NO_POOL: nat := TWO_64 - 1

  /** POOL_SIZE (sieve_of_eratosthenes_memory_gf2.c:45): bits per word of the flat list. */
  const POOL_SIZE: nat := 32

  /** NUMBER_POOLS of sieve_of_eratosthenes_memory_gf2.c:52: words of the flat list, one bit per value. */
  const MEMORY_NUMBER_POOLS: nat := 128

  /**
   * The sizes above are the source's macros evaluated on the parameters:
   * prime_list.c:39-42 and sieve_of_eratosthenes_memory_gf2.c:52.  The
   * last pool has two padding puddles, and the flat list of the in-memory
   * sieve ends exactly at MAXIMUM_PRIME.
   */
  lemma DerivedSizes()
    ensures NUMBER_PUDDLES_PER_POOL == POOL_SIZE_IN_BYTES / (PUDDLE_SIZE / 8)
    ensures NUMBER_BITS == MAXIMUM_PRIME / 2
    ensures NUMBER_PUDDLES == (NUMBER_BITS + PUDDLE_SIZE - 1) / PUDDLE_SIZE
    ensures NUMBER_POOLS == (NUMBER_PUDDLES + NUMBER_PUDDLES_PER_POOL - 1) / NUMBER_PUDDLES_PER_POOL
    ensures MEMORY_NUMBER_POOLS == (MAXIMUM_PRIME + POOL_SIZE - 1) / POOL_SIZE
    ensures NUMBER_POOLS * NUMBER_PUDDLES_PER_POOL == NUMBER_PUDDLES + 2
    ensures MEMORY_NUMBER_POOLS * POOL_SIZE == MAXIMUM_PRIME + 1
    ensures 2 * (NUMBER_PUDDLES * PUDDLE_SIZE) - 1 == MAXIMUM_PRIME
  {
  }

  /** The bound is all ones below bit n: p <= MAXIMUM_PRIME exactly when p has at most n bits. */
  lemma BoundIsDegree(p: nat)
    ensures MAXIMUM_PRIME == Pow2(BOUND_BITS) - 1
    ensures p <= MAXIMUM_PRIME <==> BitLen(p) <= BOUND_BITS
  {
    assert Pow2(12) == 4096 by {
      assert Pow2(2) == 4;
      Pow2Add(2, 2);
      Pow2Add(4, 4);
      Pow2Add(8, 4);
    }
    BitLenBound(p, BOUND_BITS);
  }
}
