/**
 * prime_list.c: the paged prime list of the disk-backed sieve.  Only odd
 * polynomials are tracked: bit k of the list stands for 2k + 1.  Bits are
 * packed 32 to a puddle, NUMBER_PUDDLES_PER_POOL puddles to a pool, each
 * pool is one file, and one pool at a time is resident in memory.  The
 * files are modelled as a map from pool index to the pool's puddles.
 */
module PrimeList {
  import opened Bits
  import opened Parameters
  import opened Puddles
  import Compiler
  import Gf2

  type Pool = seq<Word32>
  type Disk = map<nat, Pool>

  /** Bits held by the pools, the padding puddles of the last pool included. */
  const CAPACITY: nat := NUMBER_POOLS * NUMBER_PUDDLES_PER_POOL * PUDDLE_SIZE

  /** Bit i of puddle g, found in pool g / NUMBER_PUDDLES_PER_POOL at offset g % NUMBER_PUDDLES_PER_POOL. */
  predicate PuddleBit(pools: Disk, g: nat, i: nat)
  {
    var poolIndex := g / NUMBER_PUDDLES_PER_POOL;
    var poolOffset := g % NUMBER_PUDDLES_PER_POOL;
    poolIndex in pools && poolOffset < |pools[poolIndex]| && Bit(pools[poolIndex][poolOffset], i)
  }

  /** Bit k of the list: whether 2k + 1 is still taken for prime. */
  predicate ListBit(pools: Disk, k: nat)
  {
    PuddleBit(pools, k / PUDDLE_SIZE, k % PUDDLE_SIZE)
  }

  /** The pool holding bit k is present and a full pool. */
  predicate HasPoolFor(pools: Disk, k: nat)
  {
    var poolIndex := k / PUDDLE_SIZE / NUMBER_PUDDLES_PER_POOL;
    poolIndex in pools && |pools[poolIndex]| == NUMBER_PUDDLES_PER_POOL
  }

  /** Every pool of the list is present and a full pool. */
  ghost predicate Complete(pools: Disk)
  {
    forall i: nat :: i < NUMBER_POOLS ==> i in pools && |pools[i]| == NUMBER_PUDDLES_PER_POOL
  }

  ghost predicate NoneSet(pools: Disk, lo: nat, hi: nat)
  {
    forall k: nat :: lo <= k < hi ==> !ListBit(pools, k)
  }

  /** The bit index findNextPrime rebuilds from a pool index, pool offset and puddle offset. */
  function BitIndex(poolIndex: nat, poolOffset: nat, offset: nat): nat
  {
    (NUMBER_PUDDLES_PER_POOL * poolIndex + poolOffset) * PUDDLE_SIZE + offset
  }

  /** The result formula of findNextPrime inverts the index split of markComposite. */
  lemma BitIndexInverts(poolIndex: nat, poolOffset: nat, offset: nat)
    requires poolOffset < NUMBER_PUDDLES_PER_POOL && offset < PUDDLE_SIZE
    ensures
      var k := BitIndex(poolIndex, poolOffset, offset);
      k / PUDDLE_SIZE / NUMBER_PUDDLES_PER_POOL == poolIndex &&
      k / PUDDLE_SIZE % NUMBER_PUDDLES_PER_POOL == poolOffset &&
      k % PUDDLE_SIZE == offset
  {
  }

  /** A pool of all-ones puddles, as memset(0xFF) leaves it. */
  function AllOnesPool(): Pool
  {
    seq(NUMBER_PUDDLES_PER_POOL, _ => ALL_ONES)
  }

  /** The files once create mode has written pools 0 .. n - 1 over the `existing` ones. */
  function WrittenPools(existing: Disk, n: nat): Disk
  {
    if n == 0 then existing else WrittenPools(existing, n - 1)[n - 1 := AllOnesPool()]
  }

  lemma {:induction false} WrittenPoolsSpec(existing: Disk, n: nat)
    ensures forall i: nat :: i in WrittenPools(existing, n) <==> i in existing || i < n
    ensures forall i: nat :: i < n ==> WrittenPools(existing, n)[i] == AllOnesPool()
    ensures forall i: nat :: n <= i && i in existing ==> WrittenPools(existing, n)[i] == existing[i]
  {
    if n > 0 {
      WrittenPoolsSpec(existing, n - 1);
    }
  }

  /** Bit i of puddle g is bit g * PUDDLE_SIZE + i of the list. */
  lemma PuddlePosition(g: nat, i: nat)
    requires i < PUDDLE_SIZE
    ensures (g * PUDDLE_SIZE + i) / PUDDLE_SIZE == g && (g * PUDDLE_SIZE + i) % PUDDLE_SIZE == i
  {
  }

  /** Every pool of a freshly created list is full and all ones, so every bit is set. */
  lemma FreshListSpec(existing: Disk)
    ensures Complete(WrittenPools(existing, NUMBER_POOLS))
    ensures forall k: nat :: k < CAPACITY ==> ListBit(WrittenPools(existing, NUMBER_POOLS), k)
  {
    var pools := WrittenPools(existing, NUMBER_POOLS);
    WrittenPoolsSpec(existing, NUMBER_POOLS);
    DerivedSizes();
    forall k: nat | k < CAPACITY
      ensures ListBit(pools, k)
    {
      var poolIndex := k / PUDDLE_SIZE / NUMBER_PUDDLES_PER_POOL;
      assert poolIndex < NUMBER_POOLS;
      assert pools[poolIndex] == AllOnesPool();
      AllOnesBits(k % PUDDLE_SIZE);
    }
  }

  // ------------------------------------------------------------ markComposite

  /** The list after markComposite(value): bit value / 2 cleared for odd values, nothing for even ones. */
  function Marked(pools: Disk, value: nat): Disk
    requires value % 2 == 1 ==> HasPoolFor(pools, value / 2)
  {
    if value % 2 == 1 then
      var k := value / 2;
      var poolIndex := k / PUDDLE_SIZE / NUMBER_PUDDLES_PER_POOL;
      var poolOffset := k / PUDDLE_SIZE % NUMBER_PUDDLES_PER_POOL;
      var pool := pools[poolIndex];
      var cleared: Word32 := ClearBit(pool[poolOffset], k % PUDDLE_SIZE);
      var pool': Pool := pool[poolOffset := cleared];
      pools[poolIndex := pool']
    else
      pools
  }

  /**
   * markComposite clears exactly the bit of an odd value and keeps every
   * other bit and the shape of every pool; bits only ever go from 1 to 0.
   */
  lemma MarkedSpec(pools: Disk, value: nat)
    requires value % 2 == 1 ==> HasPoolFor(pools, value / 2)
    ensures forall k: nat :: ListBit(Marked(pools, value), k) == (ListBit(pools, k) && !(value % 2 == 1 && k == value / 2))
    ensures Marked(pools, value).Keys == pools.Keys
    ensures forall i: nat :: i in pools ==> |Marked(pools, value)[i]| == |pools[i]|
  {
    if value % 2 == 1 {
      forall k: nat
        ensures ListBit(Marked(pools, value), k) == (ListBit(pools, k) && k != value / 2)
      {
        MarkedBit(pools, value / 2, k);
      }
    }
  }

  /** The bit-by-bit reading of Marked, for one bit k; m is the marked bit. */
  lemma MarkedBit(pools: Disk, m: nat, k: nat)
    requires HasPoolFor(pools, m)
    ensures ListBit(Marked(pools, 2 * m + 1), k) == (ListBit(pools, k) && k != m)
  {
    var gm := m / PUDDLE_SIZE;
    var gk := k / PUDDLE_SIZE;
    assert (2 * m + 1) / 2 == m;
    if gk / NUMBER_PUDDLES_PER_POOL == gm / NUMBER_PUDDLES_PER_POOL && gk % NUMBER_PUDDLES_PER_POOL == gm % NUMBER_PUDDLES_PER_POOL {
      SameQuotientAndRemainder(gk, gm, NUMBER_PUDDLES_PER_POOL);
      SameQuotientAndRemainder(k, m, PUDDLE_SIZE);
    }
  }

  /** Marking a value twice is marking it once. */
  lemma MarkedIdempotent(pools: Disk, value: nat)
    requires value % 2 == 1 ==> HasPoolFor(pools, value / 2)
    ensures value % 2 == 1 ==> HasPoolFor(Marked(pools, value), value / 2)
    ensures Marked(Marked(pools, value), value) == Marked(pools, value)
  {
    if value % 2 == 1 {
      var k := value / 2;
      var poolIndex := k / PUDDLE_SIZE / NUMBER_PUDDLES_PER_POOL;
      var poolOffset := k / PUDDLE_SIZE % NUMBER_PUDDLES_PER_POOL;
      var once := Marked(pools, value);
      var cleared := ClearBit(pools[poolIndex][poolOffset], k % PUDDLE_SIZE);
      ClearBitIdempotent(pools[poolIndex][poolOffset], k % PUDDLE_SIZE);
      assert once[poolIndex][poolOffset] == cleared;
      assert once[poolIndex][poolOffset := ClearBit(cleared, k % PUDDLE_SIZE)] == once[poolIndex];
      assert once[poolIndex := once[poolIndex]] == once;
    }
  }

  // ------------------------------------------------------------- the scan

  /**
   * `entry` holds the bits of puddle g that lie at or after bit `start`
   * of the list.
   */
  ghost predicate EntryOf(pools: Disk, start: nat, g: nat, entry: nat)
  {
    forall i: nat :: Bit(entry, i) == (i < PUDDLE_SIZE && start <= g * PUDDLE_SIZE + i && PuddleBit(pools, g, i))
  }

  /**
   * The position of the scan: pool poolIndex, puddle poolOffset within it
   * (NUMBER_PUDDLES_PER_POOL once the pool is used up), every bit from
   * `start` up to that puddle clear, and `entry` the puddle's bits from
   * `start` on.
   */
  ghost predicate ScanState(pools: Disk, start: nat, poolIndex: nat, poolOffset: nat, entry: nat)
  {
    var g := NUMBER_PUDDLES_PER_POOL * poolIndex + poolOffset;
    poolIndex <= NUMBER_POOLS && poolOffset <= NUMBER_PUDDLES_PER_POOL &&
    start / PUDDLE_SIZE <= g && NoneSet(pools, start, g * PUDDLE_SIZE) &&
    (poolIndex == NUMBER_POOLS || poolOffset == NUMBER_PUDDLES_PER_POOL ==> start <= g * PUDDLE_SIZE) &&
    (poolIndex < NUMBER_POOLS && poolOffset < NUMBER_PUDDLES_PER_POOL ==> EntryOf(pools, start, g, entry)) &&
    (poolIndex == NUMBER_POOLS || poolOffset == NUMBER_PUDDLES_PER_POOL ==> entry == 0)
  }

  /** The first puddle, with the bits below `start` masked off. */
  lemma FirstEntry(pools: Disk, start: nat, pool: Pool)
    requires start / PUDDLE_SIZE < NUMBER_PUDDLES
    requires start / PUDDLE_SIZE / NUMBER_PUDDLES_PER_POOL in pools
    requires pools[start / PUDDLE_SIZE / NUMBER_PUDDLES_PER_POOL] == pool && |pool| == NUMBER_PUDDLES_PER_POOL
    ensures
      var g := start / PUDDLE_SIZE;
      ScanState(pools, start, g / NUMBER_PUDDLES_PER_POOL, g % NUMBER_PUDDLES_PER_POOL,
                BitsFrom(pool[g % NUMBER_PUDDLES_PER_POOL], start % PUDDLE_SIZE))
  {
    var g := start / PUDDLE_SIZE;
    var w := pool[g % NUMBER_PUDDLES_PER_POOL];
    DerivedSizes();
    forall i: nat
      ensures Bit(BitsFrom(w, start % PUDDLE_SIZE), i) == (i < PUDDLE_SIZE && start <= g * PUDDLE_SIZE + i && PuddleBit(pools, g, i))
    {
      WordBits(w, i);
    }
  }

  /** The inner do-while: one more puddle of the resident pool, found empty so far. */
  lemma NextPuddle(pools: Disk, start: nat, poolIndex: nat, poolOffset: nat, pool: Pool)
    requires ScanState(pools, start, poolIndex, poolOffset, 0)
    requires poolIndex < NUMBER_POOLS && poolOffset < NUMBER_PUDDLES_PER_POOL
    requires poolIndex in pools && pools[poolIndex] == pool && |pool| == NUMBER_PUDDLES_PER_POOL
    ensures ScanState(pools, start, poolIndex, poolOffset + 1,
                      if poolOffset + 1 < NUMBER_PUDDLES_PER_POOL then pool[poolOffset + 1] else 0)
  {
    var g := NUMBER_PUDDLES_PER_POOL * poolIndex + poolOffset;
    forall k: nat | g * PUDDLE_SIZE <= k < (g + 1) * PUDDLE_SIZE
      ensures !(start <= k && ListBit(pools, k))
    {
      var i := k - g * PUDDLE_SIZE;
      BitOfZero(i);
      PuddlePosition(g, i);
    }
    if poolOffset + 1 < NUMBER_PUDDLES_PER_POOL {
      var w := pool[poolOffset + 1];
      forall i: nat
        ensures Bit(w, i) == (i < PUDDLE_SIZE && start <= (g + 1) * PUDDLE_SIZE + i && PuddleBit(pools, g + 1, i))
      {
        WordBits(w, i);
      }
    }
  }

  /** The outer do-while: the next pool, once the resident one is used up. */
  lemma NextPool(pools: Disk, start: nat, poolIndex: nat, pool: Pool)
    requires ScanState(pools, start, poolIndex, NUMBER_PUDDLES_PER_POOL, 0) && poolIndex < NUMBER_POOLS
    requires poolIndex + 1 < NUMBER_POOLS ==>
      poolIndex + 1 in pools && pools[poolIndex + 1] == pool && |pool| == NUMBER_PUDDLES_PER_POOL
    ensures ScanState(pools, start, poolIndex + 1, 0, if poolIndex + 1 < NUMBER_POOLS then pool[0] else 0)
  {
    var g := NUMBER_PUDDLES_PER_POOL * (poolIndex + 1);
    if poolIndex + 1 < NUMBER_POOLS {
      var w := pool[0];
      forall i: nat
        ensures Bit(w, i) == (i < PUDDLE_SIZE && start <= g * PUDDLE_SIZE + i && PuddleBit(pools, g, i))
      {
        WordBits(w, i);
      }
    }
  }

  /** The lowest set bit of a nonempty entry is the first set bit of the list at or after `start`. */
  lemma FoundEntry(pools: Disk, start: nat, poolIndex: nat, poolOffset: nat, entry: nat, t: nat)
    requires ScanState(pools, start, poolIndex, poolOffset, entry) && poolIndex < NUMBER_POOLS
    requires entry != 0 && Compiler.IsTrailingZeroCount(entry, 32, t)
    ensures poolOffset < NUMBER_PUDDLES_PER_POOL && t < PUDDLE_SIZE
    ensures
      var k := BitIndex(poolIndex, poolOffset, t);
      start <= k < CAPACITY && ListBit(pools, k) && NoneSet(pools, start, k)
  {
    var g := NUMBER_PUDDLES_PER_POOL * poolIndex + poolOffset;
    assert Bit(entry, t);
    PuddlePosition(g, t);
    DerivedSizes();
    forall k: nat | g * PUDDLE_SIZE <= k < g * PUDDLE_SIZE + t
      ensures !(start <= k && ListBit(pools, k))
    {
      var i := k - g * PUDDLE_SIZE;
      assert !Bit(entry, i);
      PuddlePosition(g, i);
    }
  }

  /** A scan that ran past the last pool found every bit from `start` on clear. */
  lemma ScanExhausted(pools: Disk, start: nat, poolOffset: nat, entry: nat)
    requires ScanState(pools, start, NUMBER_POOLS, poolOffset, entry)
    ensures NoneSet(pools, start, CAPACITY)
  {
  }

  // ------------------------------------------------------------- the class

  /** The state of prime_list.c: the resident pool, its index, its dirty flag, and the pool files. */
  class PagedList {
    /** inMemoryPool */
    const inMemoryPool: array<Word32>
    /** inMemoryPoolIndex; NO_POOL before the first pool is read in open mode. */
    var inMemoryPoolIndex: nat
    /** inMemoryPoolIsDirty */
    var inMemoryPoolIsDirty: bool
    /** The pool files, by pool index. */
    var disk: Disk

    ghost predicate Valid()
      reads this, inMemoryPool
    {
      inMemoryPool.Length == NUMBER_PUDDLES_PER_POOL &&
      (inMemoryPoolIndex == NO_POOL ==> !inMemoryPoolIsDirty) &&
      (inMemoryPoolIndex != NO_POOL ==>
         inMemoryPoolIndex in disk && |disk[inMemoryPoolIndex]| == NUMBER_PUDDLES_PER_POOL &&
         (!inMemoryPoolIsDirty ==> disk[inMemoryPoolIndex] == inMemoryPool[..]))
    }

    /** The list as the program sees it: the files, with the resident pool in place of its file while it is dirty. */
    function Pools(): Disk
      reads this, inMemoryPool
    {
      if inMemoryPoolIsDirty then disk[inMemoryPoolIndex := inMemoryPool[..]] else disk
    }

    lemma ResidentPool()
      requires Valid() && inMemoryPoolIndex != NO_POOL
      ensures inMemoryPoolIndex in Pools() && Pools()[inMemoryPoolIndex] == inMemoryPool[..]
    {
    }

    /** flushInMemoryPool (prime_list.c:70-87): write the resident pool back exactly when it is dirty. */
    method Flush()
      requires Valid()
      modifies this
      ensures Valid() && !inMemoryPoolIsDirty && inMemoryPoolIndex == old(inMemoryPoolIndex)
      ensures old(inMemoryPoolIsDirty) ==> disk == old(disk)[old(inMemoryPoolIndex) := old(inMemoryPool[..])]
      ensures !old(inMemoryPoolIsDirty) ==> disk == old(disk)
      ensures disk == old(Pools()) && Pools() == old(Pools())
    {
      if inMemoryPoolIsDirty {
        disk := disk[inMemoryPoolIndex := inMemoryPool[..]];
        inMemoryPoolIsDirty := false;
      }
    }

    /**
     * checkIfCached (prime_list.c:90-109): make pool newIndex resident,
     * flushing and reloading only when it is not resident already.  A pool
     * file that is missing or short stops the program, so it is a
     * precondition here.
     */
    method CheckIfCached(newIndex: nat)
      requires Valid()
      requires newIndex != inMemoryPoolIndex ==> newIndex in Pools() && |Pools()[newIndex]| == NUMBER_PUDDLES_PER_POOL
      modifies this, inMemoryPool
      ensures Valid() && inMemoryPoolIndex == newIndex && Pools() == old(Pools())
      ensures newIndex == old(inMemoryPoolIndex) ==> unchanged(this) && unchanged(inMemoryPool)
      ensures newIndex != old(inMemoryPoolIndex) ==>
        disk == old(Pools()) && !inMemoryPoolIsDirty && inMemoryPool[..] == old(Pools())[newIndex]
    {
      if newIndex != inMemoryPoolIndex {
        Flush();
        var loaded := disk[newIndex];
        forall i | 0 <= i < NUMBER_PUDDLES_PER_POOL {
          inMemoryPool[i] := loaded[i];
        }
        assert inMemoryPool[..] == loaded;
        inMemoryPoolIndex := newIndex;
      }
    }

    /**
     * initializePrimeList in create mode (prime_list.c:119-140): every pool
     * file is (re)written all ones, and pool 0 is resident and clean.
     */
    constructor Create(existing: Disk)
      ensures Valid() && fresh(inMemoryPool)
      ensures inMemoryPoolIndex == 0 && !inMemoryPoolIsDirty && inMemoryPool[..] == AllOnesPool()
      ensures disk == WrittenPools(existing, NUMBER_POOLS)
      ensures Complete(Pools()) && forall k: nat :: k < CAPACITY ==> ListBit(Pools(), k)
    {
      var pool := new Word32[NUMBER_PUDDLES_PER_POOL](_ => ALL_ONES);
      assert pool[..] == AllOnesPool();
      var files := existing;
      var poolIndex: nat := 0;
      while poolIndex < NUMBER_POOLS
        invariant poolIndex <= NUMBER_POOLS
        invariant files == WrittenPools(existing, poolIndex)
      {
        files := files[poolIndex := pool[..]];
        poolIndex := poolIndex + 1;
      }
      WrittenPoolsSpec(existing, NUMBER_POOLS);
      FreshListSpec(existing);
      inMemoryPool := pool;
      inMemoryPoolIndex := 0;
      inMemoryPoolIsDirty := false;
      disk := files;
    }

    /**
     * initializePrimeList in open mode (prime_list.c:141-146): no pool is
     * resident, so reading pool 0 always happens.
     */
    constructor Open(existing: Disk)
      requires 0 in existing && |existing[0]| == NUMBER_PUDDLES_PER_POOL
      ensures Valid() && fresh(inMemoryPool)
      ensures inMemoryPoolIndex == 0 && !inMemoryPoolIsDirty && inMemoryPool[..] == existing[0]
      ensures disk == existing && Pools() == existing
    {
      inMemoryPool := new Word32[NUMBER_PUDDLES_PER_POOL];
      inMemoryPoolIndex := NO_POOL;
      inMemoryPoolIsDirty := false;
      disk := existing;
      new;
      CheckIfCached(0);
    }

    /** terminatePrimeList (prime_list.c:150-160): afterwards the files alone hold the list. */
    method Terminate()
      requires Valid()
      modifies this
      ensures Valid() && !inMemoryPoolIsDirty
      ensures disk == old(Pools()) && Pools() == old(Pools())
    {
      Flush();
    }

    /** markComposite (prime_list.c:163-177). */
    method MarkComposite(value: Gf2.Polynomial)
      requires Valid()
      requires value % 2 == 1 ==> HasPoolFor(Pools(), value / 2)
      modifies this, inMemoryPool
      ensures Valid() && Pools() == Marked(old(Pools()), value)
      ensures value % 2 == 1 ==> inMemoryPoolIsDirty && inMemoryPoolIndex == value / 2 / PUDDLE_SIZE / NUMBER_PUDDLES_PER_POOL
      ensures value % 2 == 0 ==> unchanged(this) && unchanged(inMemoryPool)
    {
      if value % 2 == 1 {
        var v: nat := value / 2;
        var puddleIndex: nat := v / PUDDLE_SIZE;
        var offset: nat := v % PUDDLE_SIZE;
        var poolIndex: nat := puddleIndex / NUMBER_PUDDLES_PER_POOL;
        var poolOffset: nat := puddleIndex % NUMBER_PUDDLES_PER_POOL;
        ghost var before := Pools();
        CheckIfCached(poolIndex);
        ResidentPool();
        inMemoryPool[poolOffset] := ClearBit(inMemoryPool[poolOffset], offset);
        inMemoryPoolIsDirty := true;
        assert Pools() == before[poolIndex := before[poolIndex][poolOffset := ClearBit(before[poolIndex][poolOffset], offset)]];
      }
    }

    /**
     * isPrime as written (prime_list.c:180-195): the mask `~(1 << offset)`
     * selects the other 31 bits of the puddle, so the answer is whether some
     * other value sharing the puddle is still taken for prime.
     */
    method IsPrimeAsWritten(value: Gf2.Polynomial) returns (result: bool)
      requires Valid()
      requires value % 2 == 1 ==> HasPoolFor(Pools(), value / 2)
      modifies this, inMemoryPool
      ensures Valid() && Pools() == old(Pools())
      ensures result == (value % 2 == 1 &&
        exists i: nat :: i < PUDDLE_SIZE && i != value / 2 % PUDDLE_SIZE && PuddleBit(Pools(), value / 2 / PUDDLE_SIZE, i))
    {
      if value % 2 == 1 {
        var v: nat := value / 2;
        var puddleIndex: nat := v / PUDDLE_SIZE;
        var offset: nat := v % PUDDLE_SIZE;
        var poolIndex: nat := puddleIndex / NUMBER_PUDDLES_PER_POOL;
        var poolOffset: nat := puddleIndex % NUMBER_PUDDLES_PER_POOL;
        CheckIfCached(poolIndex);
        ResidentPool();
        var entry := ClearBit(inMemoryPool[poolOffset], offset);
        result := entry != 0;
        NonzeroIffSomeBit(entry);
        forall i: nat
          ensures Bit(entry, i) == (i < PUDDLE_SIZE && i != offset && PuddleBit(Pools(), puddleIndex, i))
        {
          WordBits(inMemoryPool[poolOffset], i);
        }
      } else {
        result := false;
      }
    }

    /** isPrime as documented (prime_list.h:70): the bit of the value itself. */
    method IsPrime(value: Gf2.Polynomial) returns (result: bool)
      requires Valid()
      requires value % 2 == 1 ==> HasPoolFor(Pools(), value / 2)
      modifies this, inMemoryPool
      ensures Valid() && Pools() == old(Pools())
      ensures result == (value % 2 == 1 && ListBit(Pools(), value / 2))
    {
      if value % 2 == 1 {
        var v: nat := value / 2;
        var puddleIndex: nat := v / PUDDLE_SIZE;
        var offset: nat := v % PUDDLE_SIZE;
        var poolIndex: nat := puddleIndex / NUMBER_PUDDLES_PER_POOL;
        var poolOffset: nat := puddleIndex % NUMBER_PUDDLES_PER_POOL;
        CheckIfCached(poolIndex);
        ResidentPool();
        var entry := SelectBit(inMemoryPool[poolOffset], offset);
        result := entry != 0;
        NonzeroIffSomeBit(entry);
        assert ListBit(Pools(), v) == Bit(inMemoryPool[poolOffset], offset);
      } else {
        result := false;
      }
    }

    /**
     * The scan of findNextPrime (prime_list.c:207-243): the first set bit
     * at or after `start` in any puddle of any pool, padding included.
     */
    method ScanFrom(start: nat) returns (found: bool, k: nat)
      requires Valid() && Complete(Pools()) && start / PUDDLE_SIZE < NUMBER_PUDDLES
      modifies this, inMemoryPool
      ensures Valid() && Pools() == old(Pools())
      ensures found ==> start <= k < CAPACITY && ListBit(Pools(), k) && NoneSet(Pools(), start, k)
      ensures !found ==> NoneSet(Pools(), start, CAPACITY)
    {
      ghost var pools := Pools();
      var poolIndex: nat, poolOffset: nat, entry: Word32 := LoadFirstPool(start);
      if entry == 0 {
        // The do-while's first test holds here, so it runs as a while loop.
        while poolIndex < NUMBER_POOLS && entry == 0
          invariant Valid() && Pools() == pools
          invariant ScanState(pools, start, poolIndex, poolOffset, entry)
          invariant poolIndex < NUMBER_POOLS ==> poolOffset < NUMBER_PUDDLES_PER_POOL && inMemoryPoolIndex == poolIndex
          decreases NUMBER_POOLS * NUMBER_PUDDLES_PER_POOL - (NUMBER_PUDDLES_PER_POOL * poolIndex + poolOffset)
        {
          poolOffset, entry := ScanPuddles(pools, start, poolIndex, poolOffset);
          if poolOffset >= NUMBER_PUDDLES_PER_POOL {
            entry := LoadNextPool(pools, start, poolIndex);
            poolIndex := poolIndex + 1;
            poolOffset := 0;
          }
        }
      }
      if poolIndex < NUMBER_POOLS {
        var offset := Compiler.CountTrailingZeros32(entry);
        FoundEntry(pools, start, poolIndex, poolOffset, entry, offset);
        k := BitIndex(poolIndex, poolOffset, offset);
        found := true;
      } else {
        ScanExhausted(pools, start, poolOffset, entry);
        found := false;
        k := 0;
      }
    }

    /**
     * The start of findNextPrime: the pool holding bit `start` is made
     * resident and its puddle read with the bits below `start` masked off.
     */
    method LoadFirstPool(start: nat) returns (poolIndex: nat, poolOffset: nat, entry: Word32)
      requires Valid() && Complete(Pools()) && start / PUDDLE_SIZE < NUMBER_PUDDLES
      modifies this, inMemoryPool
      ensures Valid() && Pools() == old(Pools()) && ScanState(Pools(), start, poolIndex, poolOffset, entry)
      ensures poolIndex < NUMBER_POOLS && poolOffset < NUMBER_PUDDLES_PER_POOL && inMemoryPoolIndex == poolIndex
    {
      ghost var pools := Pools();
      var puddleIndex: nat := start / PUDDLE_SIZE;
      poolIndex := puddleIndex / NUMBER_PUDDLES_PER_POOL;
      poolOffset := puddleIndex % NUMBER_PUDDLES_PER_POOL;
      var offset: nat := start % PUDDLE_SIZE;
      CheckIfCached(poolIndex);
      ResidentPool();
      FirstEntry(pools, start, inMemoryPool[..]);
      entry := BitsFrom(inMemoryPool[poolOffset], offset);
    }

    /**
     * The outer do-while of findNextPrime moving past a pool with no set
     * bit: the next pool, if any, is made resident and its first puddle read.
     */
    method LoadNextPool(ghost pools: Disk, start: nat, finished: nat) returns (entry: Word32)
      requires Valid() && Pools() == pools && Complete(pools) && finished < NUMBER_POOLS
      requires ScanState(pools, start, finished, NUMBER_PUDDLES_PER_POOL, 0)
      modifies this, inMemoryPool
      ensures Valid() && Pools() == pools && ScanState(pools, start, finished + 1, 0, entry)
      ensures finished + 1 < NUMBER_POOLS ==> inMemoryPoolIndex == finished + 1
    {
      if finished + 1 < NUMBER_POOLS {
        CheckIfCached(finished + 1);
        ResidentPool();
        NextPool(pools, start, finished, inMemoryPool[..]);
        entry := inMemoryPool[0];
      } else {
        NextPool(pools, start, finished, []);
        entry := 0;
      }
    }

    /**
     * The inner do-while of findNextPrime: the puddles of the resident pool
     * from poolOffset on are read until one is nonzero or the pool ends.
     */
    method ScanPuddles(ghost pools: Disk, start: nat, poolIndex: nat, from: nat) returns (poolOffset: nat, entry: Word32)
      requires Valid() && Pools() == pools && poolIndex < NUMBER_POOLS && inMemoryPoolIndex == poolIndex
      requires from < NUMBER_PUDDLES_PER_POOL && ScanState(pools, start, poolIndex, from, 0)
      ensures from < poolOffset && ScanState(pools, start, poolIndex, poolOffset, entry)
      ensures poolOffset < NUMBER_PUDDLES_PER_POOL ==> entry != 0
    {
      poolOffset := from;
      entry := 0;
      while poolOffset < NUMBER_PUDDLES_PER_POOL && entry == 0
        invariant ScanState(pools, start, poolIndex, poolOffset, entry)
        invariant from <= poolOffset && (poolOffset == from ==> entry == 0 && poolOffset < NUMBER_PUDDLES_PER_POOL)
        decreases NUMBER_PUDDLES_PER_POOL - poolOffset
      {
        ResidentPool();
        NextPuddle(pools, start, poolIndex, poolOffset, inMemoryPool[..]);
        poolOffset := poolOffset + 1;
        if poolOffset < NUMBER_PUDDLES_PER_POOL {
          entry := inMemoryPool[poolOffset];
        }
      }
    }

    /**
     * findNextPrime as written (prime_list.c:198-250): the scan starts at
     * bit (currentPrime >> 1) + 1, and the last pool is scanned to its end.
     */
    method FindNextPrimeAsWritten(currentPrime: Gf2.Polynomial) returns (result: Gf2.Polynomial)
      requires Valid() && Complete(Pools())
      modifies this, inMemoryPool
      ensures Valid() && Pools() == old(Pools())
      ensures result != 0 ==>
        result % 2 == 1 && currentPrime / 2 + 1 <= result / 2 < CAPACITY &&
        ListBit(Pools(), result / 2) && NoneSet(Pools(), currentPrime / 2 + 1, result / 2)
      ensures result == 0 ==>
        NUMBER_PUDDLES * PUDDLE_SIZE <= currentPrime / 2 + 1 || NoneSet(Pools(), currentPrime / 2 + 1, CAPACITY)
    {
      var cp := currentPrime / 2;
      var puddleIndex := (cp + 1) / PUDDLE_SIZE;
      result := 0;
      if puddleIndex < NUMBER_PUDDLES {
        var found, k := ScanFrom(cp + 1);
        if found {
          DerivedSizes();
          result := 2 * k + 1;
        }
      }
    }

    /**
     * findNextPrime as prime_list.h:81 documents it: the smallest odd value
     * above currentPrime, and within MAXIMUM_PRIME, whose bit is set, or 0.
     * The scan starts at bit (currentPrime + 1) / 2, computed without
     * overflow, and a bit found in the padding counts as none.
     */
    method FindNextPrime(currentPrime: Gf2.Polynomial) returns (result: Gf2.Polynomial)
      requires Valid() && Complete(Pools())
      modifies this, inMemoryPool
      ensures Valid() && Pools() == old(Pools())
      ensures result != 0 ==>
        currentPrime < result <= MAXIMUM_PRIME && result % 2 == 1 && ListBit(Pools(), result / 2)
      ensures forall w: nat :: currentPrime < w <= MAXIMUM_PRIME && w % 2 == 1 && (result == 0 || w < result) ==>
        !ListBit(Pools(), w / 2)
    {
      var start := currentPrime / 2 + currentPrime % 2;
      var puddleIndex: nat := start / PUDDLE_SIZE;
      result := 0;
      DerivedSizes();
      if puddleIndex < NUMBER_PUDDLES {
        var found, k := ScanFrom(start);
        if found && 2 * k + 1 <= MAXIMUM_PRIME {
          result := 2 * k + 1;
        }
      }
    }
  }

  // ------------------------------------------------ findings, as witnessed

  /** A fresh list, 3 marked composite: isPrime as written still answers "prime"; the corrected test does not. */
  method IsPrimeAfterMarking() returns (asWritten: bool, corrected: bool)
    ensures asWritten && !corrected
  {
    var list := new PagedList.Create(map[]);
    ghost var before := list.Pools();
    list.MarkComposite(3);
    MarkedSpec(before, 3);
    ghost var marked := list.Pools();
    assert 3 / 2 == 1 && 1 / PUDDLE_SIZE == 0 && 1 % PUDDLE_SIZE == 1;
    assert ListBit(marked, 0) && !ListBit(marked, 1);
    assert PuddleBit(marked, 0, 0);
    asWritten := list.IsPrimeAsWritten(3);
    corrected := list.IsPrime(3);
  }

  /** On a fresh list, findNextPrime(2) as written returns 5 and so skips 3; the corrected start finds 3. */
  method FindNextPrimeAfterTwo() returns (asWritten: Gf2.Polynomial, corrected: Gf2.Polynomial)
    ensures asWritten == 5 && corrected == 3
  {
    var list := new PagedList.Create(map[]);
    DerivedSizes();
    assert ListBit(list.Pools(), 1) && ListBit(list.Pools(), 2);
    asWritten := list.FindNextPrimeAsWritten(2);
    corrected := list.FindNextPrime(2);
    assert ListBit(list.Pools(), 3 / 2);
  }

  /**
   * With MAXIMUM_PRIME marked, findNextPrime(MAXIMUM_PRIME - 2) as written
   * runs into the all-ones padding and returns MAXIMUM_PRIME + 2; the
   * corrected scan reports that no prime is left.
   */
  method FindNextPrimeIntoPadding() returns (asWritten: Gf2.Polynomial, corrected: Gf2.Polynomial)
    ensures asWritten == MAXIMUM_PRIME + 2 && corrected == 0
  {
    DerivedSizes();
    var list := new PagedList.Create(map[]);
    assert ListBit(list.Pools(), NUMBER_BITS + 1);
    ghost var before := list.Pools();
    list.MarkComposite(MAXIMUM_PRIME);
    MarkedSpec(before, MAXIMUM_PRIME);
    asWritten := list.FindNextPrimeAsWritten(MAXIMUM_PRIME - 2);
    corrected := list.FindNextPrime(MAXIMUM_PRIME - 2);
  }

  /** terminatePrimeList, then initializePrimeList in open mode, reproduces the list. */
  method TerminateThenOpen(list: PagedList) returns (reopened: PagedList)
    requires list.Valid() && 0 in list.Pools() && |list.Pools()[0]| == NUMBER_PUDDLES_PER_POOL
    modifies list
    ensures fresh(reopened) && reopened.Valid() && reopened.Pools() == old(list.Pools())
  {
    list.Terminate();
    reopened := new PagedList.Open(list.disk);
  }
}
