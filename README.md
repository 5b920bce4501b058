# Sieve of Eratosthenes over GF(2), modelled in Dafny

This project models the core of a C program that finds the irreducible
("prime") polynomials over GF(2) with a sieve of Eratosthenes. A polynomial
is a 64-bit word whose bit i is the coefficient of x^i. The product of two
polynomials is their carry-less product, and "composite" means "a product of
two polynomials of degree at least 1". The model covers:

- the GF(2) arithmetic of `gf2.h`/`gf2.c`: add, multiply, divide and
  remainder;
- the portable bit-count fallbacks of `compiler.c`, and the counts
  `compiler.h` documents, which the GCC builtins meet;
- the paged prime list of `prime_list.c`. It keeps odd values only, one bit
  each, in 32-bit puddles. The puddles are grouped into pools, which are
  files on disk, and one pool at a time is cached in memory;
- the in-memory sieve (`sieve_of_eratosthenes_memory_gf2.c`);
- the main loop of the paged sieve (`sieve_of_eratosthenes_gf2.c`);
- the command-line parser of `cmdline.c`.

Modules, one file each:

- `Bits` (bits.dfy): machine words as natural numbers. The C bit operators
  are defined and characterised bit by bit.
- `Gf2Math` (gf2_math.dfy): the untruncated carry-less product and its
  algebra.
- `Compiler` (compiler.dfy): leading and trailing zero counts.
- `Gf2` (gf2.dfy): gf2Add, gf2Multiply, mantissaSizeInBits, gf2Divide and
  gf2Remainder.
- `Parameters` (parameters.dfy): the sizes of `parameters.h` and the macros
  derived from them.
- `Puddles` (puddles.dfy): the single-word masks both prime lists use.
- `Irreducibility` (irreducible.dfy): what the sieves compute, namely
  irreducibility, least factors, and the ordered list of irreducibles up to
  a bound.
- `PrimeList` (prime_list.dfy): the paged list, as the class `PagedList`.
  The pool files are a map from pool index to pool contents.
- `MemorySieve` (sieve_memory.dfy): the flat list, as the class
  `PrimeTable`, and main as `Sieve`.
- `PagedSieve` (sieve_paged.dfy): main of the paged sieve.
- `CmdLine` (cmdline.dfy): cmdLineParse, deleteParameter, buildExitCode and
  the two exit-value decoders.

Both sieves are proved to end with exactly the irreducible polynomials up to
MAXIMUM_PRIME marked. For the in-memory sieve, the two lists main prints are
proved to be those polynomials in increasing order.

## Model

| member | source | states |
|---|---|---|
| Parameters.DerivedSizes | prime_list.c:39-42 | the pool, puddle and bit counts are the source's macros evaluated on the parameters; the last pool has two padding puddles and the flat in-memory list ends exactly at MAXIMUM_PRIME |
| Parameters.BoundIsDegree | parameters.h:37 | MAXIMUM_PRIME is 2^n - 1, so `product <= MAXIMUM_PRIME` holds exactly when the product has degree below n |
| Compiler.CountLeadingZeros | compiler.h:44-58 | the documented leading-zero count of a w-bit word: bits above the result are clear, and the bit just below them is set (or the result is the width when the word is 0) |
| Compiler.CountTrailingZeros | compiler.h:99-105 | the documented count, which the builtins on the GCC branch meet: the bits below the result are clear, and the bit at the result is set (or the result is the width when the word is 0) |
| Compiler.ZeroCountsUnique | compiler.h:91-105 | each zero count is determined by the word, so the portable and builtin versions can only agree by computing the same number |
| Compiler.LeadingZerosFromBitLen | compiler.h:44-58 | the leading-zero count of a word is its width minus its number of significant bits |
| Compiler.TrailingZerosScan | compiler.c:74-94 | the halving-window search returns the number of trailing zero bits of any word of the given width, and the width for 0 |
| Compiler.CountTrailingZeros32 | compiler.c:74-94 | countTrailingZeros32 returns the trailing-zero count of every 32-bit word |
| Compiler.CountTrailingZeros64 | compiler.c:97-117 | the 64-bit version (declared as a second countTrailingZeros32) returns the trailing-zero count of every 64-bit word |
| Compiler.LeadingZerosScan | compiler.c:28-48 | the halving-window search with the mask kept aligned to the window returns the leading-zero count of every word |
| Compiler.CountLeadingZeros32 | compiler.c:28-48 | the corrected countLeadingZeros32 returns the leading-zero count of every 32-bit word |
| Compiler.CountLeadingZeros64 | compiler.c:51-71 | the corrected countLeadingZeros64 returns the leading-zero count of every 64-bit word |
| Compiler.LeadingZerosScanAsWritten | compiler.c:28-48 | the search as written gives the width for 0 and less than the width otherwise, but half the width for every odd word below 2^(width/2) |
| Compiler.CountLeadingZeros32AsWritten | compiler.c:28-48 | countLeadingZeros32 as written returns 16 for every odd word below 2^16 |
| Compiler.CountLeadingZeros64AsWritten | compiler.c:51-71 | countLeadingZeros64 as written returns 32 for every odd word below 2^32 |
| Compiler.ClzOfOneMiscounted | compiler.c:43 | the word 1 has 31 leading zeros in 32 bits, and 16 is not its count |
| Compiler.ClzOfOneAsWritten | compiler.c:28-48 | on the word 1, the count as written is 16 and the corrected count is 31 |
| Gf2.PolynomialBound | gf2.h:31 | a polynomial is a 64-bit word |
| Gf2.Add | gf2.h:44-46 | each coefficient of the sum is the exclusive or of the coefficients of the two addends |
| Gf2.AddCommutative | gf2.h:44-46 | addition is commutative |
| Gf2.AddAssociative | gf2.h:44-46 | addition is associative |
| Gf2.AddInverseAndZero | gf2.h:44-46 | every polynomial is its own additive inverse, and 0 is the neutral element |
| Gf2.Multiply | gf2.c:30-45 | the shift-and-add loop of gf2Multiply computes the carry-less product truncated to 64 bits |
| Gf2.ProductZeroOne | gf2.c:30-45 | 0 annihilates and 1 is neutral for the product |
| Gf2.ProductCommutative | gf2.c:30-45 | the product is commutative |
| Gf2.ProductDistributes | gf2.c:30-45 | the product distributes over addition |
| Gf2.ProductAssociative | gf2.c:30-45 | the product is associative |
| Gf2.ProductLowBit | gf2.c:30-45 | a product is odd exactly when both factors are odd |
| Gf2.ProductDegree | gf2.c:30-45 | when the degrees fit in 64 bits, nothing is truncated and the degree of the product is the sum of the degrees |
| Gf2.MantissaSizeInBits | gf2.c:48-50 | with countLeadingZeros64 of the GCC branch, the result is the number of significant bits: 0 exactly for 0, otherwise the highest set bit is bit r - 1 and nothing above it is set |
| Gf2.DivisionUnique | gf2.c:53-73 | the quotient and remainder of polynomial division are unique |
| Gf2.DivisionIdentity | gf2.c:53-73 | a quotient q and remainder r of a by d satisfy a = q * d + r in GF(2)[x] |
| Gf2.Divide | gf2.c:53-73 | the corrected gf2Divide returns the quotient of polynomial division, and stores the matching remainder when a remainder cell is given |
| Gf2.Remainder | gf2.c:76-87 | gf2Remainder returns the remainder of polynomial division: its degree is below the divisor's, and it differs from the dividend by a multiple of the divisor |
| Gf2.RemainderAgreesWithDivide | gf2.c:68-87 | the remainder gf2Divide stores and the one gf2Remainder returns are the same |
| Gf2.IntShiftOne | gf2.c:62 | the int shift `1 << b` is x^b for every shift up to 30 |
| Gf2.AsWrittenQuotientStep | gf2.c:62 | one quotient update as written agrees with the intended one for shifts up to 30, and sets bit 63 for a shift of 31 |
| Gf2.DivideAsWritten | gf2.c:53-73 | gf2Divide as written: the remainder is always right, and the quotient is right when the degrees differ by at most 30, but has bit 63 set when they differ by exactly 31 |
| Gf2.QuotientOfX31 | gf2.c:53-73 | the only quotient of x^31 by 1 is x^31 |
| Gf2.DivideAsWrittenOverflows | gf2.c:62 | dividing x^31 by 1 as written returns a polynomial that is not the quotient |
| Puddles.ClearBit | prime_list.c:169-172 | `entry & ~(1 << offset)` clears bit offset and keeps every other bit |
| Puddles.BitsFrom | prime_list.c:205-211 | `entry & (~0 << offset)` keeps exactly the bits at offset and above |
| Puddles.SelectBit | prime_list.h:70 | `entry & (1 << offset)`, the test of the value's own bit that isPrime's documented answer needs, keeps bit offset only |
| Puddles.ClearBitIdempotent | prime_list.c:169-172 | clearing a bit twice is clearing it once |
| Irreducibility.ReducibleIffProperFactor | sieve_of_eratosthenes_memory_gf2.c:146-158 | a polynomial of degree at least 1 is composite exactly when its least factor is smaller than itself |
| Irreducibility.LeastFactorIrreducible | sieve_of_eratosthenes_memory_gf2.c:162 | the least factor of any polynomial of degree at least 1 is irreducible, so the first bit still set after the current prime is a prime |
| Irreducibility.SquareBeyondBound | sieve_of_eratosthenes_memory_gf2.c:147-150 | once prime * prime exceeds the bound, every composite up to the bound has a least factor below prime, which is why the sieve may stop marking |
| Irreducibility.SievingRound | sieve_of_eratosthenes_memory_gf2.c:152-157 | marking the products prime * q for q from prime until the product leaves the bound marks exactly the composites whose least factor is prime |
| Irreducibility.OddLeastFactor | sieve_of_eratosthenes_gf2.c:99-103 | an odd polynomial has an odd least factor, which is why the paged sieve may skip even q |
| Irreducibility.IrreduciblesUpToSpec | sieve_of_eratosthenes_memory_gf2.c:160-168 | the reference list holds exactly the irreducible polynomials up to the bound, in strictly increasing order |
| Irreducibility.IrreduciblesGap | sieve_of_eratosthenes_memory_gf2.c:162 | with no irreducible in (lo, hi], the lists up to lo and up to hi are the same |
| PrimeList.BitIndexInverts | prime_list.c:245 | the value findNextPrime builds from pool index, puddle and offset is odd, and its bit lies at that pool, puddle and offset |
| PrimeList.WrittenPoolsSpec | prime_list.c:119-140 | writing the all-ones pool to every pool file of the list keeps any other file and leaves every list bit set |
| PrimeList.FreshListSpec | prime_list.c:119-140 | a freshly created list has a full-size file for every pool, with every bit set |
| PrimeList.MarkedSpec | prime_list.c:163-177 | marking an odd value clears exactly its own bit and changes no pool's size; marking an even value changes nothing |
| PrimeList.MarkedBit | prime_list.c:163-177 | after marking 2m + 1, bit k is set exactly when it was set before and k is not m |
| PrimeList.MarkedIdempotent | prime_list.c:163-177 | marking the same value twice is marking it once |
| PrimeList.PagedList.ResidentPool | prime_list.c:90-109 | the pool the list sees at the cached index is the in-memory pool |
| PrimeList.PagedList.Flush | prime_list.c:70-87 | a dirty cached pool is written to its file and becomes clean; a clean one writes nothing; the list's contents are unchanged |
| PrimeList.PagedList.CheckIfCached | prime_list.c:90-109 | afterwards the requested pool is the cached one, with the previous one flushed first; a request for the cached pool changes nothing; the list's contents are unchanged |
| PrimeList.PagedList.Create | prime_list.c:112-140 | in create mode every pool file of the list is rewritten to all ones, other files are kept, pool 0 is cached and clean, and every list bit is set |
| PrimeList.PagedList.Open | prime_list.c:141-146 | in open mode the files are read as they are, and pool 0 is cached and clean |
| PrimeList.PagedList.Terminate | prime_list.c:150-160 | terminating flushes the cached pool, so the files then hold everything the list held |
| PrimeList.TerminateThenOpen | prime_list.c:141-160 | a list terminated and opened again holds what it held before |
| PrimeList.PagedList.MarkComposite | prime_list.c:163-177 | markComposite clears the bit of an odd value, leaves every other bit as it was, and leaves the list untouched for an even value |
| PrimeList.PagedList.IsPrime | prime_list.h:70 | the corrected isPrime is true exactly when the value is odd and its bit is set; the list is unchanged |
| PrimeList.PagedList.IsPrimeAsWritten | prime_list.c:180-195 | isPrime as written is true exactly when the value is odd and some other bit of its puddle is set |
| PrimeList.IsPrimeAfterMarking | prime_list.c:187-191 | in a fresh list with 3 marked composite, isPrime as written still says 3 is prime, and the corrected test says it is not |
| PrimeList.PagedList.ScanFrom | prime_list.c:205-243 | the puddle and pool walk finds the first set bit at or after the starting bit, or reports that there is none up to the end of the last pool |
| PrimeList.PagedList.FindNextPrimeAsWritten | prime_list.c:198-250 | findNextPrime as written returns the odd value of the first set bit after bit currentPrime / 2, which may lie in the padding, or 0 if there is none |
| PrimeList.PagedList.FindNextPrime | prime_list.h:81 | the corrected findNextPrime returns the smallest odd value above currentPrime and within MAXIMUM_PRIME whose bit is set, or 0 when there is none |
| PrimeList.FindNextPrimeAfterTwo | prime_list.c:199-200 | in a fresh list, the next prime after 2 is 5 as written and 3 when corrected |
| PrimeList.FindNextPrimeIntoPadding | prime_list.c:217-245 | in a fresh list with MAXIMUM_PRIME marked composite, findNextPrime(MAXIMUM_PRIME - 2) is MAXIMUM_PRIME + 2, a padding bit, as written, and 0 when corrected |
| MemorySieve.Cleared | sieve_of_eratosthenes_memory_gf2.c:82-88 | clearing a value's bit in the flat list clears exactly that bit |
| MemorySieve.PrimeTable.constructor | sieve_of_eratosthenes_memory_gf2.c:52 | the flat list is an array of the source's number of 32-bit words |
| MemorySieve.PrimeTable.Initialize | sieve_of_eratosthenes_memory_gf2.c:71-73 | after initialization the bit of every value up to MAXIMUM_PRIME is set |
| MemorySieve.PrimeTable.MarkComposite | sieve_of_eratosthenes_memory_gf2.c:82-88 | markComposite clears exactly the value's bit |
| MemorySieve.PrimeTable.FindNextPrime | sieve_of_eratosthenes_memory_gf2.c:99-134 | findNextPrime returns the first set bit at or after currentPrime + 1 (wrapping to 0 past 2^64 - 1), or 0 when no bit after it is set |
| MemorySieve.NewTable | sieve_of_eratosthenes_memory_gf2.c:142-144 | after initialization and marking 0 and 1, the set bits are exactly those of 2 .. MAXIMUM_PRIME, the starting state of the sieve |
| MemorySieve.MarkMultiples | sieve_of_eratosthenes_memory_gf2.c:146-158 | one round clears the products of prime with every q from prime up, keeps the table sieved one step further, and reports done exactly when prime * prime exceeds the bound |
| MemorySieve.NextIrreducible | sieve_of_eratosthenes_memory_gf2.c:162 | the next set bit is the next irreducible after prime, or 0 when there is no irreducible left up to MAXIMUM_PRIME |
| MemorySieve.Drain | sieve_of_eratosthenes_memory_gf2.c:165-168 | the "- " list is the rest of the irreducibles, in order, after those already printed |
| MemorySieve.FinalState | sieve_of_eratosthenes_memory_gf2.c:137-171 | once sieving is complete, a bit is set exactly for the irreducibles in 2 .. MAXIMUM_PRIME |
| MemorySieve.Sieve | sieve_of_eratosthenes_memory_gf2.c:137-171 | main prints "* " and then "- " lines that together are exactly the irreducibles up to MAXIMUM_PRIME in increasing order, and leaves exactly their bits set |
| PagedSieve.MarkMultiples | sieve_of_eratosthenes_gf2.c:92-103 | one round clears prime * q for odd q from prime up while the product is within the bound, keeps the list sieved one step further, and reports done exactly when prime * prime exceeds the bound |
| PagedSieve.OddMultipleStep | sieve_of_eratosthenes_gf2.c:99-103 | stepping q by 2 adds exactly one odd multiple to those already marked |
| PagedSieve.Advance | sieve_of_eratosthenes_gf2.c:106-107 | the next prime found is irreducible when it is within the bound; one found beyond the bound, or none, means sieving is complete |
| PagedSieve.FinalState | sieve_of_eratosthenes_gf2.c:80-115 | once sieving is complete, the bit of an odd value in 3 .. MAXIMUM_PRIME is set exactly when it is irreducible |
| PagedSieve.Sieve | sieve_of_eratosthenes_gf2.c:80-115 | after main, the pool files hold the whole list, the bit of 1 is clear, and the bit of every odd value 3 .. MAXIMUM_PRIME is set exactly when it is irreducible |
| CmdLine.ExitCodeRoundTrip | cmdline.c:48-50 | for an argument number below 2^24, cmdLineExitCode and cmdLineArgumentNumber recover the error code and argument number buildExitCode packed |
| CmdLine.ErrorIsNonzero | cmdline.c:48-50 | a packed error is never 0, so it cannot be read as success |
| CmdLine.ExitValueZero | cmdline.c:214-219 | cmdLineParse returns 0 exactly when parsing succeeded |
| CmdLine.FirstEnd | cmdline.c:60-66 | the table ends at its first CMDLINE_END entry |
| CmdLine.MatchFrom | cmdline.c:74-76 | the search stops at the first entry whose text is the argument, or at the end entry if there is none |
| CmdLine.FindSwitch | cmdline.c:74-76 | the search loop returns that first matching entry, or the end entry |
| CmdLine.ResetStates | cmdline.c:60-66 | the state variable of every non-help switch before the end entry is reset to NULL, and the rest are untouched |
| CmdLine.ResetStateVariables | cmdline.c:60-66 | the reset loop leaves the state variables as ResetStates describes |
| CmdLine.Delete | cmdline.c:28-45 | deleting entry n shortens the list by one and moves every later entry down one place |
| CmdLine.DeleteInsert | cmdline.c:28-45 | putting the deleted entry back at its place restores the list |
| CmdLine.DeleteParameter | cmdline.c:28-45 | deleteParameter removes argv[n], shifts the rest down, decrements the count, NULLs the freed slot and leaves entries beyond the old count alone |
| CmdLine.Step | cmdline.c:69-211 | one pass of the main loop keeps the number of state variables, and either stops or moves on with fewer arguments left to examine |
| CmdLine.StepContinues | cmdline.c:78-211 | a pass that goes on keeps the arguments before the current one, consumes the switch (and its parameter), or skips an unknown argument, and stores the parsed value into a variable that was unset |
| CmdLine.StepStops | cmdline.c:80-211 | a pass that stops reports an error whose cause is the current argument, never overwrites a variable that was set, and changes the states only for a parameter that failed to convert |
| CmdLine.StepOutcome | cmdline.c:80-211 | one pass stops with CMDLINE_HELP_REQUESTED exactly for a help switch; with CMDLINE_DUPLICATE_SWITCH exactly when the switch's variable is already set; with CMDLINE_PARAMETER_REQUIRED exactly for a valued switch with an unset variable in the last position; with the integer or number error exactly when strtol or strtod leaves part of the parameter unconverted; an unknown argument always goes on |
| CmdLine.ScanStop | cmdline.c:69-211 | a parse that fails fails at the pass at its argument number, which stops with the parse's exit code and states on state variables that still hold every value set before the walk, so StepOutcome names the cause |
| CmdLine.ScanShape | cmdline.c:69-219 | the main loop keeps the arguments before the start, succeeds exactly when it reaches the end of argv, otherwise stops at the argument that caused the error, and never overwrites a set state variable |
| CmdLine.ScanTokens | cmdline.c:69-211 | the arguments the main loop went past split into skipped arguments, flags and switch-parameter pairs; argv keeps exactly the skipped ones, in order, and each switch's value goes into a distinct variable that was unset |
| CmdLine.RemoveArgument | cmdline.c:91 | removing a boolean switch deletes exactly that argument from argv |
| CmdLine.RemoveSwitchAndParameter | cmdline.c:107-112 | removing a valued switch deletes it and its parameter from argv |
| CmdLine.ParseBool | cmdline.c:80-96 | the CMDLINE_BOOL case does to argv and the state variables what one pass of the main loop specifies |
| CmdLine.ParseValued | cmdline.c:98-201 | the string, long, long long and double cases do to argv and the state variables what one pass of the main loop specifies |
| CmdLine.ParseArgument | cmdline.c:69-211 | one iteration of the main loop does to argv and the state variables what one pass specifies |
| CmdLine.ScanPass | cmdline.c:69 | one pass followed by the rest of the loop is the whole loop |
| CmdLine.CmdLineParse | cmdline.c:53-221 | cmdLineParse resets the state variables, runs the main loop from argument 1, leaves argv and its count as the loop leaves them with the freed slots NULL, and returns 0 on success or the packed error and argument number |

## Left out

- monitorThread of `sieve_of_eratosthenes_gf2.c`, the pthread calls and the global `done` flag the thread reads are not modelled. They only report progress.
- File I/O is not modelled: open, read, write, lseek and close. The pool files are a map from pool index to pool contents. A failed call aborts the program through `assert` (prime_list.c:78, 81, 100, 103, 134, 137); the model makes the pool file's presence and size a precondition of CheckIfCached and Open.
- printf is not modelled. The in-memory sieve returns the two lists it prints. cmdLineReportError is not part of this model.
- list_primes_gf2.c and debug.c are not part of this model.
- Compiler.CountLeadingZeros and Compiler.CountTrailingZeros state the counts documented at compiler.h:44-84. The builtins themselves are not modelled; the zero-guarded ones of the GCC branch (compiler.h:94-105) meet those counts, and the exception for countLeadingZeros32 follows.
- Gf2.MantissaSizeInBits: follows the GCC branch of countLeadingZeros64 (compiler.h:94-96), the zero-guarded `__builtin_clzll`, which returns the documented count. On a build without `__GNUC__` gf2.c:49 calls compiler.c:51-71 as written, which returns 32 for every odd word below 2^32 (compiler.c:66, see Compiler.CountLeadingZeros64AsWritten). There mantissaSizeInBits(1) and mantissaSizeInBits(3) are both 32, and gf2Divide and gf2Remainder inherit the defect: the loop of gf2.c:82-85 on gf2Remainder(1, 3) never reaches the remainder 1. Gf2.Divide and Gf2.Remainder model the GCC build.
- Compiler.CountLeadingZeros: for width 32 it states the documented 32-bit count. That is not what compiler.h:92 returns on LP64 targets, where `__builtin_clzl` counts in 64 bits and gives 32 more for every nonzero 32-bit word. Nothing in the modelled core calls countLeadingZeros32.
- cmdLineDeallocate, malloc, strdup and free are not modelled. A string state variable holds the parameter itself.
- strtol and strtod are parameters of cmdLineParse (the `Library` record). Doubles are real numbers.
- CmdLine.ParseValued: the string, long, long long and double cases share one method. The long long case uses strtol, as the source does at cmdline.c:161.
- CmdLine.ExitCodeRoundTrip: it only covers argument numbers below 2^24. For larger numbers the int sum at cmdline.c:49 overflows, and buildExitCode does not mask the argument number, so the decoders cannot recover it.
- CmdLine.CmdLineParse: argument counts are natural numbers. A negative argumentCount is not modelled.
- Parameters.BoundIsDegree: the shipped MAXIMUM_PRIME is 2^34 - 1 and the shipped pool size is 1 GiB. The model uses 2^12 - 1 and 12-byte pools. The bound keeps its shape, 2^n - 1. The pool size does not: with the shipped values one pool holds the whole list exactly and there is no padding, while the model's pool size does not divide the list, so its last pool ends in two padding puddles. The padding defect under Findings appears only with such a pool size.
- Gf2.IntShiftOne: the int shift `1 << b` for b >= 31 is undefined in C. The model takes what an x86-64 build does.
- PagedSieve.Sieve: the contract says nothing about pool files beyond the list's own, although Create keeps them.
- PagedSieve.Sieve: the global `q` of the source is a local of the marking method, and `done` is a local of main.
- MemorySieve.Sieve: the rounds of main are split into helper methods (MarkMultiples, NextIrreducible, Drain). They run in the source's order.

## Findings

| source | as written | input that shows it | evidently intended | confidence | as-written member | corrected member |
|---|---|---|---|---|---|---|
| compiler.c:43 and compiler.c:66 | `d >>= 1; mask >>= d;` shifts the mask by the new half-width only, so it drifts away from the window the next test needs | countLeadingZeros32(1) returns 16 | the mask is moved to the next window, giving 31 | not executed | Compiler.ClzOfOneAsWritten | Compiler.CountLeadingZeros32 |
| gf2.c:62 | `quotient \|= 1 << b` shifts an int | gf2Divide(x^31, 1) sets bits 31 to 63 of the quotient (x86-64 behaviour of an undefined shift) | `(Gf2Polynomial) 1 << b`, giving x^31 | not executed | Gf2.DivideAsWrittenOverflows | Gf2.Divide |
| prime_list.c:187 and prime_list.c:191 | the mask `~(1 << offset)` tests every bit of the puddle except the value's own | isPrime(3) after markComposite(3) in a fresh list returns non-zero | the mask `1 << offset`, giving 0 | not executed | PrimeList.IsPrimeAfterMarking | PrimeList.PagedList.IsPrime |
| prime_list.c:199-200 | the scan starts at bit `(currentPrime >> 1) + 1`, which for an even currentPrime skips the odd value just above it | findNextPrime(2) in a fresh list returns 5 | the scan starts at bit `(currentPrime + 1) / 2`, giving 3 | not executed | PrimeList.FindNextPrimeAfterTwo | PrimeList.PagedList.FindNextPrime |
| prime_list.c:217-245 | the scan runs to the end of the last pool, whose padding puddles are all ones; this shows only when the pool size does not divide the list, as with the model's 12-byte pools (the shipped 1 GiB pool holds the list exactly) | in a fresh list with MAXIMUM_PRIME marked composite, findNextPrime(MAXIMUM_PRIME - 2) returns MAXIMUM_PRIME + 2 | values above MAXIMUM_PRIME are not primes of the list, giving 0 | not executed | PrimeList.FindNextPrimeIntoPadding | PrimeList.PagedList.FindNextPrime |
