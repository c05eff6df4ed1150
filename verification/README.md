# threadedprimes sieve, modelled in Dafny

`threadedprimes.c` counts the primes up to a bound N. It uses a bit-packed sieve of Eratosthenes whose
marking work is shared between T worker threads. Integer k lives in byte k / 8 at bit k % 8 of one shared
buffer, and a set bit means "not prime". The run has five steps:

- `create_bitmap` writes the initial pattern: byte 0 is 0b01010110 and bytes 1 .. N / 8 - 1 are
  0b01010101, so the even integers in those bytes start out marked. The last allocated byte, N / 8, is
  written only when it is byte 0 (N < 8); see Findings.
- `distribute_primes` marks multiples sequentially.
- `thread_setup` starts one `calc_primes` worker per id.
- Each worker takes every seed candidate that `next_prime` yields (an unmarked i with i * i <= N). It marks
  that candidate's multiples inside the worker's own contiguous range of [1, N].
- `count_primes` counts the odd integers that are still unmarked.

The Dafny project models the following:

- The buffer is an `array<bv8>`. The functions `Bits`, `IsPrime` and `Mark` read it as a sequence of
  booleans.
- Each of the C functions above is a method over that array, with the source's loops and invariants.
- The whole run (`Sieve.Run`, `main` without the command line and the console) proves two results:
  - The final buffer is `SieveBits(N)`: 1 and every even integer from 2 on are marked; the odd composites
    up to N are marked; 0, the odd primes and the odd integers above N are not. This value depends on N
    only, so the result is the same for every thread count T and every order in which
    the workers run.
  - The count is `PrimeCount(N)`, the number of primes in [1, N].

The proof chain has these steps:

- `InitialPattern` and `PatternedIntact`: the pattern marks no odd prime.
- `MarksComposites`, `IntactPreserved` and `MarksCompositesTransitive`: every later phase only adds marks,
  and only on composites.
- `Covered`, `CoveredAfterMultiples` and `CoveredNext`: each worker marks every odd composite c of its
  range. The seed whose multiples include c is the least factor of c, an odd prime p with p * p <= c
  (`LeastFactorIsSeed`, which builds on `LeastFactorSquare`).
- `RangesAdjacent` and `RangesPartition`: the ranges cover [1, N].

Modules:

- `Arithmetic`: multiplication and division facts.
- `Primality`: divisibility, primality, least factor, prime counts.
- `Bitmap`: bit view, `is_prime`, `isnt_prime`, `create_bitmap`.
- `Partition`: the worker ranges.
- `Marking`: what the marking phases may and must do.
- `Sieve`: the seed pass, `next_prime`, the worker, `thread_setup`, the count and the run.

Behaviour of the code that the model keeps as it is:

- Byte 0 of the pattern marks 2 as not prime and leaves 0 unmarked.
- `count_primes` starts at 3 and never adds 1 for the prime 2 (see Findings).
- The seed pass marks multiples up to N, not only up to √N.
- A worker may mark below its range, because its start multiplier is `min / i` rounded down. Neighbouring
  ranges also share bytes, so the workers' writes do not touch disjoint bytes.
- When T > N, the first T - 1 ranges are the empty range [1, 0], and the last worker covers [1, N]. The
  model keeps this and proves coverage for it.

## Model

| member | source | states |
|---|---|---|
| Bitmap.IsPrime | threadedprimes.c:122-135 | `is_prime(k)` is true exactly when bit k of the bit view is clear |
| Bitmap.Mark | threadedprimes.c:111-120 | the intended `isnt_prime(k)`: the buffer keeps its length and exactly bit k becomes set |
| Bitmap.IsntPrime | threadedprimes.c:111-120 | the method on the array: the new contents are `Mark` of the old contents |
| Bitmap.MarkIdempotent | threadedprimes.c:119 | OR-ing the same bit twice is the same as once |
| Bitmap.MarkCommutes | threadedprimes.c:119 | two marks commute |
| Bitmap.MarkAllBits | threadedprimes.c:119 | after a series of marks a bit is set exactly when it was set before or its integer was marked |
| Bitmap.MarkAllOrderIrrelevant | threadedprimes.c:141-149 | marking the same set of integers in any order, with repetitions, gives the same buffer |
| Bitmap.BitsInjective | threadedprimes.c:115-119 | the bit view loses nothing: two buffers with the same bits are equal |
| Bitmap.SignedValue | threadedprimes.c:112-117 | a `char` holding byte b has a value in [-128, 128) congruent to b modulo 256 |
| Bitmap.MarkAsWritten | threadedprimes.c:111-120 | `isnt_prime` as written: the write is out of bounds exactly when the signed value v of byte k / 8 is not an index of the buffer; otherwise the length is kept and exactly the bit of integer 8 * v + k % 8 becomes set |
| Bitmap.SetByteBit | threadedprimes.c:119 | OR-ing bit b into byte t sets exactly the bit of integer 8 * t + b |
| Bitmap.MarkAsWrittenMissesTarget | threadedprimes.c:115-119 | marking 9 as written on a fresh 3-byte buffer writes out of bounds; on a longer buffer it sets the bit of 681 and leaves 9 unmarked, while `Mark` marks 9 |
| Bitmap.PatternBits | threadedprimes.c:89-92 | the clear bits of 0b01010110 are 0, 3, 5, 7; those of 0b01010101 are the odd positions |
| Bitmap.Initialized | threadedprimes.c:89-93 | byte 0 holds the first pattern byte, bytes 1 .. upto - 1 the other pattern byte, the rest what they held |
| Bitmap.InitialPattern | threadedprimes.c:89-93 | in the patterned bytes the unmarked integers are exactly 0 and the odd integers from 3 on; unwritten bytes keep their bits |
| Bitmap.CreateBitmap | threadedprimes.c:86-94 | corrected `create_bitmap`: every byte of the N / 8 + 1 allocated bytes holds the pattern |
| Bitmap.CreateBitmapAsWritten | threadedprimes.c:86-94 | `create_bitmap` as written: bytes 1 .. N / 8 - 1 get the pattern, byte N / 8 keeps what `malloc` left there when N >= 8 (for N < 8 it is byte 0, which gets its own pattern) |
| Bitmap.UnwrittenByteHidesPrimes | threadedprimes.c:91 | with N = 15 and byte 1 left at 0xFF the primes 11 and 13 start out marked |
| Partition.RangeMin | threadedprimes.c:158 | worker `id` starts at `id * (N / T) + 1`, which lies in [1, N]; worker 0 starts at 1 |
| Partition.RangeMax | threadedprimes.c:160-164 | a range ends in [lo - 1, N]; the last one ends at N; with T <= N no range is empty |
| Partition.Owner | threadedprimes.c:158-164 | the worker holding k is a valid id |
| Partition.RangesAdjacent | threadedprimes.c:158-164 | each range ends just before the next one starts |
| Partition.InRangeByQuotient | threadedprimes.c:158-164 | k lies in worker `id`'s range exactly when `id` is `(k - 1) / (N / T)`, capped at the last worker |
| Partition.RangesPartition | threadedprimes.c:158-164 | every k in [1, N] lies in exactly one worker's range, its owner's |
| Primality.PrimeCountSplit | threadedprimes.c:189-195 | the primes up to n are the odd primes up to n plus 2 when n >= 2 |
| Marking.MarksCompositesTransitive | threadedprimes.c:72-76 | two phases that each add only composite marks together add only composite marks |
| Marking.IntactPreserved | threadedprimes.c:72-76 | a phase that marks only composites leaves every odd prime unmarked |
| Marking.MarkAllComposites | threadedprimes.c:119 | marking a list of composites in [2, N] marks only composites |
| Marking.LeastFactorIsSeed | threadedprimes.c:175-184 | while no odd prime is marked, the least factor p of an odd composite c <= N is an odd prime with p * p <= c that `next_prime` will yield: at least 3, unmarked, with square <= N |
| Marking.Multiples | threadedprimes.c:167-169 | the integers an inner marking loop visits are composites in [4, bound] |
| Marking.MultiplesExactly | threadedprimes.c:167-169 | they are exactly the multiples m of i with m <= bound and m / i >= the start multiplier |
| Marking.MultiplesMarkComposites | threadedprimes.c:101-104 | one round of the seed pass marks only composites up to N |
| Marking.StartMultiplier | threadedprimes.c:167 | the worker's start multiplier is at least 3 and at least `min / i` |
| Marking.WorkerMultipleBounds | threadedprimes.c:167-169 | a worker's mark is a composite of at least 6, at most `max`, and above `min - i` |
| Marking.WorkerMarksComposites | threadedprimes.c:152-173 | a worker that makes only its own multiples marks only composites up to N |
| Marking.WorkerMarksMultiples | threadedprimes.c:166-169 | one seed's inner loop keeps "every new mark is a multiple of a seed, at most `max`" |
| Marking.CoveredAfterMultiples | threadedprimes.c:167-169 | after seed i's inner loop every odd composite of the range with least factor i is marked |
| Marking.CoveredNext | threadedprimes.c:166-184 | skipping to the next seed candidate loses no odd composite: none has its least factor in between, and none is left when `next_prime` returns 0 |
| Sieve.WithinSqrt | threadedprimes.c:99-101 | the integer form of `i <= sqrt(N)`; an i within it is at most N |
| Sieve.MarkMultiples | threadedprimes.c:167-169 | the inner marking loop: the buffer becomes the old one with exactly `Multiples(i, j, bound)` marked |
| Sieve.SeedMultiplesAsWritten | threadedprimes.c:102-103 | the seed pass's inner loop as written marks the multiplier m itself: m is listed exactly when m >= the start j and m * i <= N + 1 |
| Sieve.SeedMultiplesAsWrittenMarksPrime | threadedprimes.c:102-103 | with N = 9 that loop marks the prime 3, where the intended loop marks 9 |
| Sieve.DistributePrimes | threadedprimes.c:96-109 | the seed pass marks only composites up to N (no prime is lost), and marks every multiple of 3 from 9 to N |
| Sieve.NextPrime | threadedprimes.c:175-184 | returns the least unmarked i above `current` with i * i <= N, or 0 when there is none |
| Sieve.CalcPrimes | threadedprimes.c:152-173 | a worker adds only multiples of seeds up to its `max`, marks only composites, and, when no prime was marked before it, marks every odd composite of its range |
| Sieve.ThreadSetup | threadedprimes.c:137-150 | whatever order the workers run in (any schedule listing every id), only composites were added, and, when no prime was marked before, every odd composite up to N is marked |
| Sieve.WorkerDone | threadedprimes.c:141-149 | a worker that covers its own range extends the set of finished workers, whichever workers finished before it |
| Sieve.CandidateCountOfSieved | threadedprimes.c:186-196 | on a buffer whose odd unmarked integers are the odd primes, the odd-candidate count is the odd-prime count |
| Sieve.CandidateCountEven | threadedprimes.c:189 | an even integer is never counted |
| Sieve.CandidateCountStep | threadedprimes.c:189-192 | one step of the loop, from one odd integer to the next, adds 1 exactly when the new integer is unmarked |
| Sieve.CountPrimes | threadedprimes.c:186-196 | `count_primes` as written returns the number of unmarked odd integers in [3, N] |
| Sieve.CountAllPrimes | threadedprimes.c:186-196 | corrected count: that number plus 1 for the prime 2 when N >= 2 |
| Sieve.CountPrimesMissesTwo | threadedprimes.c:189-195 | on the fully sieved buffer with N >= 2, `count_primes` as written is one less than the number of primes up to N |
| Sieve.PatternedIntact | threadedprimes.c:89-92 | the initial pattern marks no odd prime |
| Sieve.SievedBits | threadedprimes.c:72-76 | starting from the pattern, marking only composites and reaching every odd composite up to N leaves exactly `SieveBits(N)` |
| Sieve.Run | threadedprimes.c:70-81 | the final buffer is `SieveBits(N)` whatever T is and whatever order the workers run in, and the count is the number of primes in [1, N] |

## Left out

- Command-line parsing (`getopt`, `usage`, `exit`) is left out. `Sieve.Run` takes T and N as parameters,
  with the accepted ranges 1 <= T <= 100 and N >= 1 as preconditions. The `> 4294967295` check on an
  `int` can never hold and has no counterpart.
- `print_results`, `printf` and `clock` timing are console I/O and are not modelled. The count they print
  is `Sieve.CountPrimes`.
- ThreadSetup: each worker runs whole, one after another, in the order a schedule parameter lists them.
  The result is proved for every schedule. Workers whose steps interleave with each other's are not
  modelled. That the result is the same under such interleavings is argued, not proved: a worker's
  contract needs only that no prime is marked, and other workers mark only composites.
- ThreadSetup: C's `|=` on a shared byte is a non-atomic read-modify-write. Two workers marking bits of
  the same byte at the same time can lose one of the marks, and that race is not modelled.
- MarkAllOrderIrrelevant: it holds only for mark lists with the same members. The workers' mark lists do
  not have that property across schedules, because `next_prime` reads the marks: a different order can
  make a worker take a different seed. Order independence of the final buffer is instead proved by
  `ThreadSetup` for every schedule.
- SignedValue: plain `char` is assumed signed, as on x86. C leaves its signedness to the implementation,
  and on ABIs where `char` is unsigned (ARM, PowerPC Linux) a byte of 0x80 or more has the value 128 to
  255. There, `MarkAsWritten`'s out-of-bounds condition differs for such bytes.
- `malloc` becomes a fresh `array<bv8>` whose contents are unknown to the proofs. Allocation failure is
  not modelled.
- `sqrt` on `double` becomes the exact integer test `i * i <= N` (`Sieve.WithinSqrt`). Floating-point
  rounding of the square root is not modelled.
- Integers are mathematical: no C `int` arithmetic overflows in the model. In C, the products `i * j`
  and `j * i` overflow for large N, and `max_prime + 1` (lines 102 and 189) and the `i += 2` step of
  `count_primes` overflow at N = INT_MAX.
- The globals `num_threads`, `max_prime` and `prime_storage` become parameters.
- DistributePrimes: keeps the source's loop order, so it can take composites such as 4 and 6 as seeds and
  skip primes such as 5 and 7. Its contract therefore states only that it marks composites and all
  multiples of 3 from 9 on, not which seeds it uses. The workers re-mark everything, so the final result
  does not depend on it.
- DistributePrimes: the inner `while (!is_prime(i)) i++` scan (lines 105-107) also stops once i * i > N.
  The C scan has no bound there. Both mark the same integers whenever the C scan stays inside the buffer.
- The as-written variants (`MarkAsWritten`, `SeedMultiplesAsWritten`, `CreateBitmapAsWritten`,
  `CountPrimes`) are each modelled and exhibited on their own. `Sieve.Run` is built from the corrected
  ones, apart from `count_primes`, which it calls through `CountAllPrimes`.

## Findings

| source | as written | input that shows it | evidently intended | confidence | as-written member | corrected member |
|---|---|---|---|---|---|---|
| threadedprimes.c:117-119 | `isnt_prime` reads byte k / 8 into `current_prime` and ORs the bit into `prime_storage[current_prime]`, the byte whose index is that byte's value | k = 9 on the fresh buffer for N = 16 (bytes 0x56, 0x55, ...): the write goes to index 0x55 = 85, out of bounds; on a buffer of 86 bytes or more it sets the bit of 681 and 9 stays unmarked | `prime_storage[prime_size] \|= 1 << prime_bitsize` | high, not executed | Bitmap.MarkAsWrittenMissesTarget | Bitmap.Mark |
| threadedprimes.c:102-103 | the seed pass marks `j` (not `i * j`) while `j * i <= max_prime + 1` | N = 9: the first round marks 3, a prime, and leaves 9 unmarked | mark `i * j` while `i * j <= max_prime` | high, not executed | Sieve.SeedMultiplesAsWrittenMarksPrime | Sieve.MarkMultiples |
| threadedprimes.c:91 | the fill loop runs while `i < max_prime / 8`, so when N >= 8 byte N / 8 of the N / 8 + 1 allocated bytes is never written | N = 15 with `malloc` returning 0xFF in byte 1: 11 and 13 start out marked and are never counted | loop while `i <= max_prime / 8` | high, not executed | Bitmap.UnwrittenByteHidesPrimes | Bitmap.CreateBitmap |
| threadedprimes.c:189-195 | `count_primes` counts odd integers from 3 and never adds 1 for 2 | N = 2: one prime, count 0; on any fully sieved buffer with N >= 2 the count is one short | add 1 for the prime 2 when N >= 2 | high, not executed | Sieve.CountPrimesMissesTwo | Sieve.CountAllPrimes |
