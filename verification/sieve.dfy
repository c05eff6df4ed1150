/**
 * The phases of threadedprimes.c on the shared buffer: the sequential seed
 * pass (`distribute_primes`), the seed-candidate search (`next_prime`), one
 * worker's marking of its range (`calc_primes`), the workers run one after
 * another (`thread_setup`), the final count (`count_primes`), and the whole
 * run as `main` drives it, without the command line and the console.
 */
module Sieve {
  import opened Arithmetic
  import opened Primality
  import opened Bitmap
  import opened Partition
  import opened Marking

  /**
   * The loop bound `i <= sqrt(max_prime)` in integer form. A number within the
   * bound is itself at most `n`, so it indexes the buffer.
   */
  function WithinSqrt(i: int, n: int): (r: bool)
    ensures r ==> i <= n
  {
    if i >= 1 then MulMono(i, 1, i); i * i <= n else i * i <= n
  }

  // ---------------------------------------------------------------------------
  // Seed pass (distribute_primes)
  // ---------------------------------------------------------------------------

  /**
   * The inner loop of both marking passes: mark `i * j`, `i * (j + 1)`, ...
   * while the product is at most `bound` (the seed pass starts at `j = i`, a
   * worker at its start multiplier).
   */
  method MarkMultiples(a: array<bv8>, i: int, j0: int, bound: int)
    requires 2 <= i && 2 <= j0 && bound < 8 * a.Length
    modifies a
    ensures a[..] == MarkAll(old(a[..]), Multiples(i, j0, bound))
  {
    var j := j0;
    while i * j <= bound
      invariant j0 <= j
      invariant MarkAll(a[..], Multiples(i, j, bound)) == MarkAll(old(a[..]), Multiples(i, j0, bound))
      decreases bound - j
    {
      MulMono(j, 1, i);
      ghost var s := a[..];
      assert Multiples(i, j, bound) == [i * j] + Multiples(i, j + 1, bound);
      IsntPrime(a, i * j);
      assert MarkAll(s, Multiples(i, j, bound)) == MarkAll(a[..], Multiples(i, j + 1, bound));
      j := j + 1;
    }
  }

  /**
   * The integers the inner loop of the seed pass marks as written: the
   * multiplier `j` itself (not `j * i`), for `j` from its start while
   * `j * i <= n + 1`.
   */
  function SeedMultiplesAsWritten(i: int, j: int, n: int): (ms: seq<int>)
    requires 1 <= i && 0 <= j
    ensures forall m :: m in ms <==> j <= m && m * i <= n + 1
    decreases n + 1 - j
  {
    if j * i > n + 1 then
      assert forall m :: j <= m ==> j * i <= m * i by {
        forall m | j <= m { MulMono(i, j, m); }
      }
      []
    else
      MulMono(j, 1, i);
      [j] + SeedMultiplesAsWritten(i, j + 1, n)
  }

  /**
   * With N = 9 the first seed, 3, makes the inner loop as written mark 3 itself,
   * a prime, where the intended loop marks 9.
   */
  lemma SeedMultiplesAsWrittenMarksPrime()
    ensures SeedMultiplesAsWritten(3, 3, 9) == [3]
    ensures IsPrimeNumber(3)
    ensures Multiples(3, 3, 9) == [9] && !IsPrimeNumber(9)
  {
    assert SeedMultiplesAsWritten(3, 4, 9) == [];
    assert Multiples(3, 4, 9) == [];
    assert !Divides(2, 3);
    assert Divides(3, 9);
  }

  /**
   * `distribute_primes` with its inner loop corrected: for `i` from 3 while
   * `i * i <= maxPrime`, mark the multiples `i * j`, `j >= i`, up to `maxPrime`
   * (the source's inner loop marks `j` itself, with bound `maxPrime + 1`, which
   * `SeedMultiplesAsWritten` models); then move `i` past marked integers, then
   * step it once more, as the source's outer loop does.
   */
  method DistributePrimes(a: array<bv8>, maxPrime: int)
    requires 1 <= maxPrime < 8 * a.Length
    modifies a
    ensures MarksComposites(old(a[..]), a[..], maxPrime)
    ensures forall c :: 9 <= c <= maxPrime && Divides(3, c) ==> !IsPrime(a[..], c)
  {
    var i := 3;
    while WithinSqrt(i, maxPrime)
      invariant 3 <= i
      invariant MarksComposites(old(a[..]), a[..], maxPrime)
      invariant i > 3 ==> forall c :: 9 <= c <= maxPrime && Divides(3, c) ==> !IsPrime(a[..], c)
      decreases maxPrime - i
    {
      ghost var before := a[..];
      MultiplesMarkComposites(before, i, i, maxPrime);
      MarkMultiples(a, i, i, maxPrime);
      MarksCompositesTransitive(old(a[..]), before, a[..], maxPrime);
      if i == 3 {
        MultiplesExactly(3, 3, maxPrime);
        MarkAllBits(before, Multiples(3, 3, maxPrime));
      }
      ghost var marked := a[..];
      while WithinSqrt(i, maxPrime) && !IsPrime(a[..], i)
        invariant 3 <= i && a[..] == marked
        decreases maxPrime - i
      {
        i := i + 1;
      }
      i := i + 1;
    }
  }

  // ---------------------------------------------------------------------------
  // Seed-candidate search (next_prime)
  // ---------------------------------------------------------------------------

  /**
   * `next_prime`: the least seed candidate above `current`, or 0 when there is
   * none. The buffer is only read.
   */
  method NextPrime(a: array<bv8>, maxPrime: int, current: int) returns (r: int)
    requires 1 <= maxPrime < 8 * a.Length && current >= 0
    ensures r == 0 || (current < r && SeedCandidate(a[..], maxPrime, r))
    ensures forall m :: current < m && (r == 0 || m < r) ==> !SeedCandidate(a[..], maxPrime, m)
  {
    var i := current + 1;
    while WithinSqrt(i, maxPrime)
      invariant current < i
      invariant forall m :: current < m < i ==> !SeedCandidate(a[..], maxPrime, m)
      decreases maxPrime - i
    {
      if IsPrime(a[..], i) {
        return i;
      }
      i := i + 1;
    }
    forall m | m >= i
      ensures m * m > maxPrime
    {
      SquareMono(i, m);
    }
    return 0;
  }

  // ---------------------------------------------------------------------------
  // One worker (calc_primes)
  // ---------------------------------------------------------------------------

  /**
   * `calc_primes` for worker `id`: for every seed candidate `i` that `next_prime`
   * yields, mark `i * j` for `j` from `max(3, lo / i)` while `i * j <= hi`, where
   * [lo, hi] is the worker's range.
   */
  method CalcPrimes(a: array<bv8>, maxPrime: int, numThreads: int, id: int)
    requires 1 <= maxPrime < 8 * a.Length
    requires 1 <= numThreads && 0 <= id < numThreads
    modifies a
    ensures OnlyWorkerMultiples(old(a[..]), a[..],
              RangeMin(maxPrime, numThreads, id), RangeMax(maxPrime, numThreads, id), maxPrime)
    ensures MarksComposites(old(a[..]), a[..], maxPrime)
    ensures PrimesIntact(old(a[..]), maxPrime) ==>
              forall c ::
                (RangeMin(maxPrime, numThreads, id) <= c <= RangeMax(maxPrime, numThreads, id) && OddComposite(c))
                ==> !IsPrime(a[..], c)
  {
    var lo := RangeMin(maxPrime, numThreads, id);
    var hi := RangeMax(maxPrime, numThreads, id);
    ghost var start := a[..];
    ghost var intact := PrimesIntact(start, maxPrime);
    assert Covered(a[..], lo, hi, 2);
    var i := NextPrime(a, maxPrime, 1);
    if intact {
      CoveredNext(a[..], lo, hi, maxPrime, 1, i);
    }
    while i != 0
      invariant i == 0 || (2 <= i <= maxPrime && i * i <= maxPrime)
      invariant OnlyWorkerMultiples(start, a[..], lo, hi, maxPrime)
      invariant intact ==> PrimesIntact(a[..], maxPrime)
      invariant intact ==> Covered(a[..], lo, hi, if i == 0 then hi + 1 else i)
      decreases if i == 0 then 0 else maxPrime + 1 - i
    {
      ghost var s := a[..];
      WorkerMarksMultiples(start, s, lo, hi, maxPrime, i);
      if intact {
        CoveredAfterMultiples(s, lo, hi, i);
      }
      MarkMultiples(a, i, StartMultiplier(lo, i), hi);
      if intact {
        WorkerMarksComposites(start, a[..], lo, hi, maxPrime);
        IntactPreserved(start, a[..], maxPrime);
      }
      ghost var prev := i;
      i := NextPrime(a, maxPrime, i);
      if intact {
        CoveredNext(a[..], lo, hi, maxPrime, prev, i);
      }
    }
    WorkerMarksComposites(start, a[..], lo, hi, maxPrime);
  }

  // ---------------------------------------------------------------------------
  // All workers (thread_setup), one after another
  // ---------------------------------------------------------------------------

  /**
   * `thread_setup`: run the worker of every id. The source starts them as
   * threads and joins them; here each worker runs whole, one after another, in
   * the order `schedule` lists them: any order of the ids 0 .. numThreads - 1,
   * each at least once.
   */
  method ThreadSetup(a: array<bv8>, maxPrime: int, numThreads: int, schedule: seq<int>)
    requires 1 <= maxPrime < 8 * a.Length && 1 <= numThreads
    requires forall x :: x in schedule ==> 0 <= x < numThreads
    requires forall id :: 0 <= id < numThreads ==> id in schedule
    modifies a
    ensures MarksComposites(old(a[..]), a[..], maxPrime)
    ensures PrimesIntact(old(a[..]), maxPrime) ==>
              forall c :: c <= maxPrime && OddComposite(c) ==> !IsPrime(a[..], c)
  {
    ghost var intact := PrimesIntact(a[..], maxPrime);
    for k := 0 to |schedule|
      invariant MarksComposites(old(a[..]), a[..], maxPrime)
      invariant intact ==> WorkersDone(a[..], maxPrime, numThreads, schedule[..k])
    {
      if intact {
        IntactPreserved(old(a[..]), a[..], maxPrime);
      }
      ghost var before := a[..];
      assert schedule[k] in schedule;
      CalcPrimes(a, maxPrime, numThreads, schedule[k]);
      MarksCompositesTransitive(old(a[..]), before, a[..], maxPrime);
      if intact {
        WorkerDone(before, a[..], maxPrime, numThreads, schedule[..k], schedule[k]);
        assert schedule[..k + 1] == schedule[..k] + [schedule[k]];
      }
    }
    if intact {
      forall c | c <= maxPrime && OddComposite(c)
        ensures !IsPrime(a[..], c)
      {
        assert schedule[..|schedule|] == schedule;
        assert Owner(maxPrime, numThreads, c) in schedule;
      }
    }
  }

  /** Every odd composite up to `n` whose range belongs to a worker in `done` is marked. */
  ghost predicate WorkersDone(s: seq<bv8>, n: int, t: int, done: seq<int>)
    requires n < 8 * |s| && 1 <= t
  {
    forall c :: 1 <= c <= n && OddComposite(c) && Owner(n, t, c) in done ==> !IsPrime(s, c)
  }

  /**
   * One more worker `id` that covers its own range extends the workers done
   * from `done` to `done + [id]`, whatever order they ran in.
   */
  lemma WorkerDone(s: seq<bv8>, s': seq<bv8>, n: int, t: int, done: seq<int>, id: int)
    requires 1 <= n < 8 * |s| && 1 <= t && 0 <= id < t
    requires MarksComposites(s, s', n) && WorkersDone(s, n, t, done)
    requires forall c :: RangeMin(n, t, id) <= c <= RangeMax(n, t, id) && OddComposite(c) ==> !IsPrime(s', c)
    ensures WorkersDone(s', n, t, done + [id])
  {
    forall c | 1 <= c <= n && OddComposite(c) && Owner(n, t, c) in done + [id]
      ensures !IsPrime(s', c)
    {
      var o := Owner(n, t, c);
      if o == id {
        RangesPartition(n, t, c);
        assert InRange(n, t, id, c);
      } else {
        assert o in done;
        assert !IsPrime(s, c);
      }
    }
  }

  // ---------------------------------------------------------------------------
  // Counting (count_primes)
  // ---------------------------------------------------------------------------

  /** Number of odd candidates in [3, n]. */
  function CandidateCount(s: seq<bv8>, n: int): nat
    requires n < 8 * |s|
    decreases n
  {
    if n < 3 then 0
    else CandidateCount(s, n - 1) + (if n % 2 == 1 && IsPrime(s, n) then 1 else 0)
  }

  /** On a buffer whose odd candidates in [3, n] are exactly the odd primes, the count is the odd-prime count. */
  lemma {:induction false} CandidateCountOfSieved(s: seq<bv8>, n: int)
    requires n < 8 * |s|
    requires forall k :: 3 <= k <= n && k % 2 == 1 ==> (IsPrime(s, k) <==> IsPrimeNumber(k))
    ensures CandidateCount(s, n) == OddPrimeCount(n)
    decreases n
  {
    if n >= 3 {
      CandidateCountOfSieved(s, n - 1);
    }
  }

  /** An even integer `2 * h + 2` is never counted. */
  lemma CandidateCountEven(s: seq<bv8>, h: int)
    requires 0 <= h && 2 * h + 2 < 8 * |s|
    ensures CandidateCount(s, 2 * h + 2) == CandidateCount(s, 2 * h + 1)
  {
    assert (2 * h + 2) % 2 == 0;
  }

  /** One step of `count_primes` from `2 * h + 1` to the next odd integer `2 * h + 3`. */
  lemma CandidateCountStep(s: seq<bv8>, h: int)
    requires 0 <= h && 2 * h + 3 < 8 * |s|
    ensures CandidateCount(s, 2 * h + 3) == CandidateCount(s, 2 * h + 1) + (if IsPrime(s, 2 * h + 3) then 1 else 0)
  {
    assert (2 * h + 3) % 2 == 1;
    if h > 0 {
      CandidateCountEven(s, h);
    }
  }

  /** `count_primes`: count the odd candidates 3, 5, 7, ... up to `maxPrime`; 2 is not counted. */
  method CountPrimes(a: array<bv8>, maxPrime: int) returns (count: int)
    requires 1 <= maxPrime < 8 * a.Length
    ensures count == CandidateCount(a[..], maxPrime)
  {
    count := 0;
    var i := 3;
    ghost var h := 0;
    while i < maxPrime + 1
      invariant 3 <= i <= maxPrime + 2 && i == 2 * h + 3
      invariant count == CandidateCount(a[..], i - 2)
    {
      CandidateCountStep(a[..], h);
      if IsPrime(a[..], i) {
        count := count + 1;
      }
      i := i + 2;
      h := h + 1;
    }
    if i - 2 < maxPrime {
      CandidateCountEven(a[..], h);
    }
  }

  /** The count with 2 included, which `count_primes` leaves out. */
  method CountAllPrimes(a: array<bv8>, maxPrime: int) returns (count: int)
    requires 1 <= maxPrime < 8 * a.Length
    ensures count == CandidateCount(a[..], maxPrime) + (if maxPrime >= 2 then 1 else 0)
  {
    count := CountPrimes(a, maxPrime);
    if maxPrime >= 2 {
      count := count + 1;
    }
  }

  // ---------------------------------------------------------------------------
  // The whole run (main, without the command line and the console)
  // ---------------------------------------------------------------------------

  /**
   * The final buffer, as bits: set (not prime) for 1, for the even integers
   * from 2 on and for the odd composites up to n; clear for 0, for the odd
   * primes up to n and for the odd integers above n.
   */
  function SieveBits(n: int): (r: seq<bool>)
    requires n >= 1
    ensures |r| == 8 * (n / 8 + 1)
  {
    seq(8 * (n / 8 + 1), k => k == 1 || (k != 0 && k % 2 == 0) || (3 <= k <= n && k % 2 == 1 && !IsPrimeNumber(k)))
  }

  /** The freshly patterned buffer: the candidates are 0 and the odd integers from 3 on. */
  ghost predicate Patterned(s: seq<bv8>)
  {
    forall k :: 0 <= k < 8 * |s| ==> (IsPrime(s, k) <==> k == 0 || (k % 2 == 1 && k >= 3))
  }

  /** The pattern leaves every odd prime a candidate. */
  lemma PatternedIntact(s: seq<bv8>, n: int)
    requires n < 8 * |s| && Patterned(s)
    ensures PrimesIntact(s, n)
  {
    forall p | 3 <= p <= n && IsPrimeNumber(p)
      ensures IsPrime(s, p)
    {
      assert !Divides(2, p);
    }
  }

  /**
   * Starting from the pattern, marking only composites up to `n` and reaching
   * every odd composite up to `n` leaves exactly the sieve's bits.
   */
  lemma SievedBits(init: seq<bv8>, final: seq<bv8>, n: int)
    requires n >= 1 && |init| == n / 8 + 1 && Patterned(init)
    requires MarksComposites(init, final, n)
    requires forall c :: c <= n && OddComposite(c) ==> !IsPrime(final, c)
    ensures Bits(final) == SieveBits(n)
  {
    forall k | 0 <= k < 8 * |init|
      ensures Bits(final)[k] == SieveBits(n)[k]
    {
      if 3 <= k <= n && k % 2 == 1 && !IsPrimeNumber(k) {
        assert OddComposite(k);
      } else if k == 0 || (k % 2 == 1 && k >= 3) {
        assert IsPrime(init, k);
      } else {
        assert !IsPrime(init, k);
      }
    }
  }

  /**
   * On the fully sieved buffer, `count_primes` as written returns one less than
   * the number of primes up to `n` whenever `n >= 2`: it never counts 2.
   */
  lemma CountPrimesMissesTwo(s: seq<bv8>, n: int)
    requires n >= 2 && Bits(s) == SieveBits(n)
    ensures CandidateCount(s, n) == PrimeCount(n) - 1
  {
    forall k | 3 <= k <= n && k % 2 == 1
      ensures IsPrime(s, k) <==> IsPrimeNumber(k)
    {
      assert Bits(s)[k] == SieveBits(n)[k];
    }
    CandidateCountOfSieved(s, n);
    PrimeCountSplit(n);
  }

  /**
   * Allocate the buffer, pattern it, run the seed pass and the workers, and
   * count. The buffer it ends with depends on `maxPrime` alone, whatever the
   * number of workers and the order they run in, and the count is the number of primes up to `maxPrime`.
   */
  method Run(numThreads: int, maxPrime: int, schedule: seq<int>) returns (count: int, a: array<bv8>)
    requires 1 <= numThreads <= 100 && maxPrime >= 1
    requires forall x :: x in schedule ==> 0 <= x < numThreads
    requires forall id :: 0 <= id < numThreads ==> id in schedule
    ensures a.Length == maxPrime / 8 + 1
    ensures Bits(a[..]) == SieveBits(maxPrime)
    ensures count == PrimeCount(maxPrime)
  {
    a := new bv8[maxPrime / 8 + 1];
    ghost var fresh0 := a[..];
    CreateBitmap(a, maxPrime);
    ghost var init := a[..];
    InitialPattern(fresh0, a.Length);
    assert Patterned(init);
    PatternedIntact(init, maxPrime);
    DistributePrimes(a, maxPrime);
    ghost var seeded := a[..];
    IntactPreserved(init, seeded, maxPrime);
    ThreadSetup(a, maxPrime, numThreads, schedule);
    MarksCompositesTransitive(init, seeded, a[..], maxPrime);
    SievedBits(init, a[..], maxPrime);
    CandidateCountOfSieved(a[..], maxPrime);
    count := CountAllPrimes(a, maxPrime);
    PrimeCountSplit(maxPrime);
  }
}
