/**
 * What the marking phases of threadedprimes.c may and must do to the buffer:
 * they only ever add marks, and only on composites (so every prime stays a
 * candidate); a worker marks only multiples of a seed candidate reached from
 * its range; and, seed candidate by seed candidate, it covers the odd
 * composites of its range.
 */
module Marking {
  import opened Arithmetic
  import opened Primality
  import opened Bitmap

  /** `t` is `s` with some more integers marked, each of them a composite in [2, n]. */
  ghost predicate MarksComposites(s: seq<bv8>, t: seq<bv8>, n: int)
  {
    && |t| == |s|
    && (forall k :: 0 <= k < 8 * |s| && !IsPrime(s, k) ==> !IsPrime(t, k))
    && (forall k :: 0 <= k < 8 * |s| && IsPrime(s, k) && !IsPrime(t, k) ==> 2 <= k <= n && !IsPrimeNumber(k))
  }

  /** Every odd prime up to `n` is still a candidate. */
  ghost predicate PrimesIntact(s: seq<bv8>, n: int)
    requires n < 8 * |s|
  {
    forall p :: 3 <= p <= n && IsPrimeNumber(p) ==> IsPrime(s, p)
  }

  /** An odd composite: the integers the sieve has to mark (the even ones start marked). */
  predicate OddComposite(c: int)
  {
    c >= 3 && c % 2 == 1 && !IsPrimeNumber(c)
  }

  /** `i` is a candidate within the seed bound: still unmarked and `i * i <= n`. */
  predicate SeedCandidate(s: seq<bv8>, n: int, i: int)
    requires n < 8 * |s|
  {
    0 <= i <= n && i * i <= n && IsPrime(s, i)
  }

  lemma MarksCompositesTransitive(s: seq<bv8>, t: seq<bv8>, u: seq<bv8>, n: int)
    requires MarksComposites(s, t, n) && MarksComposites(t, u, n)
    ensures MarksComposites(s, u, n)
  {
  }

  /** Marking only composites leaves every prime a candidate. */
  lemma IntactPreserved(s: seq<bv8>, t: seq<bv8>, n: int)
    requires n < 8 * |s| && MarksComposites(s, t, n) && PrimesIntact(s, n)
    ensures PrimesIntact(t, n)
  {
  }

  /** Marking a list of composites in [2, n] marks only composites. */
  lemma MarkAllComposites(s: seq<bv8>, ks: seq<int>, n: int)
    requires forall k :: k in ks ==> 0 <= k < 8 * |s| && 2 <= k <= n && !IsPrimeNumber(k)
    ensures MarksComposites(s, MarkAll(s, ks), n)
  {
    MarkAllBits(s, ks);
  }

  /** The least factor of an odd composite `c <= n` is an odd prime seed candidate, provided no prime was marked. */
  lemma LeastFactorIsSeed(s: seq<bv8>, n: int, c: int)
    requires n < 8 * |s| && PrimesIntact(s, n) && OddComposite(c) && c <= n
    ensures LeastFactor(c) >= 3 && SeedCandidate(s, n, LeastFactor(c))
    ensures IsPrimeNumber(LeastFactor(c)) && LeastFactor(c) % 2 == 1
    ensures LeastFactor(c) * LeastFactor(c) <= c
  {
    LeastFactorIsPrime(c);
    LeastFactorSquare(c);
    LeastFactorOdd(c);
    OddPrime(LeastFactor(c));
  }

  // ---------------------------------------------------------------------------
  // The multiples an inner loop marks
  // ---------------------------------------------------------------------------

  /**
   * The integers an inner marking loop visits: `i * j`, `i * (j + 1)`, ... while
   * the product is at most `bound`. They are exactly the multiples of `i` up to
   * `bound` whose cofactor is at least `j`.
   */
  function Multiples(i: int, j: int, bound: int): (ms: seq<int>)
    requires 2 <= i && 2 <= j
    ensures forall m :: m in ms ==> 4 <= m <= bound && !IsPrimeNumber(m)
    decreases bound - j
  {
    if i * j > bound then []
    else
      MulMono(i, 2, j);
      ProductNotPrime(i, j);
      [i * j] + Multiples(i, j + 1, bound)
  }

  /** The integers visited are exactly the multiples of `i` up to `bound` whose cofactor is at least `j`. */
  lemma {:induction false} MultiplesExactly(i: int, j: int, bound: int)
    requires 2 <= i && 2 <= j
    ensures forall m :: m in Multiples(i, j, bound) <==> m <= bound && Divides(i, m) && m / i >= j
    decreases bound - j
  {
    var ms := Multiples(i, j, bound);
    if i * j > bound {
      forall m | Divides(i, m) && m / i >= j
        ensures m > bound
      {
        MulMono(i, j, m / i);
      }
    } else {
      MultiplesExactly(i, j + 1, bound);
      MulDivMod(i, j);
      assert ms == [i * j] + Multiples(i, j + 1, bound);
      forall m
        ensures m in ms <==> m <= bound && Divides(i, m) && m / i >= j
      {
        if m != i * j && Divides(i, m) {
          assert m == i * (m / i);
        }
      }
    }
  }

  /** Marking the multiples of an inner loop marks only composites. */
  lemma MultiplesMarkComposites(s: seq<bv8>, i: int, j: int, n: int)
    requires 2 <= i && 2 <= j && n < 8 * |s|
    ensures forall m :: m in Multiples(i, j, n) ==> 0 <= m < 8 * |s|
    ensures MarksComposites(s, MarkAll(s, Multiples(i, j, n)), n)
  {
    MarkAllComposites(s, Multiples(i, j, n), n);
  }

  // ---------------------------------------------------------------------------
  // A worker's marks
  // ---------------------------------------------------------------------------

  /**
   * `k` is a mark the worker for [lo, hi] may make with seed `p`: `k = p * j`
   * with `j >= 3`, `j >= lo / p` and `k <= hi`.
   */
  ghost predicate WorkerMultiple(k: int, p: int, lo: int, hi: int, n: int)
  {
    2 <= p && p * p <= n && Divides(p, k) && k / p >= 3 && k / p >= lo / p && k <= hi
  }

  /** Since `start`, marks were only added, and each new one is a worker multiple. */
  ghost predicate OnlyWorkerMultiples(start: seq<bv8>, s: seq<bv8>, lo: int, hi: int, n: int)
  {
    && |s| == |start|
    && (forall k :: 0 <= k < 8 * |s| && !IsPrime(start, k) ==> !IsPrime(s, k))
    && (forall k :: 0 <= k < 8 * |s| && IsPrime(start, k) && !IsPrime(s, k) ==>
          exists p :: WorkerMultiple(k, p, lo, hi, n))
  }

  /** A worker multiple is a composite between `lo - p` and `hi`. */
  lemma WorkerMultipleBounds(k: int, p: int, lo: int, hi: int, n: int)
    requires WorkerMultiple(k, p, lo, hi, n)
    ensures 6 <= k <= hi && !IsPrimeNumber(k) && k > lo - p
  {
    var j := k / p;
    assert k == p * j;
    ProductNotPrime(p, j);
    MulMono(p, 2, j);
    MulMono(p, lo / p, j);
  }

  /** A worker that makes only worker multiples marks only composites up to `hi`. */
  lemma WorkerMarksComposites(start: seq<bv8>, s: seq<bv8>, lo: int, hi: int, n: int)
    requires OnlyWorkerMultiples(start, s, lo, hi, n) && hi <= n
    ensures MarksComposites(start, s, n)
  {
    forall k | 0 <= k < 8 * |s| && IsPrime(start, k) && !IsPrime(s, k)
      ensures 2 <= k <= n && !IsPrimeNumber(k)
    {
      var p :| WorkerMultiple(k, p, lo, hi, n);
      WorkerMultipleBounds(k, p, lo, hi, n);
    }
  }

  /** The start multiplier of a worker's inner loop: `min / i`, but at least 3. */
  function StartMultiplier(lo: int, i: int): (j: int)
    requires i >= 1
    ensures j >= 3 && j >= lo / i
  {
    if lo / i < 3 then 3 else lo / i
  }

  /** Marking the multiples of seed `i` from the start multiplier up to `hi` keeps the worker's marks legal. */
  lemma WorkerMarksMultiples(start: seq<bv8>, s: seq<bv8>, lo: int, hi: int, n: int, i: int)
    requires OnlyWorkerMultiples(start, s, lo, hi, n) && hi < 8 * |s|
    requires 2 <= i && i * i <= n
    ensures forall m :: m in Multiples(i, StartMultiplier(lo, i), hi) ==> 0 <= m < 8 * |s|
    ensures OnlyWorkerMultiples(start, MarkAll(s, Multiples(i, StartMultiplier(lo, i), hi)), lo, hi, n)
  {
    var ms := Multiples(i, StartMultiplier(lo, i), hi);
    MultiplesExactly(i, StartMultiplier(lo, i), hi);
    MarkAllBits(s, ms);
    forall m | m in ms
      ensures WorkerMultiple(m, i, lo, hi, n)
    {
    }
  }

  // ---------------------------------------------------------------------------
  // A worker's progress
  // ---------------------------------------------------------------------------

  /**
   * Every odd composite `c` in [lo, hi] whose least factor is below `i` is marked.
   */
  ghost predicate Covered(s: seq<bv8>, lo: int, hi: int, i: int)
    requires hi < 8 * |s|
  {
    forall c :: lo <= c <= hi && OddComposite(c) && LeastFactor(c) < i ==> !IsPrime(s, c)
  }

  /**
   * Marking the multiples of seed `i` from the start multiplier up to `hi` covers
   * the odd composites of [lo, hi] whose least factor is `i`: their cofactor is at
   * least `i >= 3` and at least `lo / i`.
   */
  lemma CoveredAfterMultiples(s: seq<bv8>, lo: int, hi: int, i: int)
    requires hi < 8 * |s| && 2 <= i && Covered(s, lo, hi, i)
    requires forall m :: m in Multiples(i, StartMultiplier(lo, i), hi) ==> 0 <= m < 8 * |s|
    ensures Covered(MarkAll(s, Multiples(i, StartMultiplier(lo, i), hi)), lo, hi, i + 1)
  {
    var ms := Multiples(i, StartMultiplier(lo, i), hi);
    MultiplesExactly(i, StartMultiplier(lo, i), hi);
    MarkAllBits(s, ms);
    forall c | lo <= c <= hi && OddComposite(c) && LeastFactor(c) == i
      ensures c in ms
    {
      LeastFactorSquare(c);
      LeastFactorOdd(c);
      MulLeIffLeDiv(i, i, c);
      DivMono(lo, c, i);
    }
  }

  /**
   * If no seed candidate lies strictly between `i` and `r` (or after `i` at all,
   * when `r` is 0), the coverage reaches `r` (or everything).
   */
  lemma CoveredNext(s: seq<bv8>, lo: int, hi: int, n: int, i: int, r: int)
    requires hi <= n < 8 * |s| && PrimesIntact(s, n) && i >= 1 && Covered(s, lo, hi, i + 1)
    requires forall m :: i < m && (r == 0 || m < r) ==> !SeedCandidate(s, n, m)
    requires r == 0 || r > i
    ensures Covered(s, lo, hi, if r == 0 then hi + 1 else r)
  {
    forall c | lo <= c <= hi && OddComposite(c) && LeastFactor(c) > i && (r == 0 || LeastFactor(c) < r)
      ensures false
    {
      LeastFactorIsSeed(s, n, c);
    }
  }
}
