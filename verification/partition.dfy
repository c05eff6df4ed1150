/**
 * The static split of [1, max_prime] into one contiguous range per worker
 * that `calc_primes` computes from its worker id: every range has width
 * max_prime / num_threads except the last, which runs up to max_prime.
 */
module Partition {
  import opened Arithmetic

  /** First integer of worker `id`'s range. */
  function RangeMin(n: int, t: int, id: int): (lo: int)
    requires n >= 1 && 1 <= t && 0 <= id < t
    ensures 1 <= lo <= n
    ensures id == 0 ==> lo == 1
  {
    MulMono(n / t, id, t - 1);
    MulMono(n / t, t - 1, t);
    id * (n / t) + 1
  }

  /** Last integer of worker `id`'s range; the last worker absorbs the remainder. */
  function RangeMax(n: int, t: int, id: int): (hi: int)
    requires n >= 1 && 1 <= t && 0 <= id < t
    ensures RangeMin(n, t, id) - 1 <= hi <= n
    ensures id == t - 1 ==> hi == n
    ensures t <= n ==> RangeMin(n, t, id) <= hi
  {
    MulLeIffLeDiv(1, t, n);
    MulMono(n / t, id + 1, t);
    if id == t - 1 then n else RangeMin(n, t, id) + (n / t - 1)
  }

  /** Integer `k` lies in worker `id`'s range. */
  predicate InRange(n: int, t: int, id: int, k: int)
    requires n >= 1 && 1 <= t && 0 <= id < t
  {
    RangeMin(n, t, id) <= k <= RangeMax(n, t, id)
  }

  /** Each range ends just before the next one starts. */
  lemma RangesAdjacent(n: int, t: int, id: int)
    requires n >= 1 && 1 <= t && 0 <= id < t - 1
    ensures RangeMax(n, t, id) + 1 == RangeMin(n, t, id + 1)
  {
    assert (id + 1) * (n / t) == id * (n / t) + n / t;
  }

  /** The worker whose range holds `k`. */
  function Owner(n: int, t: int, k: int): (id: int)
    requires n >= 1 && 1 <= t && 1 <= k <= n
    ensures 0 <= id < t
  {
    if n / t == 0 || (k - 1) / (n / t) >= t - 1 then t - 1 else (k - 1) / (n / t)
  }

  /**
   * With ranges of positive width `w = n / t`, `k` lies in worker `id`'s range
   * exactly when `id` is at most `(k - 1) / w`, and, unless `id` is the last
   * worker, not below it.
   */
  lemma InRangeByQuotient(n: int, t: int, id: int, k: int)
    requires 1 <= t && 0 <= id < t && 1 <= k <= n && n / t > 0
    ensures InRange(n, t, id, k) <==> id <= (k - 1) / (n / t) && (id == t - 1 || (k - 1) / (n / t) < id + 1)
  {
    var w := n / t;
    MulLeIffLeDiv(id, w, k - 1);
    MulLeIffLeDiv(id + 1, w, k - 1);
    assert (id + 1) * w == id * w + w;
  }

  /**
   * The ranges cover [1, n] exactly once: every `k` in [1, n] lies in the range
   * of its owner and in no other worker's range.
   */
  lemma RangesPartition(n: int, t: int, k: int)
    requires n >= 1 && 1 <= t && 1 <= k <= n
    ensures forall id :: 0 <= id < t ==> (InRange(n, t, id, k) <==> id == Owner(n, t, k))
  {
    forall id | 0 <= id < t
      ensures InRange(n, t, id, k) <==> id == Owner(n, t, k)
    {
      if n / t > 0 {
        InRangeByQuotient(n, t, id, k);
      } else {
        assert id * (n / t) == 0;
      }
    }
  }
}
