/**
 * Number-theoretic vocabulary for the sieve: divisibility, primality, the
 * least factor of a number, and the two prime-counting functions that the
 * final count of threadedprimes.c is compared against.
 */
module Primality {
  import opened Arithmetic

  /** `d` divides `n` (for a positive `d`). */
  predicate Divides(d: int, n: int)
    requires d > 0
  {
    n % d == 0
  }

  /** `n` is a prime number: at least 2 and without a divisor strictly between 1 and `n`. */
  predicate IsPrimeNumber(n: int)
  {
    n >= 2 && forall d :: 2 <= d < n ==> !Divides(d, n)
  }

  /** A product of two factors of at least 2 is not prime. */
  lemma ProductNotPrime(p: int, q: int)
    requires p >= 2 && q >= 2
    ensures !IsPrimeNumber(p * q)
  {
    MulDivMod(p, q);
    MulMono(p, 2, q);
    assert Divides(p, p * q);
  }

  // ---------------------------------------------------------------------------
  // Least factor
  // ---------------------------------------------------------------------------

  /** The least divisor of `c` that is at least `d`; it exists because `c` divides itself. */
  function LeastDivisorFrom(c: int, d: int): (m: int)
    requires 2 <= d <= c
    ensures d <= m <= c && Divides(m, c)
    ensures forall e :: d <= e < m ==> !Divides(e, c)
    decreases c - d
  {
    if Divides(d, c) then d
    else
      MulDivMod(c, 1);
      LeastDivisorFrom(c, d + 1)
  }

  /** The least factor (at least 2) of `c`. */
  function LeastFactor(c: int): (m: int)
    requires c >= 2
    ensures 2 <= m <= c && Divides(m, c)
  {
    LeastDivisorFrom(c, 2)
  }

  /** The least factor of a number is itself prime. */
  lemma LeastFactorIsPrime(c: int)
    requires c >= 2
    ensures IsPrimeNumber(LeastFactor(c))
  {
    var m := LeastFactor(c);
    forall e | 2 <= e < m
      ensures !Divides(e, m)
    {
      if Divides(e, m) {
        var a, b := m / e, c / m;
        assert m == e * a && c == m * b;
        assert c == e * (a * b);
        MulDivMod(e, a * b);
        assert Divides(e, c);
      }
    }
  }

  /** The cofactor of a proper divisor `m` of `c` is itself a proper divisor of `c`. */
  lemma Cofactor(c: int, m: int)
    requires 2 <= m < c && Divides(m, c)
    ensures c == m * (c / m) && 2 <= c / m && Divides(c / m, c)
  {
    var q := c / m;
    if q <= 1 {
      MulMono(m, q, 1);
      assert false;
    }
    MulDivMod(q, m);
  }

  /** A composite `c` has its least factor below itself. */
  lemma LeastFactorBelow(c: int)
    requires c >= 2 && !IsPrimeNumber(c)
    ensures LeastFactor(c) < c
  {
    var d :| 2 <= d < c && Divides(d, c);
  }

  /** A composite `c` has its least factor `m` below itself, with `m * m <= c`. */
  lemma LeastFactorSquare(c: int)
    requires c >= 2 && !IsPrimeNumber(c)
    ensures LeastFactor(c) < c && LeastFactor(c) * LeastFactor(c) <= c
  {
    var m := LeastFactor(c);
    LeastFactorBelow(c);
    Cofactor(c, m);
    var q := c / m;
    if q < m {
      assert false;
    }
    MulMono(m, m, q);
  }

  /** An odd number has an odd least factor, so at least 3. */
  lemma LeastFactorOdd(c: int)
    requires c >= 2 && c % 2 == 1
    ensures LeastFactor(c) >= 3
  {
    if LeastFactor(c) == 2 {
      assert false;
    }
  }

  /** A prime other than 2 is odd. */
  lemma OddPrime(p: int)
    requires IsPrimeNumber(p) && p >= 3
    ensures p % 2 == 1
  {
    assert !Divides(2, p);
  }

  // ---------------------------------------------------------------------------
  // Counting primes
  // ---------------------------------------------------------------------------

  /** Number of odd primes in [3, n]. */
  function OddPrimeCount(n: int): nat
    decreases n
  {
    if n < 3 then 0
    else OddPrimeCount(n - 1) + (if n % 2 == 1 && IsPrimeNumber(n) then 1 else 0)
  }

  /** Number of primes in [1, n]. */
  function PrimeCount(n: int): nat
    decreases n
  {
    if n < 2 then 0
    else PrimeCount(n - 1) + (if IsPrimeNumber(n) then 1 else 0)
  }

  /** 2 is the only even prime, so the primes up to `n` are the odd ones plus 2. */
  lemma {:induction false} PrimeCountSplit(n: int)
    ensures PrimeCount(n) == OddPrimeCount(n) + (if n >= 2 then 1 else 0)
    decreases n
  {
    if n >= 3 {
      PrimeCountSplit(n - 1);
      if n % 2 == 0 {
        assert Divides(2, n);
      }
    } else if n == 2 {
      assert IsPrimeNumber(2);
    }
  }
}
