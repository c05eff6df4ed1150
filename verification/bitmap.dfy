/**
 * The bit-packed sieve buffer of threadedprimes.c: integer k lives in byte
 * k / 8 at bit k % 8, and a set bit means "not prime". The buffer is a
 * sequence of bytes (bv8); `Bits` reads it as one sequence of booleans, the
 * abstract view every contract below is stated against.
 */
module Bitmap {
  import opened Primality

  /** The mask `1 << i` that selects bit `i` of a byte. */
  function Bit(i: int): (m: bv8)
    requires 0 <= i < 8
    ensures m == (1 as bv8) << i
  {
    match i
    case 0 => 0x01
    case 1 => 0x02
    case 2 => 0x04
    case 3 => 0x08
    case 4 => 0x10
    case 5 => 0x20
    case 6 => 0x40
    case 7 => 0x80
  }

  /** The buffer as a sequence of bits: entry `k` is bit `k % 8` of byte `k / 8`, true meaning set. */
  function Bits(s: seq<bv8>): (r: seq<bool>)
    ensures |r| == 8 * |s|
  {
    seq(8 * |s|, k requires 0 <= k < 8 * |s| => s[k / 8] & Bit(k % 8) != 0)
  }

  /** A byte is determined by its eight bits. */
  lemma ByteFromBits(x: bv8, y: bv8)
    requires forall i :: 0 <= i < 8 ==> (x & Bit(i) != 0) == (y & Bit(i) != 0)
    ensures x == y
  {
    assert (x & Bit(0) != 0) == (y & Bit(0) != 0);
    assert (x & Bit(1) != 0) == (y & Bit(1) != 0);
    assert (x & Bit(2) != 0) == (y & Bit(2) != 0);
    assert (x & Bit(3) != 0) == (y & Bit(3) != 0);
    assert (x & Bit(4) != 0) == (y & Bit(4) != 0);
    assert (x & Bit(5) != 0) == (y & Bit(5) != 0);
    assert (x & Bit(6) != 0) == (y & Bit(6) != 0);
    assert (x & Bit(7) != 0) == (y & Bit(7) != 0);
  }

  /** Two buffers with the same bits are the same buffer. */
  lemma BitsInjective(s: seq<bv8>, t: seq<bv8>)
    requires |s| == |t| && Bits(s) == Bits(t)
    ensures s == t
  {
    forall b | 0 <= b < |s|
      ensures s[b] == t[b]
    {
      forall i | 0 <= i < 8
        ensures (s[b] & Bit(i) != 0) == (t[b] & Bit(i) != 0)
      {
        var k := 8 * b + i;
        assert k / 8 == b && k % 8 == i;
        assert Bits(s)[k] == Bits(t)[k];
      }
      ByteFromBits(s[b], t[b]);
    }
  }

  /** `is_prime`: integer `k` is still a candidate, i.e. its bit is clear. */
  function IsPrime(s: seq<bv8>, k: int): (r: bool)
    requires 0 <= k < 8 * |s|
    ensures r == !Bits(s)[k]
  {
    s[k / 8] & Bit(k % 8) == 0
  }

  /** OR-ing bit `i` into a byte sets bit `i` and leaves the other bits as they were. */
  lemma OrBit(x: bv8, i: int, j: int)
    requires 0 <= i < 8 && 0 <= j < 8
    ensures ((x | Bit(i)) & Bit(j) != 0) == (i == j || x & Bit(j) != 0)
  {
  }

  lemma SetBitEffect(s: seq<bv8>, k: int)
    requires 0 <= k < 8 * |s|
    ensures Bits(s[k / 8 := s[k / 8] | Bit(k % 8)]) == Bits(s)[k := true]
  {
    var r := s[k / 8 := s[k / 8] | Bit(k % 8)];
    forall m | 0 <= m < 8 * |s|
      ensures Bits(r)[m] == Bits(s)[k := true][m]
    {
      if m / 8 == k / 8 {
        OrBit(s[k / 8], k % 8, m % 8);
      }
    }
  }

  /** Setting bit `b` of byte `t` sets exactly the bit of integer `8 * t + b`. */
  lemma SetByteBit(s: seq<bv8>, t: int, b: int)
    requires 0 <= t < |s| && 0 <= b < 8
    ensures Bits(s[t := s[t] | Bit(b)]) == Bits(s)[8 * t + b := true]
  {
    var k := 8 * t + b;
    assert k / 8 == t && k % 8 == b;
    SetBitEffect(s, k);
  }

  /**
   * The buffer after `isnt_prime(k)` with the byte index the source evidently
   * intends (`k / 8`): exactly bit `k` becomes set.
   */
  function Mark(s: seq<bv8>, k: int): (r: seq<bv8>)
    requires 0 <= k < 8 * |s|
    ensures |r| == |s| && Bits(r) == Bits(s)[k := true]
  {
    SetBitEffect(s, k);
    s[k / 8 := s[k / 8] | Bit(k % 8)]
  }

  /** Marking the same integer twice is the same as marking it once. */
  lemma MarkIdempotent(s: seq<bv8>, k: int)
    requires 0 <= k < 8 * |s|
    ensures Mark(Mark(s, k), k) == Mark(s, k)
  {
    assert Bits(Mark(Mark(s, k), k)) == Bits(Mark(s, k));
    BitsInjective(Mark(Mark(s, k), k), Mark(s, k));
  }

  /** Two marks commute, so the order in which integers are marked does not matter. */
  lemma MarkCommutes(s: seq<bv8>, k: int, m: int)
    requires 0 <= k < 8 * |s| && 0 <= m < 8 * |s|
    ensures Mark(Mark(s, k), m) == Mark(Mark(s, m), k)
  {
    assert Bits(Mark(Mark(s, k), m)) == Bits(Mark(Mark(s, m), k));
    BitsInjective(Mark(Mark(s, k), m), Mark(Mark(s, m), k));
  }

  /** The buffer after marking every integer of `ks`, first to last. */
  function MarkAll(s: seq<bv8>, ks: seq<int>): (r: seq<bv8>)
    requires forall k :: k in ks ==> 0 <= k < 8 * |s|
    ensures |r| == |s|
    decreases |ks|
  {
    if ks == [] then s
    else
      assert ks[0] in ks && forall k :: k in ks[1..] ==> k in ks;
      MarkAll(Mark(s, ks[0]), ks[1..])
  }

  /** After a series of marks, a bit is set exactly when it was set before or its integer was marked. */
  lemma {:induction false} MarkAllBits(s: seq<bv8>, ks: seq<int>)
    requires forall k :: k in ks ==> 0 <= k < 8 * |s|
    ensures forall k :: 0 <= k < 8 * |s| ==> Bits(MarkAll(s, ks))[k] == (Bits(s)[k] || k in ks)
    decreases |ks|
  {
    if ks != [] {
      assert ks[0] in ks && forall k :: k in ks[1..] ==> k in ks;
      MarkAllBits(Mark(s, ks[0]), ks[1..]);
      assert forall k :: k in ks <==> k == ks[0] || k in ks[1..];
    }
  }

  /**
   * Marking the same integers in any order, with any repetitions, gives the same
   * buffer: the final state of the sieve does not depend on how the workers' marks
   * interleave, as long as each mark is a single OR.
   */
  lemma MarkAllOrderIrrelevant(s: seq<bv8>, ks1: seq<int>, ks2: seq<int>)
    requires forall k :: k in ks1 ==> 0 <= k < 8 * |s|
    requires forall k :: k in ks2 ==> 0 <= k < 8 * |s|
    requires forall k :: k in ks1 <==> k in ks2
    ensures MarkAll(s, ks1) == MarkAll(s, ks2)
  {
    MarkAllBits(s, ks1);
    MarkAllBits(s, ks2);
    assert Bits(MarkAll(s, ks1)) == Bits(MarkAll(s, ks2));
    BitsInjective(MarkAll(s, ks1), MarkAll(s, ks2));
  }

  /** `isnt_prime`: set the bit of `k` in the buffer, with the intended byte index `k / 8`. */
  method IsntPrime(a: array<bv8>, k: int)
    requires 0 <= k < 8 * a.Length
    modifies a
    ensures a[..] == Mark(old(a[..]), k)
  {
    var byteIndex, bitIndex := k / 8, k % 8;
    a[byteIndex] := a[byteIndex] | Bit(bitIndex);
  }

  // ---------------------------------------------------------------------------
  // The write as the source has it
  // ---------------------------------------------------------------------------

  /** What a write through a byte-valued index does. */
  datatype Write = OutOfBounds | Written(buffer: seq<bv8>)

  /** The value a (signed) `char` holding byte `b` has. */
  function SignedValue(b: bv8): (v: int)
    ensures -128 <= v < 128 && v % 256 == b as int
  {
    if b < 128 then b as int else b as int - 256
  }

  /**
   * `isnt_prime` as written: it reads byte `k / 8` and then ORs the bit into the
   * byte whose INDEX is that byte's value; a value outside the buffer is an
   * out-of-bounds write.
   */
  function MarkAsWritten(s: seq<bv8>, k: int): (w: Write)
    requires 0 <= k < 8 * |s|
    ensures w.Written? <==> 0 <= SignedValue(s[k / 8]) < |s|
    ensures w.Written? ==> |w.buffer| == |s|
    ensures w.Written? ==> Bits(w.buffer) == Bits(s)[8 * SignedValue(s[k / 8]) + k % 8 := true]
  {
    var target := SignedValue(s[k / 8]);
    if 0 <= target < |s| then
      SetByteBit(s, target, k % 8);
      Written(s[target := s[target] | Bit(k % 8)])
    else OutOfBounds
  }

  /**
   * Marking 9 as written: on a freshly patterned buffer of three bytes the write
   * goes to index 0x55 = 85, out of bounds; on a buffer long enough to hold
   * index 85 it sets the bit of 681 (= 85 * 8 + 1) and leaves 9 unmarked.
   */
  lemma MarkAsWrittenMissesTarget(g: bv8, s: seq<bv8>)
    requires |s| > 85 && s[1] == 0x55
    ensures MarkAsWritten([0x56, 0x55, g], 9) == OutOfBounds
    ensures MarkAsWritten(s, 9).Written?
    ensures IsPrime(MarkAsWritten(s, 9).buffer, 9) == IsPrime(s, 9)
    ensures !IsPrime(MarkAsWritten(s, 9).buffer, 681)
    ensures !IsPrime(Mark(s, 9), 9)
  {
    var r := MarkAsWritten(s, 9).buffer;
    assert r == s[85 := s[85] | Bit(1)];
  }

  // ---------------------------------------------------------------------------
  // Initial pattern
  // ---------------------------------------------------------------------------

  /** Byte 0 of the initial pattern, 0b01010110: 1, 2, 4 and 6 are marked. */
  const FirstByte: bv8 := 0x56
  /** Every other initialised byte, 0b01010101: the even integers are marked. */
  const OtherByte: bv8 := 0x55

  /** The buffer after bytes 1 .. upto - 1 have been filled with the pattern and byte 0 with its own. */
  function Initialized(s: seq<bv8>, upto: int): (r: seq<bv8>)
    requires |s| >= 1
    ensures |r| == |s| && r[0] == FirstByte
    ensures forall b :: 1 <= b < |s| ==> r[b] == (if b < upto then OtherByte else s[b])
  {
    seq(|s|, b requires 0 <= b < |s| => if b == 0 then FirstByte else if b < upto then OtherByte else s[b])
  }

  lemma PatternBits(i: int)
    requires 0 <= i < 8
    ensures (FirstByte & Bit(i) == 0) == (i == 0 || i == 3 || i == 5 || i == 7)
    ensures (OtherByte & Bit(i) == 0) == (i % 2 == 1)
  {
  }

  /**
   * In the patterned bytes the candidates are 0 and the odd integers from 3 on;
   * the bytes from `upto` on (other than byte 0) keep whatever they held.
   */
  lemma InitialPattern(s: seq<bv8>, upto: int)
    requires |s| >= 1
    ensures forall k :: 0 <= k < 8 * |s| && (k < 8 || k < 8 * upto) ==>
              (IsPrime(Initialized(s, upto), k) <==> k == 0 || (k % 2 == 1 && k >= 3))
    ensures forall k :: 8 <= k < 8 * |s| && k >= 8 * upto ==> IsPrime(Initialized(s, upto), k) == IsPrime(s, k)
  {
    var r := Initialized(s, upto);
    forall k | 0 <= k < 8 * |s|
      ensures (k < 8 || k < 8 * upto) ==> (IsPrime(r, k) <==> k == 0 || (k % 2 == 1 && k >= 3))
      ensures 8 <= k && k >= 8 * upto ==> IsPrime(r, k) == IsPrime(s, k)
    {
      PatternBits(k % 8);
      assert k % 2 == (k % 8) % 2;
    }
  }

  /**
   * `create_bitmap` with the fill loop running up to the last allocated byte
   * (index `maxPrime / 8`), so that every byte of the buffer holds the pattern.
   */
  method CreateBitmap(a: array<bv8>, maxPrime: int)
    requires maxPrime >= 0 && a.Length == maxPrime / 8 + 1
    modifies a
    ensures a[..] == Initialized(old(a[..]), a.Length)
  {
    a[0] := FirstByte;
    var i := 1;
    while i <= maxPrime / 8
      invariant 1 <= i <= a.Length
      invariant a[..] == Initialized(old(a[..]), i)
    {
      a[i] := OtherByte;
      i := i + 1;
    }
  }

  /**
   * `create_bitmap` as written: the fill loop stops at `i < maxPrime / 8`, so the
   * last allocated byte (index `maxPrime / 8`) is not written when it is not byte 0.
   */
  method CreateBitmapAsWritten(a: array<bv8>, maxPrime: int)
    requires maxPrime >= 0 && a.Length == maxPrime / 8 + 1
    modifies a
    ensures a[..] == Initialized(old(a[..]), maxPrime / 8)
  {
    a[0] := FirstByte;
    var i := 1;
    while i < maxPrime / 8
      invariant 1 <= i && (i <= maxPrime / 8 || i == 1)
      invariant a[..] == Initialized(old(a[..]), i)
    {
      a[i] := OtherByte;
      i := i + 1;
    }
    if maxPrime / 8 == 0 {
      assert Initialized(old(a[..]), 0) == Initialized(old(a[..]), 1);
    }
  }

  /**
   * Unwritten byte, as written: with N = 15 the fill loop stops before byte 1,
   * so if that byte holds 0xFF the primes 11 and 13 start out marked.
   */
  lemma UnwrittenByteHidesPrimes(g: bv8)
    ensures !IsPrime(Initialized([g, 0xFF], 15 / 8), 11)
    ensures !IsPrime(Initialized([g, 0xFF], 15 / 8), 13)
    ensures IsPrimeNumber(11) && IsPrimeNumber(13)
  {
    var r := Initialized([g, 0xFF], 15 / 8);
    assert r == [FirstByte, 0xFF];
    forall d | 2 <= d < 11
      ensures !Divides(d, 11)
    {
    }
    forall d | 2 <= d < 13
      ensures !Divides(d, 13)
    {
    }
  }
}
