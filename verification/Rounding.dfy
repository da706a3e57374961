/**
 Floating-point operations as real operations followed by a rounding.  Nothing is assumed about the
 rounding except that it keeps the numbers that a double holds, so that a computation whose every
 intermediate result is such a number is exact.
 */
module Rounding {
  import opened Bits

  /** `v` is `n * 2^(e - k)`, where `n` fits into the significand of a double and `e - k` into its exponent. */
  ghost predicate Scaled(v: real, n: int, k: nat, e: nat) {
    && -0x20_0000_0000_0000 < n < 0x20_0000_0000_0000 && k <= 1074 && e <= 971
    && v * (Pow2(k) as real) == (n * Pow2(e)) as real
  }

  /** `v` is the value of a finite double. */
  ghost predicate IsDouble(v: real) {
    exists n, k, e :: Scaled(v, n, k, e)
  }

  ghost predicate Rounds(fl: real -> real) {
    forall v :: IsDouble(v) ==> fl(v) == v
  }

  /** Exact arithmetic is one of the roundings. */
  ghost predicate Exact(fl: real -> real) {
    forall v: real :: fl(v) == v
  }

  /** What geohash.c computes from the ends of an interval to halve it comes out without a rounding error. */
  ghost predicate HalvesExactly(fl: real -> real, low: real, high: real) {
    && fl(low + high) == low + high && fl((low + high) / 2.0) == (low + high) / 2.0
    && fl(high - low) == high - low && fl((high - low) / 2.0) == (high - low) / 2.0
  }

  // ---------------------------------------------------------------------------------------------
  // Powers of two
  // ---------------------------------------------------------------------------------------------

  lemma {:induction false} PowMonotone(i: nat, j: nat)
    requires i <= j
    ensures Pow2(i) <= Pow2(j)
    decreases j - i
  {
    if i < j {
      PowMonotone(i, j - 1);
    }
  }

  lemma {:induction false} PowAdd(i: nat, j: nat)
    ensures Pow2(i + j) == Pow2(i) * Pow2(j)
    decreases j
  {
    if j > 0 {
      PowAdd(i, j - 1);
      assert Pow2(i + j) == 2 * Pow2(i + (j - 1));
    }
  }

  lemma PowEven(i: nat)
    requires i > 0
    ensures Pow2(i) == 2 * Pow2(i - 1)
  {
  }

  /** 2^48 and 2^53 */
  lemma BigPowers()
    ensures Pow2(48) == 0x1_0000_0000_0000 && Pow2(53) == 0x20_0000_0000_0000
  {
    Powers();
    hide Pow2;
    PowAdd(16, 16);
    PowAdd(32, 16);
    PowAdd(48, 5);
  }

  // ---------------------------------------------------------------------------------------------
  // Doubles
  // ---------------------------------------------------------------------------------------------

  lemma ScaledKept(fl: real -> real, v: real, n: int, k: nat)
    requires Rounds(fl) && -0x20_0000_0000_0000 < n < 0x20_0000_0000_0000 && k <= 1074
    requires v * (Pow2(k) as real) == n as real
    ensures fl(v) == v
  {
    PowZero();
    hide Pow2;
    assert Scaled(v, n, k, 0);
  }

  lemma PowZero()
    ensures Pow2(0) == 1
  {
  }

  /** Such a number and its half are kept. */
  lemma Kept(fl: real -> real, v: real, n: int, k: nat)
    requires Rounds(fl) && -0x20_0000_0000_0000 < n < 0x20_0000_0000_0000 && k < 1074
    requires v * (Pow2(k) as real) == n as real
    ensures fl(v) == v && fl(v / 2.0) == v / 2.0
  {
    hide *;
    PowNext(k);
    HalfTimes(v, Pow2(k) as real, Pow2(k + 1) as real);
    ScaledKept(fl, v, n, k);
    ScaledKept(fl, v / 2.0, n, k + 1);
  }

  lemma PowNext(m: nat)
    ensures Pow2(m + 1) as real == 2.0 * (Pow2(m) as real)
  {
  }

  lemma HalfTimes(v: real, p: real, q: real)
    requires q == 2.0 * p
    ensures v / 2.0 * q == v * p
  {
  }

  /** Both ends, multiplied by a power of two, are integers that are not too large; hence halving is exact. */
  lemma HalvesOfInterval(fl: real -> real, low: real, high: real, n: int, span: nat, k: nat)
    requires Rounds(fl) && k < 1074 && span < 0x20_0000_0000_0000
    requires low * (Pow2(k) as real) == n as real && high * (Pow2(k) as real) == (n + span) as real
    requires -0x20_0000_0000_0000 < 2 * n + span < 0x20_0000_0000_0000
    ensures HalvesExactly(fl, low, high)
  {
    hide Rounds, Pow2;
    SumTimes(low, high, Pow2(k) as real, n as real, span as real);
    Kept(fl, low + high, 2 * n + span, k);
    Kept(fl, high - low, span, k);
  }

  lemma SumTimes(low: real, high: real, w: real, n: real, span: real)
    requires low * w == n && high * w == n + span
    ensures (low + high) * w == 2.0 * n + span && (high - low) * w == span
  {
    assert (low + high) * w == low * w + high * w;
    assert (high - low) * w == high * w - low * w;
  }

  /** A fraction in lowest terms is no double when its numerator needs more than 53 bits, or when its
      denominator is beyond the smallest exponent. */
  lemma NotDouble(v: real, odd: nat, q: nat)
    requires v * (Pow2(q) as real) == odd as real && odd % 2 == 1
    requires odd >= 0x20_0000_0000_0000 || q > 1074
    ensures !IsDouble(v)
  {
    forall n: int, k: nat, e: nat ensures !Scaled(v, n, k, e) {
      if Scaled(v, n, k, e) {
        hide *;
        CrossMultiplied(v, odd, q, n, k, e);
        if k >= e + q {
          Reduced(odd, n, k, e + q);
          TooLong(odd, n, Pow2(k - e - q));
        } else {
          Reduced(n, odd, e + q, k);
          PowEven(e + q - k);
          NotOdd(odd, n, Pow2(e + q - k - 1));
        }
      }
    }
  }

  lemma CrossMultiplied(v: real, odd: nat, q: nat, n: int, k: nat, e: nat)
    requires v * (Pow2(q) as real) == odd as real && Scaled(v, n, k, e)
    ensures odd * Pow2(k) == n * Pow2(e + q)
    ensures -0x20_0000_0000_0000 < n < 0x20_0000_0000_0000 && k <= 1074
  {
    PowAdd(e, q);
    hide Pow2;
    Cross(v, Pow2(q) as real, Pow2(k) as real, odd as real, (n * Pow2(e)) as real);
    assert odd * Pow2(k) == n * Pow2(e) * Pow2(q) by {
      assert (odd * Pow2(k)) as real == odd as real * Pow2(k) as real;
      assert (n * Pow2(e) * Pow2(q)) as real == (n * Pow2(e)) as real * Pow2(q) as real;
    }
  }

  lemma Cross(v: real, a: real, b: real, c: real, d: real)
    requires v * a == c && v * b == d
    ensures c * b == d * a
  {
    assert v * a * b == v * b * a;
  }

  /** A common power of two is divided out. */
  lemma Reduced(a: int, b: int, k: nat, m: nat)
    requires a * Pow2(k) == b * Pow2(m) && k >= m
    ensures a * Pow2(k - m) == b
  {
    PowAdd(k - m, m);
    hide Pow2;
    Cancelled(a * Pow2(k - m), b, Pow2(m));
  }

  lemma Cancelled(a: int, b: int, p: nat)
    requires a * p == b * p && p > 0
    ensures a == b
  {
    if a < b {
      Less(a, b, p);
    } else if b < a {
      Less(b, a, p);
    }
  }

  lemma Less(a: int, b: int, p: nat)
    requires a < b && p > 0
    ensures a * p < b * p
  {
    assert (b - a) * p == b * p - a * p && (b - a) * p > 0;
  }

  lemma TooLong(odd: nat, n: int, p: nat)
    requires odd * p == n && p > 0 && odd > 0
    ensures odd <= n
  {
  }

  lemma NotOdd(odd: int, n: int, p: nat)
    requires odd == n * (2 * p)
    ensures odd % 2 == 0
  {
    assert odd == 2 * (n * p);
  }
}
