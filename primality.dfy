/**
 * The mathematical side of primality: what it means for an integer to be
 * prime, the divisibility facts that trial division relies on, an integer
 * square root (standing in for the floating-point square root the library
 * calls), and Euclid's theorem that there is always a prime further on.
 */
module Primality {

  /** n is prime: at least 2, and no d with 2 <= d < n divides it. */
  ghost predicate Prime(n: int) {
    n >= 2 && NoDivisorBelow(n, n)
  }

  /** No d with 2 <= d < bound divides n. */
  ghost predicate NoDivisorBelow(n: int, bound: int) {
    forall d :: 2 <= d < bound ==> n % d != 0
  }

  /** Euclidean division by a positive divisor has a unique quotient and remainder. */
  lemma ModOfMultiple(a: int, q: int, r: int)
    requires a > 0 && 0 <= r < a
    ensures (a * q + r) % a == r && (a * q + r) / a == q
  {
    var n := a * q + r;
    var q', r' := n / a, n % a;
    var t := q' - q;
    assert a * t == a * q' - a * q;
    assert a * t == r - r';
    if t >= 1 {
      MulAtLeast(a, t);
    } else if t <= -1 {
      MulAtLeast(a, -t);
    }
  }

  /** A positive multiple of a positive number is at least that number. */
  lemma MulAtLeast(a: int, t: int)
    requires a > 0 && t >= 1
    ensures a * t >= a
  {
    assert a * t == a * (t - 1) + a;
  }

  /** Multiplication by a non-negative number is monotone. */
  lemma MulMonotone(x: int, y: int, c: int)
    requires x <= y && c >= 0
    ensures x * c <= y * c
  {
    assert y * c - x * c == (y - x) * c;
  }

  /** Divisibility is transitive: e | d and d | n give e | n. */
  lemma DivisorTransitive(n: int, d: int, e: int)
    requires d > 0 && e > 0 && n % d == 0 && d % e == 0
    ensures n % e == 0
  {
    var k, m := n / d, d / e;
    assert n == d * k;
    assert d == e * m;
    assert n == e * (m * k);
    ModOfMultiple(e, m * k, 0);
  }

  /** A divisor d with 2 <= d < n proves n composite. */
  lemma NotPrimeByDivisor(n: int, d: int)
    requires 2 <= d < n && n % d == 0
    ensures !Prime(n)
  {
  }

  /** A product d * m with d, m >= 2 is not prime. */
  lemma MultipleNotPrime(n: int, d: int, m: int)
    requires d >= 2 && m >= 2 && n == d * m
    ensures !Prime(n)
  {
    MulMonotone(2, m, d);
    ModOfMultiple(d, m, 0);
    NotPrimeByDivisor(n, d);
  }

  /**
   * A composite n has a divisor no larger than its square root: if n = d * q
   * then the smaller of d and q is such a divisor.
   */
  lemma DivisorPair(n: int, d: int) returns (e: int)
    requires 2 <= d < n && n % d == 0
    ensures 2 <= e && e * e <= n && n % e == 0
  {
    var q := n / d;
    assert n == d * q;
    if q <= 1 {
      MulMonotone(q, 1, d);
      assert false;
    }
    if d * d <= n {
      e := d;
    } else {
      if d <= q {
        MulMonotone(d, q, d);
        assert false;
      }
      MulMonotone(q, d, q);
      ModOfMultiple(q, d, 0);
      e := q;
    }
  }

  /**
   * Trial division only needs to go up to the square root: if no d with
   * 2 <= d < b divides n and n < b * b, then n is prime.
   */
  lemma PrimeFromNoSmallDivisor(n: int, b: int)
    requires n >= 2 && b >= 0 && NoDivisorBelow(n, b) && n < b * b
    ensures Prime(n)
  {
    if !Prime(n) {
      var d :| 2 <= d < n && n % d == 0;
      var e := DivisorPair(n, d);
      assert e >= b;
      MulMonotone(b, e, e);
      MulMonotone(b, e, b);
      assert false;
    }
  }

  /**
   * One turn of the 6k +- 1 wheel: when n is divisible by neither 2 nor 3,
   * ruling out i - 1 and i + 1 (i a multiple of 6) rules out every divisor
   * below i + 5, since i, i + 2, i + 3 and i + 4 are multiples of 2 or 3.
   */
  lemma WheelStep(n: int, i: int)
    requires n % 2 != 0 && n % 3 != 0
    requires i >= 6 && i % 6 == 0
    requires NoDivisorBelow(n, i - 1)
    requires n % (i - 1) != 0 && n % (i + 1) != 0
    ensures NoDivisorBelow(n, i + 5)
  {
    var k := i / 6;
    assert i == 6 * k;
    forall d | 2 <= d < i + 5
      ensures n % d != 0
    {
      if i - 1 <= d && n % d == 0 {
        if d == i || d == i + 2 || d == i + 4 {
          ModOfMultiple(2, 3 * k + (d - i) / 2, 0);
          DivisorTransitive(n, d, 2);
        } else if d == i + 3 {
          ModOfMultiple(3, 2 * k + 1, 0);
          DivisorTransitive(n, d, 3);
        }
      }
    }
  }

  /** Before the wheel starts: divisors 2, 3 and 4 are ruled out by 2 and 3 alone. */
  lemma WheelStart(n: int)
    requires n % 2 != 0 && n % 3 != 0
    ensures NoDivisorBelow(n, 5)
  {
    forall d | 2 <= d < 5
      ensures n % d != 0
    {
      if d == 4 && n % 4 == 0 {
        DivisorTransitive(n, 4, 2);
      }
    }
  }

  /** The integer square root of n (0 for negative n); FloorSqrtBounds says what it is. */
  function FloorSqrt(n: int): int
  {
    SqrtFrom(n, 0)
  }

  /** The integer square root of n, searched for upwards from r. */
  function SqrtFrom(n: int, r: int): int
    decreases n - r
  {
    if r < n && (r + 1) * (r + 1) <= n then SqrtFrom(n, r + 1) else r
  }

  /** FloorSqrt(n) is the r >= 0 with r * r <= n < (r + 1) * (r + 1). */
  lemma FloorSqrtBounds(n: int)
    requires n >= 0
    ensures FloorSqrt(n) >= 0
    ensures FloorSqrt(n) * FloorSqrt(n) <= n < (FloorSqrt(n) + 1) * (FloorSqrt(n) + 1)
  {
    SqrtFromBounds(n, 0);
  }

  /** Searching upwards from any r with r * r <= n finds the integer square root. */
  lemma {:induction false} SqrtFromBounds(n: int, r: int)
    requires 0 <= r && r * r <= n
    ensures r <= SqrtFrom(n, r)
    ensures SqrtFrom(n, r) * SqrtFrom(n, r) <= n < (SqrtFrom(n, r) + 1) * (SqrtFrom(n, r) + 1)
    decreases n - r
  {
    if r < n && (r + 1) * (r + 1) <= n {
      SqrtFromBounds(n, r + 1);
    } else if r >= n {
      if r >= 1 {
        MulMonotone(1, r, r);
      }
      assert (r + 1) * (r + 1) == r * r + 2 * r + 1;
    }
  }

  /**
   * For n >= 2, n is prime exactly when nothing in [2, FloorSqrt(n)] divides
   * it: trial division up to the square root decides primality.
   */
  lemma PrimeIffNoDivisorUpToSqrt(n: int)
    requires n >= 2
    ensures Prime(n) <==> NoDivisorBelow(n, FloorSqrt(n) + 1)
  {
    var r := FloorSqrt(n);
    FloorSqrtBounds(n);
    if r + 1 > n {
      MulMonotone(2, r, r);
      assert false;
    }
    if NoDivisorBelow(n, r + 1) {
      PrimeFromNoSmallDivisor(n, r + 1);
    }
  }

  /** k! */
  function Factorial(k: nat): (f: int)
    ensures f >= 1
  {
    if k == 0 then 1 else k * Factorial(k - 1)
  }

  /** Every d with 1 <= d <= k divides k!. */
  lemma {:induction false} FactorialDivisible(k: nat, d: int)
    requires 1 <= d <= k
    ensures Factorial(k) % d == 0
  {
    var f := Factorial(k - 1);
    assert Factorial(k) == k * f;
    if d == k {
      ModOfMultiple(k, f, 0);
    } else {
      FactorialDivisible(k - 1, d);
      ModOfMultiple(f, k, 0);
      DivisorTransitive(Factorial(k), f, d);
    }
  }

  /** Every m >= 2 has a prime divisor. */
  lemma {:induction false} PrimeDivisor(m: int) returns (p: int)
    requires m >= 2
    ensures Prime(p) && p <= m && m % p == 0
    decreases m
  {
    if Prime(m) {
      ModOfMultiple(m, 1, 0);
      p := m;
    } else {
      var d :| 2 <= d < m && m % d == 0;
      p := PrimeDivisor(d);
      DivisorTransitive(m, d, p);
    }
  }

  /** If p >= 2 divides f, it does not divide f + 1. */
  lemma SuccessorNotMultiple(f: int, p: int)
    requires p >= 2 && f % p == 0
    ensures (f + 1) % p != 0
  {
    var q := f / p;
    assert f == p * q;
    ModOfMultiple(p, q, 1);
  }

  /** 2 and 3 are prime. */
  lemma TwoAndThree(n: int)
    requires n == 2 || n == 3
    ensures Prime(n)
  {
    forall d | 2 <= d < n
      ensures n % d != 0
    {
      assert d == 2;
    }
  }

  /**
   * Euclid: there is a prime at least as large as any n. A prime divisor of
   * k! + 1 (k = max(n, 2)) cannot divide k!, so it exceeds k.
   */
  lemma PrimeAtLeast(n: int) returns (p: int)
    ensures Prime(p) && n <= p
  {
    var k: nat := if n < 2 then 2 else n;
    var f := Factorial(k);
    p := PrimeDivisor(f + 1);
    if p <= k {
      FactorialDivisible(k, p);
      SuccessorNotMultiple(f, p);
      assert false;
    }
  }
}
