/**
 * The prime-number library: a trial-division primality test on the 6k +- 1
 * wheel, the n-th prime, prime counting, and a generator with bulk
 * enumerations and a resumable cursor. Every routine here works by loops
 * that update local state (or, for the cursor, a field), and each is proved
 * against the reference definitions of modules Primality and PrimeLists.
 */
module Primes {
  import opened Primality
  import opened PrimeLists

  /**
   * Primality by trial division. After 2 and 3 are settled, only divisor
   * pairs i - 1, i + 1 with i = 6, 12, 18, ... are tried, up to the integer
   * square root of n plus one.
   */
  method IsPrime(n: int) returns (b: bool)
    ensures b <==> Prime(n)
  {
    if n < 2 {
      return false;
    }
    if n == 2 || n == 3 {
      TwoAndThree(n);
      return true;
    }
    if n % 2 == 0 || n % 3 == 0 {
      MultipleOfTwoOrThree(n);
      return false;
    }
    var sqrtN := FloorSqrt(n) + 1;
    var i := 6;
    WheelStart(n);
    while i <= sqrtN
      invariant 6 <= i && i % 6 == 0
      invariant NoDivisorBelow(n, i - 1)
    {
      if n % (i - 1) == 0 || n % (i + 1) == 0 {
        WheelHit(n, i);
        return false;
      }
      WheelStep(n, i);
      i := i + 6;
    }
    WheelDone(n, i);
    return true;
  }

  /** A multiple of 2 or 3 other than 2 and 3 themselves is not prime. */
  lemma MultipleOfTwoOrThree(n: int)
    requires n >= 4 && (n % 2 == 0 || n % 3 == 0)
    ensures !Prime(n)
  {
    if n % 2 == 0 {
      NotPrimeByDivisor(n, 2);
    } else {
      NotPrimeByDivisor(n, 3);
    }
  }

  /**
   * A divisor pair tried inside the loop lies strictly between 1 and n, so
   * a hit proves n composite.
   */
  lemma WheelHit(n: int, i: int)
    requires n >= 0 && 6 <= i <= FloorSqrt(n) + 1
    requires n % (i - 1) == 0 || n % (i + 1) == 0
    ensures !Prime(n)
  {
    var r := FloorSqrt(n);
    FloorSqrtBounds(n);
    MulMonotone(5, r, r);
    assert i + 1 < n;
    if n % (i - 1) == 0 {
      NotPrimeByDivisor(n, i - 1);
    } else {
      NotPrimeByDivisor(n, i + 1);
    }
  }

  /** Once the loop passes FloorSqrt(n) + 1 without a divisor, n is prime. */
  lemma WheelDone(n: int, i: int)
    requires n >= 2 && i > FloorSqrt(n) + 1 && NoDivisorBelow(n, i - 1)
    ensures Prime(n)
  {
    var s := FloorSqrt(n) + 1;
    FloorSqrtBounds(n);
    MulMonotone(s, i - 1, i - 1);
    MulMonotone(s, i - 1, s);
    PrimeFromNoSmallDivisor(n, i - 1);
  }

  /** Between two consecutive candidates of the 6k +- 1 walk there is no prime. */
  lemma WalkSkipsNoPrime(c: int, step: int)
    requires c >= 5
    requires (step == 2 && c % 6 == 5) || (step == 4 && c % 6 == 1)
    ensures PrimesIn(2, c + step) == PrimesIn(2, c + 1)
  {
    var k := c / 6;
    if step == 2 {
      assert c + 1 == 2 * (3 * k + 3);
      MultipleNotPrime(c + 1, 2, 3 * k + 3);
      PrimesInSkip(2, c + 1);
    } else {
      assert c + 1 == 2 * (3 * k + 1) && c + 2 == 3 * (2 * k + 1) && c + 3 == 2 * (3 * k + 2);
      MultipleNotPrime(c + 1, 2, 3 * k + 1);
      MultipleNotPrime(c + 2, 3, 2 * k + 1);
      MultipleNotPrime(c + 3, 2, 3 * k + 2);
      PrimesInSkip(2, c + 1);
      PrimesInSkip(2, c + 2);
      PrimesInSkip(2, c + 3);
    }
  }

  /**
   * The n-th prime (n = 1 gives 2). Candidates 5, 7, 11, 13, ... are walked
   * with steps alternating 2 and 4, counting primes until there are n; the
   * last candidate tested is returned. For n < 1 the loop never runs and
   * the result is 1.
   */
  method NthPrime(n: int) returns (p: int)
    ensures n >= 1 ==> Prime(p) && |PrimesIn(2, p)| == n - 1
    ensures n < 1 ==> p == 1
  {
    if n == 1 {
      assert PrimesIn(2, 2) == [];
      return 2;
    }
    if n == 2 {
      assert PrimesIn(2, 3) == [2];
      return 3;
    }
    var candidate := 5;
    var step := 4;
    var count := 2;
    ghost var bound := PrimesBound(n);
    NotPrimeByDivisor(4, 2);
    assert PrimesIn(2, 5) == [2, 3];
    while count < n
      invariant candidate >= 5
      invariant (step == 4 && candidate % 6 == 5) || (step == 2 && candidate % 6 == 1)
      invariant 2 <= count && (count == 2 || count <= n)
      invariant n < 3 ==> candidate == 5 && step == 4
      invariant count == |PrimesIn(2, candidate)|
      invariant count == n ==> Prime(candidate - step) && |PrimesIn(2, candidate - step)| == n - 1
      decreases bound - candidate
    {
      if bound <= candidate {
        PrimesInGrows(2, bound, candidate);
        assert false;
      }
      var prime := IsPrime(candidate);
      if prime {
        count := count + 1;
      }
      WalkSkipsNoPrime(candidate, 6 - step);
      step := 6 - step;
      candidate := candidate + step;
    }
    return candidate - step;
  }

  /** The number of elements of a that are prime. */
  method Count(a: array<int>) returns (count: int)
    ensures count == PrimeCount(a[..])
  {
    count := 0;
    for i := 0 to a.Length
      invariant count == PrimeCount(a[..i])
    {
      var prime := IsPrime(a[i]);
      if prime {
        count := count + 1;
      }
      assert a[..i + 1][..i] == a[..i];
    }
    assert a[..a.Length] == a[..];
  }

  /** The number of primes p with 2 <= p < n; 0 when n <= 2. */
  method CountSmallerThan(n: int) returns (count: int)
    ensures count == |PrimesIn(2, n)|
    ensures n <= 2 ==> count == 0
  {
    count := 0;
    var i := 2;
    while i < n
      invariant 2 <= i && (i <= n || i == 2)
      invariant count == |PrimesIn(2, i)|
    {
      var prime := IsPrime(i);
      if prime {
        count := count + 1;
      }
      i := i + 1;
    }
  }

  /**
   * The prime generator. The bulk enumerations are static and use fresh
   * local state; the cursor `candidate` is the next value that Next will
   * probe.
   */
  class Generator {
    var candidate: int

    /** The cursor never sits below 2, the first prime. */
    ghost predicate Valid()
      reads this
    {
      candidate >= 2
    }

    /** A new generator starts at 2. */
    constructor ()
      ensures Valid() && candidate == 2
    {
      candidate := 2;
    }

    /** The first n primes, in ascending order, in a new array. */
    static method FirstN(n: int) returns (a: array<int>)
      requires n >= 0
      ensures fresh(a) && a.Length == n
      ensures FirstPrimes(a[..])
    {
      var candidate := 2;
      a := new int[n];
      var i := 0;
      ghost var bound := PrimesBound(n);
      while i < n
        invariant 0 <= i <= n && candidate >= 2
        invariant a[..i] == PrimesIn(2, candidate)
        decreases bound - candidate
      {
        if bound <= candidate {
          PrimesInGrows(2, bound, candidate);
          assert false;
        }
        var prime := IsPrime(candidate);
        if prime {
          a[i] := candidate;
          i := i + 1;
          candidate := candidate + 1;
        } else {
          candidate := candidate + 1;
        }
      }
      assert a[..] == a[..i];
      PrimesBelowAreFirst(candidate);
    }

    /** All primes below n, ascending: count them, then generate that many. */
    static method UpTo(n: int) returns (a: array<int>)
      ensures fresh(a) && a[..] == PrimesIn(2, n)
    {
      var k := CountSmallerThan(n);
      a := FirstN(k);
      PrimesBelowAreFirst(n);
      FirstPrimesUnique(a[..], PrimesIn(2, n));
    }

    /**
     * All primes p with lower <= p < upper, ascending. A lower bound of 2
     * takes the count-then-generate path; anything else scans the interval.
     */
    static method Between(lower: int, upper: int) returns (a: array<int>)
      ensures fresh(a) && a[..] == PrimesIn(lower, upper)
    {
      if lower == 2 && upper > lower {
        var k := CountSmallerThan(upper);
        a := FirstN(k);
        PrimesBelowAreFirst(upper);
        FirstPrimesUnique(a[..], PrimesIn(2, upper));
        return;
      }
      var primes: seq<int> := [];
      var i := lower;
      while i < upper
        invariant lower <= i && (i <= upper || i == lower)
        invariant primes == PrimesIn(lower, i)
      {
        var prime := IsPrime(i);
        if prime {
          primes := primes + [i];
        }
        i := i + 1;
      }
      a := new int[|primes|](j requires 0 <= j < |primes| => primes[j]);
      assert a[..] == primes;
    }

    /**
     * The first prime at or after the cursor; the cursor moves one past it,
     * so that successive calls yield successive primes.
     */
    method Next() returns (p: int)
      modifies this
      ensures Prime(p) && old(candidate) <= p
      ensures forall q :: old(candidate) <= q < p ==> !Prime(q)
      ensures candidate == p + 1 && Valid()
    {
      ghost var start := candidate;
      ghost var bound := PrimeAtLeast(candidate);
      var prime := IsPrime(candidate);
      while !prime
        invariant start <= candidate <= bound
        invariant prime <==> Prime(candidate)
        invariant forall q :: start <= q < candidate ==> !Prime(q)
        decreases bound - candidate
      {
        candidate := candidate + 1;
        prime := IsPrime(candidate);
      }
      p := candidate;
      candidate := candidate + 1;
    }

    /** Rewind the cursor to 2. */
    method Reset()
      modifies this
      ensures Valid() && candidate == 2
    {
      StartFrom(2);
    }

    /** Move the cursor to n, or to 2 when n is below 2. */
    method StartFrom(n: int)
      modifies this
      ensures Valid() && candidate == (if n < 2 then 2 else n)
    {
      candidate := if n < 2 then 2 else n;
    }
  }

  /**
   * k successive calls of Next from wherever the cursor sits yield, in
   * order, every prime between the old and the new cursor position.
   */
  method NextMany(g: Generator, k: nat) returns (s: seq<int>)
    modifies g
    ensures |s| == k
    ensures old(g.candidate) <= g.candidate
    ensures s == PrimesIn(old(g.candidate), g.candidate)
  {
    s := [];
    var j := 0;
    while j < k
      invariant 0 <= j <= k && |s| == j
      invariant old(g.candidate) <= g.candidate
      invariant s == PrimesIn(old(g.candidate), g.candidate)
    {
      ghost var c := g.candidate;
      var p := g.Next();
      NextPrimeExtends(old(g.candidate), c, p);
      s := s + [p];
      j := j + 1;
    }
  }

  /**
   * After a reset, k calls of Next yield the first k primes, the same
   * sequence FirstN(k) returns; a second reset starts the sequence over.
   */
  method ReplayFromReset(g: Generator, k: nat) returns (s: seq<int>)
    modifies g
    ensures |s| == k && FirstPrimes(s)
    ensures g.Valid()
  {
    g.Reset();
    s := NextMany(g, k);
    PrimesBelowAreFirst(g.candidate);
  }
}
