/**
 * The concrete values asserted by the library's unit tests, derived from the
 * reference definitions that the library's methods are proved against.
 */
module TestValues {
  import opened Primality
  import opened PrimeLists

  /**
   * The values the library's unit tests expect: isPrime(2), !isPrime(4),
   * isPrime(7919); nthPrime(6) = 13; the count of an all-prime array;
   * countSmallerThan(5) = 2 and countSmallerThan(19) = 7;
   * firstN(8) = upTo(20) = [2, 3, ..., 19]; between(4, 11) = [5, 7].
   */
  lemma ExpectedValues()
    ensures Prime(2) && !Prime(4) && Prime(7919)
    ensures Prime(13) && |PrimesIn(2, 13)| == 5
    ensures PrimesIn(2, 20) == [2, 3, 5, 7, 11, 13, 17, 19]
    ensures FirstPrimes([2, 3, 5, 7, 11, 13, 17, 19])
    ensures PrimeCount([2, 3, 5, 7, 11, 13, 17, 19]) == 8
    ensures |PrimesIn(2, 5)| == 2 && |PrimesIn(2, 19)| == 7
    ensures PrimesIn(4, 11) == [5, 7]
  {
    PrimesBelowTwenty();
    PrimesBelowAreFirst(20);
    CountBelowTwenty();
    Prime7919();
  }

  /** Every element of the list of primes below 20 is counted. */
  lemma CountBelowTwenty()
    ensures PrimeCount([2, 3, 5, 7, 11, 13, 17, 19]) == 8
  {
    var s := PrimesIn(2, 20);
    PrimesBelowTwenty();
    PrimesInMembers(2, 20);
    assert AllPrime(s);
    PrimeCountAllPrime(s);
  }

  /** Which of 2, ..., 19 are prime. */
  lemma SmallPrimality()
    ensures Prime(2) && Prime(3) && Prime(5) && Prime(7) && Prime(11) && Prime(13) && Prime(17) && Prime(19)
    ensures !Prime(4) && !Prime(6) && !Prime(8) && !Prime(9) && !Prime(10) && !Prime(12) && !Prime(14) && !Prime(15) && !Prime(16) && !Prime(18)
  {
    assert Prime(3);
    NotPrimeByDivisor(4, 2);
    SmallPrime(5);
    NotPrimeByDivisor(6, 2);
    SmallPrime(7);
    NotPrimeByDivisor(8, 2);
    NotPrimeByDivisor(9, 3);
    NotPrimeByDivisor(10, 2);
    SmallPrime(11);
    NotPrimeByDivisor(12, 2);
    SmallPrime(13);
    NotPrimeByDivisor(14, 2);
    NotPrimeByDivisor(15, 3);
    NotPrimeByDivisor(16, 2);
    SmallPrime(17);
    NotPrimeByDivisor(18, 2);
    SmallPrime(19);
  }

  /** The primes below 20, and those of [4, 11), listed. */
  lemma PrimesBelowTwenty()
    ensures PrimesIn(2, 20) == [2, 3, 5, 7, 11, 13, 17, 19]
    ensures Prime(2) && !Prime(4) && Prime(13)
    ensures |PrimesIn(2, 5)| == 2 && |PrimesIn(2, 13)| == 5 && |PrimesIn(2, 19)| == 7
    ensures PrimesIn(4, 11) == [5, 7]
  {
    SmallPrimality();
    assert PrimesIn(2, 2) == [];
    assert PrimesIn(2, 3) == [2];
    assert PrimesIn(2, 4) == [2, 3];
    assert PrimesIn(2, 5) == [2, 3];
    assert PrimesIn(2, 6) == [2, 3, 5];
    assert PrimesIn(2, 7) == [2, 3, 5];
    assert PrimesIn(2, 8) == [2, 3, 5, 7];
    assert PrimesIn(2, 9) == [2, 3, 5, 7];
    assert PrimesIn(2, 10) == [2, 3, 5, 7];
    assert PrimesIn(2, 11) == [2, 3, 5, 7];
    assert PrimesIn(2, 12) == [2, 3, 5, 7, 11];
    assert PrimesIn(2, 13) == [2, 3, 5, 7, 11];
    assert PrimesIn(2, 14) == [2, 3, 5, 7, 11, 13];
    assert PrimesIn(2, 15) == [2, 3, 5, 7, 11, 13];
    assert PrimesIn(2, 16) == [2, 3, 5, 7, 11, 13];
    assert PrimesIn(2, 17) == [2, 3, 5, 7, 11, 13];
    assert PrimesIn(2, 18) == [2, 3, 5, 7, 11, 13, 17];
    assert PrimesIn(2, 19) == [2, 3, 5, 7, 11, 13, 17];
    assert PrimesIn(2, 20) == [2, 3, 5, 7, 11, 13, 17, 19];
    assert PrimesIn(4, 4) == [];
    assert PrimesIn(4, 5) == [];
    assert PrimesIn(4, 6) == [5];
    assert PrimesIn(4, 7) == [5];
    assert PrimesIn(4, 8) == [5, 7];
    assert PrimesIn(4, 9) == [5, 7];
    assert PrimesIn(4, 10) == [5, 7];
    assert PrimesIn(4, 11) == [5, 7];
  }

  /** An odd number below 25 that 3 does not divide, other than 1, is prime. */
  lemma SmallPrime(n: int)
    requires 5 <= n < 25 && n % 2 != 0 && n % 3 != 0
    ensures Prime(n)
  {
    WheelStart(n);
    PrimeFromNoSmallDivisor(n, 5);
  }

  /** 7919 is prime: the wheel up to 89 finds no divisor, and 89 * 89 > 7919. */
  lemma Prime7919()
    ensures Prime(7919)
  {
    WheelStart(7919);
    WheelStep(7919, 6);
    WheelStep(7919, 12);
    WheelStep(7919, 18);
    WheelStep(7919, 24);
    WheelStep(7919, 30);
    WheelStep(7919, 36);
    WheelStep(7919, 42);
    WheelStep(7919, 48);
    WheelStep(7919, 54);
    WheelStep(7919, 60);
    WheelStep(7919, 66);
    WheelStep(7919, 72);
    WheelStep(7919, 78);
    WheelStep(7919, 84);
    PrimeFromNoSmallDivisor(7919, 89);
  }
}
