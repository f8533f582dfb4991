# Primes — a verified model of a trial-division prime library

This project models the Java class `org.aghannam.primes.Primes` in Dafny.
The library has two parts:

- A deterministic primality test, `isPrime`. It settles 2 and 3 directly, rejects multiples of 2 and 3, and then tries divisor pairs `6k - 1` and `6k + 1` up to the integer square root plus one (the "6k ± 1 wheel").
- The enumerations built on that test:
  - `nthPrime`, the n-th prime;
  - `count`, the number of primes in an array;
  - `countSmallerThan`, the number of primes below a bound;
  - the nested class `Generator`, with three bulk operations (`firstN`, `upTo`, `between`) and a resumable cursor (`next`, `reset`, `startFrom`).

The model has four modules:

- `Primality` (`primality.dfy`) defines what the library computes: the predicate `Prime`, the divisibility facts that trial division relies on, `FloorSqrt` in place of `Math.sqrt`, and Euclid's theorem (`PrimeAtLeast`).
- `PrimeLists` (`prime_lists.dfy`) holds the reference definitions for the enumerations:
  - `PrimesIn(lo, hi)`, the primes of `[lo, hi)` in ascending order;
  - `FirstPrimes(s)`, "s is the first |s| primes";
  - `PrimeCount(s)`, the number of prime elements of `s`.

  It also holds the lemmas about these definitions.
- `Primes` (`primes.dfy`) is the library itself, in its own imperative form:
  - `IsPrime`, `NthPrime`, `Count` and `CountSmallerThan` are methods whose loops carry invariants.
  - `Generator` is a class. `FirstN`, `UpTo` and `Between` are static methods returning fresh arrays. The cursor `candidate` is a field, updated by `Next`, `Reset` and `StartFrom`.

  Every method is proved against the reference definitions.
- `TestValues` (`test_values.dfy`) derives, from the reference definitions, the concrete values that the library's unit tests expect.

Three searches terminate only because there are infinitely many primes: the loops of `next`, `firstN` and `nthPrime`. Their termination is proved with ghost bounds from Euclid's theorem (`PrimeAtLeast`, `PrimesBound`).

## Model

| member | source | states |
|---|---|---|
| `Primes.IsPrime` | Primes/src/org/aghannam/primes/Primes.java:93-106 | For every integer n, the result is true exactly when n is prime: n >= 2 and no d with 2 <= d < n divides n. Negative numbers, 0 and 1 give false. |
| `Primality.FloorSqrtBounds` | Primes/src/org/aghannam/primes/Primes.java:100 | `FloorSqrt(n)`, the integer square root that stands in for `(int) Math.sqrt(n)`, is the r >= 0 with r * r <= n < (r + 1) * (r + 1). |
| `Primality.WheelStart` | Primes/src/org/aghannam/primes/Primes.java:98 | If neither 2 nor 3 divides n, then no d in [2, 5) divides n. This is the state when the wheel starts at i = 6. |
| `Primality.WheelStep` | Primes/src/org/aghannam/primes/Primes.java:101-104 | One turn of the 6k ± 1 loop. For n coprime to 6 with no divisor below i - 1, ruling out i - 1 and i + 1 rules out every divisor below i + 5. |
| `Primes.MultipleOfTwoOrThree` | Primes/src/org/aghannam/primes/Primes.java:98-99 | A multiple of 2 or 3 that is at least 4 is not prime. So the early `return false` is right. |
| `Primes.WheelHit` | Primes/src/org/aghannam/primes/Primes.java:101-103 | A divisor pair tried inside the loop lies strictly between 1 and n. So a hit at line 102 proves n composite. |
| `Primality.PrimeFromNoSmallDivisor` | Primes/src/org/aghannam/primes/Primes.java:100-105 | If no d in [2, b) divides n and n < b * b, then n is prime. This is why the loop may stop at the square root. |
| `Primes.WheelDone` | Primes/src/org/aghannam/primes/Primes.java:101-105 | If the loop passes FloorSqrt(n) + 1 without finding a divisor, n is prime. This justifies the final `return true`. |
| `Primality.DivisorPair` | Primes/src/org/aghannam/primes/Primes.java:100 | A composite n has a divisor e with 2 <= e and e * e <= n. |
| `Primality.PrimeIffNoDivisorUpToSqrt` | Primes/src/org/aghannam/primes/Primes.java:100-105 | For n >= 2, n is prime exactly when nothing in [2, FloorSqrt(n)] divides it. Both directions are proved. |
| `Primality.PrimeAtLeast` | Primes/src/org/aghannam/primes/Primes.java:220-225 | Euclid's theorem: for every n there is a prime p >= n. So the search in `next` always ends. |
| `PrimeLists.PrimesBound` | Primes/src/org/aghannam/primes/Primes.java:165-177 | For every k there is a bound with at least k primes below it. So the searches in `firstN` and `nthPrime` always end. |
| `Primes.NthPrime` | Primes/src/org/aghannam/primes/Primes.java:39-51 | For n >= 1 the result is prime and has exactly n - 1 primes below it: it is the n-th prime. For n < 1 the result is 1, as the unguarded loop falls through. |
| `Primes.WalkSkipsNoPrime` | Primes/src/org/aghannam/primes/Primes.java:46 | Stepping 5, 7, 11, 13, … with `step = 6 - step` skips no prime. The primes below the next candidate are exactly the primes up to the current one. |
| `PrimeLists.NthPrimeIsLastOfFirst` | Primes/src/org/aghannam/primes/Primes.java:39-51 | A prime with k - 1 primes below it is element k - 1 of any list of the first k primes. So `nthPrime(k)` is the last element of `firstN(k)`. |
| `Primes.Count` | Primes/src/org/aghannam/primes/Primes.java:60-67 | The result is the number of array elements that are prime (`PrimeCount`). |
| `PrimeLists.PrimeCountAtMostLength` | Primes/src/org/aghannam/primes/Primes.java:60-67 | The count of primes in an array is at most its length. |
| `PrimeLists.PrimeCountAllPrime` | Primes/src/org/aghannam/primes/Primes.java:60-67 | The count equals the length exactly when every element is prime. Both directions are proved. |
| `PrimeLists.PrimeCountAppend` | Primes/src/org/aghannam/primes/Primes.java:60-67 | The count of a concatenation is the sum of the two counts. |
| `PrimeLists.PrimeCountPermutation` | Primes/src/org/aghannam/primes/Primes.java:60-67 | The count does not depend on element order: two arrays with the same multiset of elements have the same count. |
| `Primes.CountSmallerThan` | Primes/src/org/aghannam/primes/Primes.java:76-83 | The result is the number of primes p with 2 <= p < n. It is 0 when n <= 2. |
| `Primes.Generator.constructor` | Primes/src/org/aghannam/primes/Primes.java:156 | A new cursor starts at 2. |
| `Primes.Generator.FirstN` | Primes/src/org/aghannam/primes/Primes.java:165-177 | For n >= 0, a fresh array of length n that is exactly the first n primes (`FirstPrimes`). |
| `PrimeLists.FirstPrimesIff` | Primes/src/org/aghannam/primes/Primes.java:158-177 | `FirstPrimes(s)` holds exactly when s is strictly ascending, all prime, and contains every prime below its last element. Both directions are proved. |
| `PrimeLists.FirstPrimesUnique` | Primes/src/org/aghannam/primes/Primes.java:165-177 | Two lists of first primes of the same length are equal. So "the first n primes" names a single list. |
| `PrimeLists.PrimesBelowAreFirst` | Primes/src/org/aghannam/primes/Primes.java:187-189 | The primes below any bound, in ascending order, are a list of first primes. |
| `Primes.Generator.UpTo` | Primes/src/org/aghannam/primes/Primes.java:187-189 | `firstN(countSmallerThan(n))` is a fresh array holding exactly the primes below n, ascending. |
| `Primes.Generator.Between` | Primes/src/org/aghannam/primes/Primes.java:201-210 | Both paths produce a fresh array holding exactly the primes p with lower <= p < upper, ascending: the `lower == 2` count-then-generate path and the scan. The result is empty when upper <= lower. |
| `PrimeLists.PrimesInMembers` | Primes/src/org/aghannam/primes/Primes.java:191-200 | x occurs in `PrimesIn(lo, hi)` exactly when lo <= x < hi and x is prime. |
| `PrimeLists.PrimesInAscending` | Primes/src/org/aghannam/primes/Primes.java:191-200 | `PrimesIn(lo, hi)` is strictly ascending, so it has no duplicates. |
| `PrimeLists.PrimesInFromBelowTwo` | Primes/src/org/aghannam/primes/Primes.java:201-203 | A lower bound at or below 2 gives the same primes as a lower bound of 2. So `between(lower, n)` equals `upTo(n)` for every lower <= 2. |
| `Primes.Generator.Next` | Primes/src/org/aghannam/primes/Primes.java:220-225 | The result is the smallest prime at or after the old cursor: it is prime, at least the old cursor, and no prime lies between the two. Afterwards the cursor is one past the result. |
| `PrimeLists.NextPrimeExtends` | Primes/src/org/aghannam/primes/Primes.java:220-225 | If p is the first prime at or after c, then the primes of [lo, p + 1) are those of [lo, c) followed by p. |
| `Primes.Generator.Reset` | Primes/src/org/aghannam/primes/Primes.java:232-234 | The cursor is back at 2. |
| `Primes.Generator.StartFrom` | Primes/src/org/aghannam/primes/Primes.java:245-247 | The cursor is at n, or at 2 when n < 2. It never sits below 2. |
| `Primes.NextMany` | Primes/src/org/aghannam/primes/tests/PrimesTest.java:58-60 | k successive `next` calls yield, in order, exactly the primes between the old and the new cursor position. |
| `Primes.ReplayFromReset` | Primes/src/org/aghannam/primes/tests/PrimesTest.java:56-65 | After `reset`, k calls of `next` yield exactly the first k primes. This is the list `firstN(k)` returns, by `FirstPrimesUnique`. |
| `TestValues.ExpectedValues` | Primes/src/org/aghannam/primes/tests/PrimesTest.java:12-53 | The reference definitions give the values the tests assert: 2 and 7919 are prime and 4 is not; 13 is prime with 5 primes below it, so `nthPrime(6) = 13`; an all-prime array of 8 is counted 8; there are 2 primes below 5 and 7 below 19; `firstN(8) = upTo(20) = [2, 3, 5, 7, 11, 13, 17, 19]`; `between(4, 11) = [5, 7]`. |
| `TestValues.PrimesBelowTwenty` | Primes/src/org/aghannam/primes/tests/PrimesTest.java:43-53 | The primes below 20 are 2, 3, 5, 7, 11, 13, 17, 19. The primes of [4, 11) are 5 and 7. 2 and 13 are prime, 4 is not. There are 2, 5 and 7 primes below 5, 13 and 19. |
| `TestValues.CountBelowTwenty` | Primes/src/org/aghannam/primes/tests/PrimesTest.java:10-29 | An array of the eight primes below 20 is counted 8. |
| `TestValues.Prime7919` | Primes/src/org/aghannam/primes/tests/PrimesTest.java:23 | 7919 is prime. |

## Left out

- Java's 32-bit `int` is not modelled: all integers are mathematical. `candidate++` in `next` and `firstN` could wrap past `Integer.MAX_VALUE`, and so could `candidate += step` in `nthPrime`. The model has no such wrap. `isPrime` itself cannot overflow in Java, because its loop counter is a `long`.
- `Math.sqrt` is a floating-point library call. It is replaced by the exact integer square root `FloorSqrt`. For every 32-bit n, `(int) Math.sqrt(n)` is that same value.
- `Primes.Generator.FirstN` requires n >= 0. For a negative n, Java throws `NegativeArraySizeException` from `new int[n]`, and that exception is not modelled.
- `random()`, `random(int)`, `random(int, int)` and the `rnd` field (Primes.java:21-26, 108-143) are not modelled. They draw an index from `ThreadLocalRandom`, a foreign random source. They pick an element of `upTo` or `between`, which are modelled. With an empty enumeration, `nextInt(0)` throws.
- The cursor is a static field shared by the whole process in Java. Here it is a field of a `Generator` object. Concurrent use of that field is outside the model.
- `between` collects into an `ArrayList` and converts it through a stream. Here primes are appended to a `seq<int>`, which is then copied into a fresh array.
- The test `nthPrime(1000) = 7919` (PrimesTest.java:16) is not derived in `TestValues`. It would mean listing the 999 primes below 7919. `NthPrime`'s contract covers that call like any other: its result is the prime with exactly 999 primes below it. `TestValues.Prime7919` proves that 7919 is prime.
- The test calls `resetSequence()` (PrimesTest.java:61), but the class names the method `reset()`. `ReplayFromReset` uses `Reset`.
