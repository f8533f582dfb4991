/**
 * Reference definitions for the library's enumerations: the ascending list
 * of primes in a half-open interval, what it means for a sequence to be the
 * first k primes, and how many elements of a sequence are prime, together
 * with the facts about them that the enumeration methods rely on.
 */
module PrimeLists {
  import opened Primality

  /** The primes p with lo <= p < hi, in ascending order. */
  ghost function PrimesIn(lo: int, hi: int): seq<int>
    decreases hi - lo
  {
    if hi <= lo then [] else PrimesIn(lo, hi - 1) + (if Prime(hi - 1) then [hi - 1] else [])
  }

  ghost predicate StrictlyAscending(s: seq<int>) {
    forall i, j :: 0 <= i < j < |s| ==> s[i] < s[j]
  }

  ghost predicate AllPrime(s: seq<int>) {
    forall x :: x in s ==> Prime(x)
  }

  /** PrimesIn(lo, hi) holds exactly the primes of [lo, hi). */
  lemma {:induction false} PrimesInMembers(lo: int, hi: int)
    ensures forall x :: x in PrimesIn(lo, hi) <==> lo <= x < hi && Prime(x)
    decreases hi - lo
  {
    if hi > lo {
      PrimesInMembers(lo, hi - 1);
    }
  }

  /** PrimesIn(lo, hi) is strictly ascending, hence free of duplicates. */
  lemma {:induction false} PrimesInAscending(lo: int, hi: int)
    ensures StrictlyAscending(PrimesIn(lo, hi))
    decreases hi - lo
  {
    if hi > lo {
      var prev := PrimesIn(lo, hi - 1);
      PrimesInAscending(lo, hi - 1);
      PrimesInMembers(lo, hi - 1);
      forall i | 0 <= i < |prev|
        ensures prev[i] < hi - 1
      {
        assert prev[i] in prev;
      }
    }
  }

  /** Splitting the interval at mid splits the list. */
  lemma {:induction false} PrimesInSplit(lo: int, mid: int, hi: int)
    requires lo <= mid <= hi
    ensures PrimesIn(lo, hi) == PrimesIn(lo, mid) + PrimesIn(mid, hi)
    decreases hi - mid
  {
    if mid < hi {
      PrimesInSplit(lo, mid, hi - 1);
    }
  }

  /** An interval without primes gives the empty list. */
  lemma {:induction false} PrimesInNone(lo: int, hi: int)
    requires forall x :: lo <= x < hi ==> !Prime(x)
    ensures PrimesIn(lo, hi) == []
    decreases hi - lo
  {
    if lo < hi {
      PrimesInNone(lo, hi - 1);
    }
  }

  /** A non-prime upper end adds nothing to the list. */
  lemma PrimesInSkip(lo: int, hi: int)
    requires lo <= hi && !Prime(hi)
    ensures PrimesIn(lo, hi + 1) == PrimesIn(lo, hi)
  {
  }

  /** Lower bounds below 2 make no difference: nothing below 2 is prime. */
  lemma PrimesInFromBelowTwo(lo: int, hi: int)
    requires lo <= 2
    ensures PrimesIn(lo, hi) == PrimesIn(2, hi)
  {
    if hi <= 2 {
      PrimesInNone(lo, hi);
    } else {
      PrimesInSplit(lo, 2, hi);
      PrimesInNone(lo, 2);
    }
  }

  /** Widening the interval upwards never shortens the list. */
  lemma {:induction false} PrimesInGrows(lo: int, hi: int, hi': int)
    requires hi <= hi'
    ensures |PrimesIn(lo, hi)| <= |PrimesIn(lo, hi')|
    decreases hi' - hi
  {
    if hi < hi' {
      PrimesInGrows(lo, hi, hi' - 1);
    }
  }

  /**
   * There are at least k primes below some bound: primes never run out.
   * This is what makes the library's searches for the next prime terminate.
   */
  lemma {:induction false} PrimesBound(k: int) returns (b: int)
    ensures |PrimesIn(2, b)| >= k
    decreases k
  {
    if k <= 0 {
      b := 2;
    } else {
      var b0 := PrimesBound(k - 1);
      var p := PrimeAtLeast(b0);
      PrimesInGrows(2, b0, p);
      b := p + 1;
    }
  }

  /**
   * s is the first |s| primes: it lists, in order, every prime up to its
   * last element.
   */
  ghost predicate FirstPrimes(s: seq<int>) {
    s == PrimesIn(2, if s == [] then 2 else s[|s| - 1] + 1)
  }

  /** Every list of the primes below a bound is a list of first primes. */
  lemma {:induction false} PrimesBelowAreFirst(n: int)
    ensures FirstPrimes(PrimesIn(2, n))
    decreases n
  {
    if n > 2 {
      PrimesBelowAreFirst(n - 1);
    }
  }

  /** FirstPrimes is a characterisation: there is one such list of each length. */
  lemma FirstPrimesUnique(s: seq<int>, t: seq<int>)
    requires FirstPrimes(s) && FirstPrimes(t) && |s| == |t|
    ensures s == t
  {
    if s != [] {
      if s[|s| - 1] <= t[|t| - 1] {
        FirstPrimesPrefix(s, t);
      } else {
        FirstPrimesPrefix(t, s);
      }
    }
  }

  /** A shorter-ending list of first primes is a prefix of a longer-ending one. */
  lemma FirstPrimesPrefix(s: seq<int>, t: seq<int>)
    requires FirstPrimes(s) && FirstPrimes(t) && |s| == |t| && s != []
    requires s[|s| - 1] <= t[|t| - 1]
    ensures s == t
  {
    var a, b := s[|s| - 1] + 1, t[|t| - 1] + 1;
    PrimesInMembers(2, a);
    assert s[|s| - 1] in s;
    PrimesInSplit(2, a, b);
  }

  /** Two strictly ascending sequences with the same elements are equal. */
  lemma {:induction false} AscendingSameMembers(s: seq<int>, t: seq<int>)
    requires StrictlyAscending(s) && StrictlyAscending(t)
    requires forall x :: x in s <==> x in t
    ensures s == t
    decreases |s|
  {
    if s == [] {
      if t != [] {
        IndexIsMember(t, 0);
        assert false;
      }
    } else {
      assert s[0] in s;
      assert t != [];
      assert t[0] in t;
      var i :| 0 <= i < |t| && t[i] == s[0];
      var j :| 0 <= j < |s| && s[j] == t[0];
      assert s[0] == t[0];
      forall x
        ensures x in s[1..] <==> x in t[1..]
      {
        if x in s[1..] {
          var k :| 1 <= k < |s| && s[k] == x;
          assert x in t;
        }
        if x in t[1..] {
          var k :| 1 <= k < |t| && t[k] == x;
          assert x in s;
        }
      }
      AscendingSameMembers(s[1..], t[1..]);
      assert s == [s[0]] + s[1..];
      assert t == [t[0]] + t[1..];
    }
  }

  lemma IndexIsMember(s: seq<int>, i: int)
    requires 0 <= i < |s|
    ensures s[i] in s
  {
  }

  /**
   * FirstPrimes(s) holds exactly when s is strictly ascending, all prime,
   * and skips no prime below its last element.
   */
  lemma FirstPrimesIff(s: seq<int>)
    ensures FirstPrimes(s) <==>
      && StrictlyAscending(s)
      && AllPrime(s)
      && (s != [] ==> forall p :: Prime(p) && p < s[|s| - 1] ==> p in s)
  {
    var hi := if s == [] then 2 else s[|s| - 1] + 1;
    PrimesInMembers(2, hi);
    PrimesInAscending(2, hi);
    if StrictlyAscending(s) && AllPrime(s) && (s != [] ==> forall p :: Prime(p) && p < s[|s| - 1] ==> p in s) {
      forall x
        ensures x in s <==> x in PrimesIn(2, hi)
      {
        if x in s {
          var k :| 0 <= k < |s| && s[k] == x;
          assert Prime(x);
          assert k == |s| - 1 || s[k] < s[|s| - 1];
        }
      }
      AscendingSameMembers(s, PrimesIn(2, hi));
    }
  }

  /**
   * A prime with k - 1 primes below it is the last of the first k primes:
   * the k-th prime.
   */
  lemma NthPrimeIsLastOfFirst(p: int, k: int, s: seq<int>)
    requires Prime(p) && |PrimesIn(2, p)| == k - 1
    requires FirstPrimes(s) && |s| == k
    ensures s[k - 1] == p
  {
    var t := PrimesIn(2, p + 1);
    assert t == PrimesIn(2, p) + [p];
    PrimesBelowAreFirst(p + 1);
    FirstPrimesUnique(s, t);
  }

  /**
   * One step of a forward search: if p is the first prime at or after c,
   * the primes of [lo, p + 1) are those of [lo, c) followed by p.
   */
  lemma NextPrimeExtends(lo: int, c: int, p: int)
    requires lo <= c <= p && Prime(p)
    requires forall q :: c <= q < p ==> !Prime(q)
    ensures PrimesIn(lo, p + 1) == PrimesIn(lo, c) + [p]
  {
    PrimesInSplit(lo, c, p);
    PrimesInNone(c, p);
  }

  /** The number of elements of s that are prime. */
  ghost function PrimeCount(s: seq<int>): nat
  {
    if s == [] then 0 else PrimeCount(s[..|s| - 1]) + (if Prime(s[|s| - 1]) then 1 else 0)
  }

  /** At most every element is prime. */
  lemma {:induction false} PrimeCountAtMostLength(s: seq<int>)
    ensures PrimeCount(s) <= |s|
  {
    if s != [] {
      PrimeCountAtMostLength(s[..|s| - 1]);
    }
  }

  /** The count reaches the length exactly when every element is prime. */
  lemma {:induction false} PrimeCountAllPrime(s: seq<int>)
    ensures PrimeCount(s) == |s| <==> AllPrime(s)
  {
    if s != [] {
      var init := s[..|s| - 1];
      PrimeCountAllPrime(init);
      PrimeCountAtMostLength(init);
      assert s == init + [s[|s| - 1]];
      if !AllPrime(init) {
        var x :| x in init && !Prime(x);
        assert x in s;
      }
    }
  }

  /** Counting distributes over concatenation. */
  lemma {:induction false} PrimeCountAppend(s: seq<int>, t: seq<int>)
    ensures PrimeCount(s + t) == PrimeCount(s) + PrimeCount(t)
    decreases |t|
  {
    if t == [] {
      assert s + t == s;
    } else {
      PrimeCountAppend(s, t[..|t| - 1]);
      assert (s + t)[..|s + t| - 1] == s + t[..|t| - 1];
    }
  }

  /** The count does not depend on the order of the elements. */
  lemma {:induction false} PrimeCountPermutation(s: seq<int>, t: seq<int>)
    requires multiset(s) == multiset(t)
    ensures PrimeCount(s) == PrimeCount(t)
    decreases |s|
  {
    if s == [] {
      assert |multiset(t)| == 0;
    } else {
      var x := s[|s| - 1];
      var s' := s[..|s| - 1];
      assert s == s' + [x];
      assert x in multiset(t);
      var i :| 0 <= i < |t| && t[i] == x;
      var t' := t[..i] + t[i + 1..];
      assert t == t[..i] + [x] + t[i + 1..];
      assert multiset(s) == multiset(s') + multiset{x};
      assert multiset(t) == multiset(t[..i]) + multiset{x} + multiset(t[i + 1..]);
      assert multiset(t') == multiset(t[..i]) + multiset(t[i + 1..]);
      assert multiset(s') == multiset(s) - multiset{x};
      assert multiset(t') == multiset(t) - multiset{x};
      PrimeCountPermutation(s', t');
      PrimeCountAppend(t[..i] + [x], t[i + 1..]);
      PrimeCountAppend(t[..i], [x]);
      PrimeCountAppend(t[..i], t[i + 1..]);
      assert PrimeCount([x]) == if Prime(x) then 1 else 0 by {
        assert [x][..0] == [];
      }
    }
  }
}
