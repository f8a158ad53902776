/**
 * The incremental prime generator: an object that remembers the primes it
 * has produced so far and the next candidate to test, and produces the next
 * prime by trial division against the primes it already knows.
 *
 * The source keeps both fields as unsigned 64-bit integers; here they are
 * unbounded naturals, and the floating-point square-root bound of the trial
 * division is replaced by the exact integer test `p * p > n`.
 */
module PrimeGen {
  import opened Primality
  import opened Search

  class Primes {
    /** The primes produced so far, in the order they were produced. */
    var primesFound: seq<nat>
    /** The next candidate to test. */
    var current: nat

    /**
     * The object invariant: the stored primes are exactly the primes in
     * [2, current), in ascending order (so they are sorted, which the binary
     * search of HasPrime relies on, and every one lies below current).
     */
    ghost predicate Valid()
      reads this
    {
      current >= 2 && primesFound == PrimesBelow(current)
    }

    /** A fresh generator: nothing found yet, the first candidate is 2. */
    constructor ()
      ensures Valid()
      ensures primesFound == [] && current == 2
    {
      primesFound := [];
      current := 2;
    }

    /**
     * Steps current upward to the first candidate that trial division does
     * not reject, stores it, moves current past it and returns it.  The
     * returned value is the least prime at or above the old current, it is
     * the only value appended, and the invariant is kept.  The last
     * postcondition already follows from Valid(); it is spelled out for
     * callers.
     */
    method NextPrime() returns (prime: nat)
      requires Valid()
      modifies this
      ensures Valid()
      ensures Prime(prime) && old(current) <= prime
      ensures forall k :: old(current) <= k < prime ==> !Prime(k)
      ensures primesFound == old(primesFound) + [prime]
      ensures current == prime + 1
      ensures forall p :: p in primesFound ==> p < current
    {
      ghost var bound := PrimeAtLeast(current);
      var isPrime := IsPrime(current);
      DecidesPrimality();
      while !isPrime
        invariant Valid()
        invariant primesFound == old(primesFound)
        invariant old(current) <= current <= bound
        invariant isPrime == Prime(current)
        invariant forall k :: old(current) <= k < current ==> !Prime(k)
        decreases bound - current
      {
        PrimesBelowSkip(current);
        current := current + 1;
        isPrime := IsPrime(current);
        DecidesPrimality();
      }
      PrimesBelowAppend(current);
      primesFound := primesFound + [current];
      prime := current;
      current := current + 1;
    }

    /**
     * Whether p has already been produced: p must lie below current and
     * occur among the stored primes, found by binary search.  Under the
     * invariant this is exactly "p is a prime below current"; values not
     * yet reached are reported absent even when they are prime.
     */
    function HasPrime(p: nat): (r: bool)
      reads this
      requires Valid()
      ensures r <==> p < current && p in primesFound
      ensures r <==> 2 <= p < current && Prime(p)
    {
      current > p && BinarySearch(primesFound, p).Found?
    }

    /**
     * Trial division of n by the stored primes in ascending order, giving up
     * at the first prime whose square exceeds n.  It answers false exactly
     * when some stored prime p with p * p <= n divides n, and it changes
     * nothing.
     */
    method IsPrime(n: nat) returns (r: bool)
      requires Valid()
      ensures r <==> !HasSmallFactor(primesFound, n)
    {
      var i := 0;
      while i < |primesFound|
        invariant 0 <= i <= |primesFound|
        invariant forall j :: 0 <= j < i ==> primesFound[j] > 0 && n % primesFound[j] != 0
      {
        var p := primesFound[i];
        assert p in primesFound;
        if p * p > n {
          SquaresIncrease(primesFound, i, n);
          break;
        }
        if n % p == 0 {
          return false;
        }
        i := i + 1;
      }
      return true;
    }

    /**
     * With the invariant in force, the trial division of current by the
     * stored primes decides whether current is prime.
     */
    lemma DecidesPrimality()
      requires Valid()
      ensures Prime(current) <==> !HasSmallFactor(primesFound, current)
    {
      forall p: nat | Prime(p) && p * p <= current
        ensures p in primesFound
      {
        SquareExceeds(p);
      }
      TrialDivisionDecidesPrimality(primesFound, current);
    }
  }

  /** A fresh generator yields 2, 3, 5, 7 and 11 on its first five calls. */
  method FirstFivePrimes() returns (v: seq<nat>)
    ensures v == [2, 3, 5, 7, 11]
  {
    SmallPrimes();
    var g := new Primes();
    var a := g.NextPrime();
    LeastPrimeUnique(2, a, 2);
    var b := g.NextPrime();
    LeastPrimeUnique(3, b, 3);
    var c := g.NextPrime();
    LeastPrimeUnique(4, c, 5);
    var d := g.NextPrime();
    LeastPrimeUnique(6, d, 7);
    var e := g.NextPrime();
    LeastPrimeUnique(8, e, 11);
    v := [a, b, c, d, e];
  }

  /**
   * Two successive calls on any valid generator return strictly increasing
   * primes with no prime between them, and the store grows by exactly those two.
   */
  method SuccessiveCalls(g: Primes) returns (first: nat, second: nat)
    requires g.Valid()
    modifies g
    ensures g.Valid()
    ensures Prime(first) && Prime(second) && first < second
    ensures forall k :: first < k < second ==> !Prime(k)
    ensures g.primesFound == old(g.primesFound) + [first, second]
  {
    first := g.NextPrime();
    second := g.NextPrime();
  }
}
