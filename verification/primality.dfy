/**
 * Number-theoretic background for the prime generator: primality, the
 * ascending sequence of primes below a bound, trial division by a list of
 * known primes, and the existence of a prime above any bound (which is what
 * makes the generator's search loop terminate).
 *
 * Divisibility is written `n % d == 0`, as the generator itself tests it.
 */
module Primality {

  /** n is prime: at least 2 and no divisor strictly between 1 and n. */
  predicate Prime(n: nat) {
    n >= 2 && forall d :: 2 <= d < n ==> n % d != 0
  }

  predicate StrictlyIncreasing(s: seq<nat>) {
    forall i, j :: 0 <= i < j < |s| ==> s[i] < s[j]
  }

  // ---------------------------------------------------------------------
  // Divisibility facts
  // ---------------------------------------------------------------------

  /** The quotient and remainder of Euclidean division are unique. */
  lemma ModUnique(a: int, k: int, q: int, r: int)
    requires k > 0 && 0 <= r < k && a == k * q + r
    ensures a % k == r
  {
    var q', r' := a / k, a % k;
    assert a == k * q' + r';
    assert k * (q - q') == r' - r;
    if q > q' {
      MulAtLeast(k, q - q');
    } else if q < q' {
      MulAtLeast(k, q' - q);
    }
  }

  lemma MulAtLeast(k: int, t: int)
    requires k > 0 && t >= 1
    ensures k * t >= k
  {
  }

  /** Divisibility is transitive: k | f and f | m give k | m. */
  lemma DividesTransitive(k: nat, f: nat, m: nat)
    requires k > 0 && f > 0
    requires f % k == 0 && m % f == 0
    ensures m % k == 0
  {
    var a, b := m / f, f / k;
    assert m == f * a;
    assert f == k * b;
    assert m == k * (b * a) by {
      assert f * a == (k * b) * a;
    }
    ModUnique(m, k, b * a, 0);
  }

  // ---------------------------------------------------------------------
  // Least factor and the existence of arbitrarily large primes
  // ---------------------------------------------------------------------

  /** The least divisor of m that is at least d, given that none below d (and above 1) divides m. */
  function LeastFactor(m: nat, d: nat): (f: nat)
    requires 2 <= d <= m
    requires forall k :: 2 <= k < d ==> m % k != 0
    ensures d <= f <= m && m % f == 0
    ensures forall k :: 2 <= k < f ==> m % k != 0
    decreases m - d
  {
    if m % d == 0 then d
    else
      assert d < m by {
        ModUnique(m, m, 1, 0);
      }
      LeastFactor(m, d + 1)
  }

  /** A divisor f >= 2 of m that no smaller number >= 2 divides m by is prime. */
  lemma LeastFactorIsPrime(m: nat, f: nat)
    requires 2 <= f <= m && m % f == 0
    requires forall k :: 2 <= k < f ==> m % k != 0
    ensures Prime(f)
  {
    forall d | 2 <= d < f
      ensures f % d != 0
    {
      if f % d == 0 {
        DividesTransitive(d, f, m);
      }
    }
  }

  function Fact(n: nat): (f: nat) {
    if n == 0 then 1 else n * Fact(n - 1)
  }

  lemma {:induction false} FactDivisible(n: nat, k: nat)
    requires 1 <= k <= n
    ensures Fact(n) % k == 0
  {
    if k == n {
      ModUnique(Fact(n), n, Fact(n - 1), 0);
    } else {
      FactDivisible(n - 1, k);
      FactPositive(n - 1);
      ModUnique(Fact(n), Fact(n - 1), n, 0);
      DividesTransitive(k, Fact(n - 1), Fact(n));
    }
  }

  /** Euclid: above every bound there is a prime. */
  lemma PrimeAtLeast(n: nat) returns (q: nat)
    ensures n <= q && Prime(q)
  {
    var m := Fact(n) + 1;
    FactPositive(n);
    q := LeastFactor(m, 2);
    LeastFactorIsPrime(m, q);
    if q <= n {
      FactDivisible(n, q);
      ModUnique(m, q, Fact(n) / q, 1);
      assert false;
    }
  }

  lemma {:induction false} FactPositive(n: nat)
    ensures Fact(n) >= 1
  {
    if n > 0 {
      FactPositive(n - 1);
    }
  }

  // ---------------------------------------------------------------------
  // Trial division
  // ---------------------------------------------------------------------

  /**
   * Some known prime p with p * p <= n divides n.  (The guard p > 0 only
   * keeps `n % p` well defined; stored primes are never 0.)
   */
  predicate HasSmallFactor(primes: seq<nat>, n: nat) {
    exists p :: p in primes && p > 0 && p * p <= n && n % p == 0
  }

  /** A composite n >= 2 has a prime factor whose square does not exceed n. */
  lemma SmallPrimeFactor(n: nat) returns (f: nat)
    requires n >= 2 && !Prime(n)
    ensures Prime(f) && f * f <= n && n % f == 0
  {
    f := LeastFactor(n, 2);
    LeastFactorIsPrime(n, f);
    assert f < n;
    var e := n / f;
    assert n == f * e;
    assert e >= 2;
    ModUnique(n, e, f, 0);
    assert f <= e;
    assert f * f <= f * e;
  }

  lemma SquareExceeds(p: nat)
    requires p >= 2
    ensures p < p * p
  {
    MulAtLeast(p, p - 1);
  }

  lemma MulMonotone(a: nat, b: nat)
    requires a <= b
    ensures a * a <= b * b
  {
    assert a * a <= a * b;
    assert a * b <= b * b;
  }

  /**
   * In an ascending sequence, once one element's square exceeds n, so does
   * the square of every later element.
   */
  lemma SquaresIncrease(s: seq<nat>, i: nat, n: nat)
    requires StrictlyIncreasing(s)
    requires i < |s| && s[i] * s[i] > n
    ensures forall j :: i <= j < |s| ==> s[j] * s[j] > n
  {
    forall j | i <= j < |s|
      ensures s[j] * s[j] > n
    {
      MulMonotone(s[i], s[j]);
    }
  }

  /**
   * Trial division decides primality once every prime whose square does not
   * exceed n is known, and every known value is a prime.
   */
  lemma TrialDivisionDecidesPrimality(primes: seq<nat>, n: nat)
    requires n >= 2
    requires forall p :: p in primes ==> Prime(p)
    requires forall p: nat :: Prime(p) && p * p <= n ==> p in primes
    ensures Prime(n) <==> !HasSmallFactor(primes, n)
  {
    if Prime(n) {
      forall p | p in primes && p > 0 && p * p <= n
        ensures n % p != 0
      {
        assert 2 <= p;
        SquareExceeds(p);
      }
    } else {
      var f := SmallPrimeFactor(n);
      assert f in primes;
    }
  }

  // ---------------------------------------------------------------------
  // The primes below a bound
  // ---------------------------------------------------------------------

  /** The primes in [2, n), in ascending order. */
  function PrimesBelow(n: nat): (r: seq<nat>)
    ensures StrictlyIncreasing(r)
    ensures forall x :: x in r <==> 2 <= x < n && Prime(x)
  {
    if n <= 2 then []
    else
      var rest := PrimesBelow(n - 1);
      if Prime(n - 1) then
        AppendLarger(rest, n - 1);
        rest + [n - 1]
      else rest
  }

  /** Appending a value above every element keeps a sequence strictly increasing. */
  lemma AppendLarger(s: seq<nat>, x: nat)
    requires StrictlyIncreasing(s)
    requires forall y :: y in s ==> y < x
    ensures StrictlyIncreasing(s + [x])
  {
    forall i, j | 0 <= i < j < |s + [x]|
      ensures (s + [x])[i] < (s + [x])[j]
    {
      assert s[i] in s;
    }
  }

  /** Moving the bound past a composite number leaves the primes below it unchanged. */
  lemma PrimesBelowSkip(n: nat)
    requires !Prime(n)
    ensures PrimesBelow(n + 1) == PrimesBelow(n)
  {
  }

  /** Moving the bound past a prime appends exactly that prime. */
  lemma PrimesBelowAppend(n: nat)
    requires Prime(n)
    ensures PrimesBelow(n + 1) == PrimesBelow(n) + [n]
  {
  }

  // ---------------------------------------------------------------------
  // The first primes
  // ---------------------------------------------------------------------

  /** There is only one least prime at or above a bound. */
  lemma LeastPrimeUnique(lo: nat, r: nat, e: nat)
    requires lo <= r && Prime(r) && forall k :: lo <= k < r ==> !Prime(k)
    requires lo <= e && Prime(e) && forall k :: lo <= k < e ==> !Prime(k)
    ensures r == e
  {
  }

  /** Which of 2 .. 11 are prime. */
  lemma SmallPrimes()
    ensures Prime(2) && Prime(3) && Prime(5) && Prime(7) && Prime(11)
    ensures !Prime(4) && !Prime(6)
    ensures forall k :: 8 <= k < 11 ==> !Prime(k)
  {
    assert 4 % 2 == 0 && 6 % 2 == 0;
    forall k | 8 <= k < 11
      ensures !Prime(k)
    {
      assert k % 2 == 0 || k % 3 == 0;
    }
    forall k | 2 <= k < 7
      ensures 7 % k != 0
    {
      assert k == 2 || k == 3 || k == 4 || k == 5 || k == 6;
    }
    forall k | 2 <= k < 11
      ensures 11 % k != 0
    {
      assert k == 2 || k == 3 || k == 4 || k == 5 || k == 6 || k == 7 || k == 8 || k == 9 || k == 10;
    }
  }
}
