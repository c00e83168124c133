/** Prime sizes for the hash table: the 6k +/- 1 trial-division test and the
    search for the least prime at or above a bound. */
module Primes {

  /** d is a positive divisor of n. */
  predicate Divides(d: int, n: int) {
    d > 0 && n % d == 0
  }

  /** The mathematical notion: n >= 2 and no divisor strictly between 1 and n. */
  predicate Prime(n: int) {
    n >= 2 && forall d :: 2 <= d < n ==> !Divides(d, n)
  }

  /** p is the least prime that is at least n. */
  predicate IsNextPrime(n: int, p: int) {
    n <= p && Prime(p) && forall q :: n <= q < p ==> !Prime(q)
  }

  // ---------------------------------------------------------------------------
  // Divisibility facts

  lemma MulAwayFromZero(d: int, k: int)
    requires d > 0
    ensures k >= 1 ==> d * k >= d
    ensures k <= -1 ==> d * k <= -d
  {
  }

  lemma MulMonotone(a: int, b: int, c: int)
    requires a >= 0
    ensures b <= c ==> a * b <= a * c
  {
  }

  lemma MultipleDivides(d: int, m: int)
    requires d > 0
    ensures Divides(d, d * m)
  {
    var q, r := (d * m) / d, (d * m) % d;
    assert d * m == d * q + r && 0 <= r < d;
    assert d * (m - q) == r;
    MulAwayFromZero(d, m - q);
  }

  lemma DividesTransitive(a: int, b: int, c: int)
    requires Divides(a, b) && Divides(b, c)
    ensures Divides(a, c)
  {
    var x, y := b / a, c / b;
    assert b == a * x;
    assert c == b * y;
    assert c == a * (x * y);
    MultipleDivides(a, x * y);
  }

  lemma DividesProduct(d: int, a: int, m: int)
    requires Divides(d, a)
    ensures Divides(d, a * m)
  {
    var x := a / d;
    assert a == d * x;
    assert a * m == d * (x * m);
    MultipleDivides(d, x * m);
  }

  /** No p >= 2 divides two consecutive integers. */
  lemma NotDividesSuccessor(p: int, a: int)
    requires p >= 2 && Divides(p, a)
    ensures !Divides(p, a + 1)
  {
    var x := a / p;
    assert a == p * x;
    var y, r := (a + 1) / p, (a + 1) % p;
    assert a + 1 == p * y + r && 0 <= r < p;
    assert p * (y - x) == 1 - r;
    MulAwayFromZero(p, y - x);
  }

  // ---------------------------------------------------------------------------
  // There is always a prime at or above any bound (Euclid), so next_prime ends.

  function Factorial(n: nat): (r: nat)
    ensures r >= 1
  {
    if n == 0 then 1 else n * Factorial(n - 1)
  }

  lemma {:induction false} FactorialDivisible(n: nat, d: int)
    requires 1 <= d <= n
    ensures Divides(d, Factorial(n))
  {
    if d == n {
      MultipleDivides(n, Factorial(n - 1));
    } else {
      FactorialDivisible(n - 1, d);
      DividesProduct(d, Factorial(n - 1), n);
      assert Factorial(n - 1) * n == Factorial(n);
    }
  }

  /** Every m >= 2 has a prime divisor. */
  lemma {:induction false} PrimeDivisor(m: int) returns (p: int)
    requires m >= 2
    ensures Prime(p) && Divides(p, m)
    decreases m
  {
    if Prime(m) {
      p := m;
      MultipleDivides(m, 1);
    } else {
      var d :| 2 <= d < m && Divides(d, m);
      p := PrimeDivisor(d);
      DividesTransitive(p, d, m);
    }
  }

  /** For every n there is a prime p >= n: a prime factor of k! + 1 exceeds k. */
  lemma PrimeAtLeast(n: int) returns (p: int)
    ensures p >= n && Prime(p)
  {
    var k: nat := if n < 2 then 2 else n;
    p := PrimeDivisor(Factorial(k) + 1);
    if p <= k {
      FactorialDivisible(k, p);
      NotDividesSuccessor(p, Factorial(k));
    }
  }

  // ---------------------------------------------------------------------------
  // The 6k +/- 1 wheel

  /** If n has no divisor in [2, i) and i * i > n, then n is prime. */
  lemma NoDivisorBelowRoot(n: int, i: int)
    requires n >= 2 && i >= 2 && i * i > n
    requires forall d :: 2 <= d < i ==> !Divides(d, n)
    ensures Prime(n)
  {
    forall d | 2 <= d < n
      ensures !Divides(d, n)
    {
      if d >= i && Divides(d, n) {
        // n = d * e with 2 <= e < i, so e is a smaller divisor.
        var e := n / d;
        assert n == d * e;
        MulMonotone(d, e, 1);
        MulMonotone(d, i, e);
        MulMonotone(i, i, d);
        MultipleDivides(e, d);
      }
    }
  }

  /** With 2 and 3 excluded as divisors, a divisor in [i, i + 6), i = 5 (mod 6),
      can only be i or i + 2. */
  lemma WheelStep(n: int, i: int)
    requires !Divides(2, n) && !Divides(3, n)
    requires i >= 5 && i % 6 == 5
    requires !Divides(i, n) && !Divides(i + 2, n)
    ensures forall d :: i <= d < i + 6 ==> !Divides(d, n)
  {
    var q := i / 6;
    assert i == 6 * q + 5;
    forall d | i <= d < i + 6
      ensures !Divides(d, n)
    {
      // i + 1, i + 3 and i + 5 are even; i + 4 is a multiple of 3.
      var c, k := if d == i + 4 then 3 else 2, if d == i + 4 then 2 * q + 3 else (d - i - 1) / 2 + 3 * q + 3;
      if d != i && d != i + 2 {
        assert d == c * k;
        MultipleDivides(c, k);
        if Divides(d, n) {
          DividesTransitive(c, d, n);
        }
      }
    }
  }

  /** A divisor strictly between 1 and n shows that n is not prime. */
  lemma NotPrime(n: int, d: int)
    requires 2 <= d < n && n % d == 0
    ensures !Prime(n)
  {
    assert Divides(d, n);
  }

  /** Before the wheel starts at 5: with 2 and 3 excluded, nothing below 5 divides n. */
  lemma WheelStart(n: int)
    requires !Divides(2, n) && !Divides(3, n)
    ensures forall d :: 2 <= d < 5 ==> !Divides(d, n)
  {
    forall d | 2 <= d < 5
      ensures !Divides(d, n)
    {
      if d == 4 && Divides(4, n) {
        MultipleDivides(2, 2);
        DividesTransitive(2, 4, n);
      }
    }
  }

  /** is_prime: 6k +/- 1 trial division up to the square root of n. */
  method IsPrime(n: int) returns (b: bool)
    ensures b == Prime(n)
  {
    if n <= 1 {
      return false;
    }
    if n <= 3 {
      assert Prime(n) by {
        forall d | 2 <= d < n ensures !Divides(d, n) {
          assert d == 2 && n == 3;
        }
      }
      return true;
    }
    if n % 2 == 0 || n % 3 == 0 {
      NotPrime(n, if n % 2 == 0 then 2 else 3);
      return false;
    }
    assert !Divides(2, n) && !Divides(3, n);
    WheelStart(n);
    var i := 5;
    while i * i <= n
      invariant i >= 5 && i % 6 == 5
      invariant forall d :: 2 <= d < i ==> !Divides(d, n)
      decreases n - i
    {
      MulMonotone(i, 5, i);
      if n % i == 0 || n % (i + 2) == 0 {
        NotPrime(n, if n % i == 0 then i else i + 2);
        return false;
      }
      WheelStep(n, i);
      i := i + 6;
    }
    NoDivisorBelowRoot(n, i);
    return true;
  }

  /** next_prime: count upwards from n until the test succeeds. */
  method NextPrime(n: int) returns (p: int)
    ensures IsNextPrime(n, p)
    ensures Prime(n) ==> p == n
  {
    ghost var bound := PrimeAtLeast(n);
    p := n;
    var isPrime := IsPrime(p);
    while !isPrime
      invariant n <= p <= bound
      invariant isPrime == Prime(p)
      invariant forall q :: n <= q < p ==> !Prime(q)
      decreases bound - p
    {
      p := p + 1;
      isPrime := IsPrime(p);
    }
  }

  /** The least prime at or above n is unique, so next_prime is determined by its contract. */
  lemma NextPrimeUnique(n: int, p: int, q: int)
    requires IsNextPrime(n, p) && IsNextPrime(n, q)
    ensures p == q
  {
  }

  /** The sizes in the capacity-10 scenario: 10 rounds up to 11, and a rehash
      from 11 gives next_prime(22) = 23. */
  lemma ScenarioSizes()
    ensures IsNextPrime(10, 11) && IsNextPrime(22, 23)
  {
    assert Divides(2, 10) && Divides(2, 12) && Divides(2, 22);
    forall d | 2 <= d < 4 ensures !Divides(d, 11) {
      if d == 2 { } else { assert d == 3; }
    }
    NoDivisorBelowRoot(11, 4);
    forall d | 2 <= d < 5 ensures !Divides(d, 23) {
      if d == 2 { } else if d == 3 { } else { assert d == 4; }
    }
    NoDivisorBelowRoot(23, 5);
  }
}
