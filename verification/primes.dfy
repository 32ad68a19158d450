/** The trial-division primality test of src/primes.cpp and the loop of its
    `main` that collects the first `numbers` primes.

    C++ `int` is modelled as an unbounded `int`; the collection loop's counter
    never reaches the 32-bit limit for the demo's default of ten primes. */
module Primes {
  import Scalar
  import Arith

  predicate Divides(d: int, n: int)
    requires d > 0
  {
    n % d == 0
  }

  /** Mathematical primality: at least 2 and no divisor strictly between 1 and itself. */
  predicate Prime(n: int) {
    n >= 2 && forall d :: 2 <= d < n ==> !Divides(d, n)
  }

  /** A proper divisor of `n` is at most `n / 2`, so trial division may stop there. */
  lemma ProperDivisorAtMostHalf(d: int, n: int)
    requires 2 <= d < n && Divides(d, n)
    ensures d <= n / 2
  {
    var k := n / d;
    assert n == d * k;
    Arith.MulStrictCancel(d, 1, k);
    Arith.MulMonotone(d, 2, k);
    Arith.DivModUnique(n, 2, n / 2, n % 2);
  }

  /** `is_prime`: false below 2, otherwise true exactly when no `i` in
      `[2, number / 2]` divides `number`; this coincides with primality. */
  method IsPrime(number: int) returns (r: bool)
    ensures r <==> Prime(number)
    ensures number >= 2 ==> (r <==> forall i :: 2 <= i <= number / 2 ==> !Divides(i, number))
  {
    if number < 2 {
      return false;
    }
    var i := 2;
    while i <= number / 2
      invariant 2 <= i <= number / 2 + 1
      invariant forall j :: 2 <= j < i ==> !Divides(j, number)
    {
      if number % i == 0 {
        assert Divides(i, number);
        return false;
      }
      i := i + 1;
    }
    forall d | 2 <= d < number
      ensures !Divides(d, number)
    {
      if Divides(d, number) {
        ProperDivisorAtMostHalf(d, number);
      }
    }
    return true;
  }

  /** For 2 and 3 the trial range `[2, number / 2]` is empty, and both are prime. */
  lemma TwoAndThreeArePrime()
    ensures 2 / 2 < 2 && 3 / 2 < 2
    ensures Prime(2) && Prime(3)
  {
  }

  // ---------------------------------------------------------------------
  // Euclid's theorem, needed for the collection loop to terminate.

  lemma DividesMultiple(d: int, k: int)
    requires d > 0
    ensures Divides(d, d * k)
  {
    Arith.DivModUnique(d * k, d, k, 0);
  }

  lemma DividesProduct(d: int, a: int, b: int)
    requires d > 0 && Divides(d, a)
    ensures Divides(d, a * b)
  {
    var q := a / d;
    assert a == d * q;
    assert a * b == d * (q * b);
    DividesMultiple(d, q * b);
  }

  lemma DividesDifference(d: int, a: int, b: int)
    requires d > 0 && Divides(d, a) && Divides(d, b)
    ensures Divides(d, a - b)
  {
    var qa, qb := a / d, b / d;
    assert a - b == d * (qa - qb);
    DividesMultiple(d, qa - qb);
  }

  lemma {:induction false} DividesTransitive(p: int, d: int, n: int)
    requires p > 0 && d > 0 && Divides(p, d) && Divides(d, n)
    ensures Divides(p, n)
  {
    var k := n / d;
    assert n == d * k;
    DividesProduct(p, d, k);
  }

  lemma {:induction false} DividesFactorial(d: int, n: nat)
    requires 1 <= d <= n
    ensures Divides(d, Scalar.Fact(n))
  {
    if d == n {
      if n >= 2 {
        DividesMultiple(d, Scalar.Fact(n - 1));
      } else {
        DividesMultiple(1, 1);
      }
    } else {
      DividesFactorial(d, n - 1);
      DividesProduct(d, Scalar.Fact(n - 1), n);
      assert Scalar.Fact(n) == Scalar.Fact(n - 1) * n;
    }
  }

  lemma {:induction false} FactPositive(n: nat)
    ensures Scalar.Fact(n) >= 1
  {
    if n > 1 {
      FactPositive(n - 1);
      Arith.MulAtLeast(Scalar.Fact(n - 1), n);
    }
  }

  /** Every integer from 2 upwards has a prime divisor. */
  lemma {:induction false} PrimeDivisor(m: int) returns (p: int)
    requires m >= 2
    ensures Prime(p) && p <= m && Divides(p, m)
    decreases m
  {
    if Prime(m) {
      p := m;
      DividesMultiple(m, 1);
    } else {
      var d :| 2 <= d < m && Divides(d, m);
      p := PrimeDivisor(d);
      DividesTransitive(p, d, m);
    }
  }

  /** There is a prime above every bound. */
  lemma PrimeAbove(n: nat) returns (p: int)
    ensures Prime(p) && p > n
  {
    FactPositive(n);
    var m := Scalar.Fact(n) + 1;
    p := PrimeDivisor(m);
    if p <= n {
      DividesFactorial(p, n);
      DividesDifference(p, m, Scalar.Fact(n));
      assert false;
    }
  }

  // ---------------------------------------------------------------------
  // The collection loop of `main`

  /** Tests `i = 0, 1, 2, ...` with `is_prime` and appends each prime until
      `numbers` of them are gathered: the result is the first `numbers`
      primes, in increasing order, none skipped. */
  method FirstPrimes(numbers: nat) returns (primes: seq<int>)
    ensures |primes| == numbers
    ensures forall k :: 0 <= k < |primes| ==> Prime(primes[k])
    ensures forall k :: 0 < k < |primes| ==> primes[k - 1] < primes[k]
    ensures forall p :: Prime(p) && |primes| > 0 && p <= primes[|primes| - 1] ==> p in primes
  {
    primes := [];
    var i := 0;
    ghost var bound := PrimeAbove(0);
    while |primes| < numbers
      invariant |primes| <= numbers
      invariant 0 <= i <= bound && Prime(bound)
      invariant forall k :: 0 <= k < |primes| ==> Prime(primes[k]) && primes[k] < i
      invariant forall k :: 0 < k < |primes| ==> primes[k - 1] < primes[k]
      invariant forall p :: Prime(p) && p < i ==> p in primes
      decreases numbers - |primes|, bound - i
    {
      var isPrime := IsPrime(i);
      if isPrime {
        primes := primes + [i];
        bound := PrimeAbove(i);
      } else {
        assert i != bound;
      }
      i := i + 1;
    }
  }
}
