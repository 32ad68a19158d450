/** The exact helpers of the scalar math library (lib/scalar.hpp) and the
    domain-guard cascades of its root and arctangent functions.

    `Floating` is modelled as `real`, so every formula here is exact.  The
    iterative parts of the library (the Newton-Raphson loops of
    `square_root` and `root`, and the series behind `arctangent`) are not
    modelled: the guard functions take them as parameters.  A not-a-number
    result is `None`.
 */
module Scalar {
  import opened Wrappers
  import Arith

  /** Absolute tolerance used by the library's own comparisons. */
  const ScalarPrecision: real := 0.0000000001

  /** The library's value of pi (`const_pi`). */
  const Pi: real := 3.14159265358979323846

  /** `uint64_t` arithmetic wraps modulo this value. */
  const U64Modulus: nat := 0x1_0000_0000_0000_0000

  type U64 = x: nat | x < U64Modulus

  function Abs(x: real): (r: real)
    ensures r >= 0.0
    ensures r == x || r == -x
  {
    if x < 0.0 then -x else x
  }

  /** `are_close`: the absolute difference is strictly below the tolerance. */
  predicate AreClose(a: real, b: real, delta: real) {
    Abs(a - b) < delta
  }

  /** `swap` exchanges its two arguments; the pair returned is (new a, new b). */
  function Swap<T>(a: T, b: T): (r: (T, T))
    ensures r.0 == b && r.1 == a
  {
    (b, a)
  }

  lemma SwapTwiceRestores<T>(a: T, b: T)
    ensures var (a1, b1) := Swap(a, b); Swap(a1, b1) == (a, b)
  {
  }

  /** `maximum`: `a` when `a > b`, otherwise `b`. */
  function Maximum(a: real, b: real): (r: real)
    ensures r == a || r == b
    ensures r >= a && r >= b
  {
    if a > b then a else b
  }

  /** `minimum`: `a` when `a < b`, otherwise `b`. */
  function Minimum(a: real, b: real): (r: real)
    ensures r == a || r == b
    ensures r <= a && r <= b
  {
    if a < b then a else b
  }

  /** `sign`: 1 for strictly positive input and -1 otherwise, zero included. */
  function Sign(value: real): (r: real)
    ensures value > 0.0 ==> r == 1.0
    ensures value <= 0.0 ==> r == -1.0
  {
    if value > 0.0 then 1.0 else -1.0
  }

  /** Away from zero, `sign` and `Abs` recompose the value; at zero they do not. */
  lemma SignAbsRecompose(value: real)
    ensures value != 0.0 ==> Sign(value) * Abs(value) == value
    ensures Sign(0.0) * Abs(0.0) == 0.0 && Sign(0.0) == -1.0
  {
  }

  // ---------------------------------------------------------------------
  // power

  /** Mathematical integer power, the reference for `power`. */
  function Pow(base: real, n: nat): real {
    if n == 0 then 1.0 else base * Pow(base, n - 1)
  }

  /** `power` multiplies the result by `base` once per unit of the exponent. */
  method Power(base: real, exponent: nat) returns (result: real)
    ensures result == Pow(base, exponent)
  {
    result := 1.0;
    var e: nat := exponent;
    while e != 0
      invariant e <= exponent
      invariant result == Pow(base, exponent - e)
    {
      result := result * base;
      e := e - 1;
    }
  }

  lemma {:induction false} PowAdd(base: real, m: nat, n: nat)
    ensures Pow(base, m + n) == Pow(base, m) * Pow(base, n)
  {
    if m != 0 {
      PowAdd(base, m - 1, n);
      assert Pow(base, m + n) == base * Pow(base, m - 1 + n);
    }
  }

  // ---------------------------------------------------------------------
  // factorial

  /** Mathematical factorial, the reference for `factorial`. */
  function Fact(n: nat): nat {
    if n <= 1 then 1 else n * Fact(n - 1)
  }

  /** The product of the integers in `(lo, hi]`, that is `hi! / lo!`. */
  function Prod(lo: nat, hi: nat): nat
    requires lo <= hi
    decreases hi - lo
  {
    if hi == lo then 1 else hi * Prod(lo, hi - 1)
  }

  lemma {:induction false} ProdExtendDown(lo: nat, hi: nat)
    requires 1 <= lo <= hi
    ensures Prod(lo - 1, hi) == lo * Prod(lo, hi)
    decreases hi - lo
  {
    if hi != lo {
      ProdExtendDown(lo, hi - 1);
      calc {
        Prod(lo - 1, hi);
        hi * Prod(lo - 1, hi - 1);
        hi * (lo * Prod(lo, hi - 1));
        lo * (hi * Prod(lo, hi - 1));
      }
    }
  }

  lemma {:induction false} ProdFromOneIsFact(lo: nat, hi: nat)
    requires lo <= 1 && lo <= hi
    ensures Prod(lo, hi) == Fact(hi)
    decreases hi
  {
    if hi != lo {
      ProdFromOneIsFact(lo, hi - 1);
    }
  }

  /** `factorial` on `uint64_t`: the loop multiplies by `value, value-1, ..., 2`,
      each product wrapping modulo 2^64, so the result is `value! mod 2^64`. */
  method Factorial(value: U64) returns (result: U64)
    ensures result == Fact(value) % U64Modulus
  {
    result := 1;
    var v: nat := value;
    while v > 1
      invariant v <= value
      invariant result == Prod(v, value) % U64Modulus
    {
      ProdExtendDown(v, value);
      Arith.ModMulLeft(Prod(v, value), v, U64Modulus);
      result := (result * v) % U64Modulus;
      v := v - 1;
    }
    ProdFromOneIsFact(v, value);
  }

  lemma FactorialRecurrence(n: nat)
    ensures Fact(0) == 1 && Fact(1) == 1
    ensures n >= 2 ==> Fact(n) == n * Fact(n - 1)
  {
  }

  // ---------------------------------------------------------------------
  // Guard cascades

  /** `square_root`: zero for an input within tolerance of zero, NaN for a
      negative input, and otherwise whatever the Newton-Raphson iteration
      (the parameter `newton`) converges to. */
  function SquareRoot(value: real, newton: real -> real): (r: Option<real>)
    ensures Abs(value) < ScalarPrecision ==> r == Some(0.0)
    ensures r == None <==> value <= -ScalarPrecision
    ensures value >= ScalarPrecision ==> r == Some(newton(value))
  {
    if AreClose(Abs(value), 0.0, ScalarPrecision) then Some(0.0)
    else if value < 0.0 then None
    else Some(newton(value))
  }

  /** `root(value, n)`: the cascade of special cases tested in source order;
      `newton` stands for the Newton-Raphson iteration that follows them. */
  function Root(value: real, n: U64, newton: (real, nat) -> real): (r: Option<real>)
    ensures n == 1 ==> r == Some(value)
    ensures n == 0 ==> r == (if Abs(value) < ScalarPrecision then None else Some(1.0))
    ensures n >= 2 && Abs(value) < ScalarPrecision ==> r == Some(0.0)
  {
    if n == 1 then Some(value)
    else if n == 0 && AreClose(value, 0.0, ScalarPrecision) then None
    else if n == 0 then Some(1.0)
    else if AreClose(value, 0.0, ScalarPrecision) then Some(0.0)
    else if n % 2 == 0 && value < 0.0 then None
    else Some(newton(value, n))
  }

  /** `root` yields NaN exactly for the zeroth root of (almost) zero and for an
      even root of a value below minus the tolerance. */
  lemma RootIsNaNExactly(value: real, n: U64, newton: (real, nat) -> real)
    ensures Root(value, n, newton) == None <==>
      (n == 0 && Abs(value) < ScalarPrecision) ||
      (n >= 2 && n % 2 == 0 && value <= -ScalarPrecision)
  {
  }

  /** An odd root is never NaN, and away from zero it is the Newton result. */
  lemma OddRootDefined(value: real, n: U64, newton: (real, nat) -> real)
    requires n % 2 == 1 && n >= 3 && Abs(value) >= ScalarPrecision
    ensures Root(value, n, newton) == Some(newton(value, n))
  {
  }

  /** `atan2(y, x)` dispatch; `arctangent` stands for the library's series. */
  function Atan2(y: real, x: real, arctangent: real -> real): (r: real)
    ensures Abs(x) < ScalarPrecision && Abs(y) < ScalarPrecision ==> r == 0.0
    ensures Abs(x) < ScalarPrecision && y >= ScalarPrecision ==> r == Pi / 2.0
    ensures Abs(x) < ScalarPrecision && y <= -ScalarPrecision ==> r == -Pi / 2.0
    ensures x >= ScalarPrecision ==> r == arctangent(y / x)
    ensures x <= -ScalarPrecision && y >= 0.0 ==> r == arctangent(y / x) + Pi
    ensures x <= -ScalarPrecision && y < 0.0 ==> r == arctangent(y / x) - Pi
  {
    var xIsZero := AreClose(x, 0.0, ScalarPrecision);
    var yIsZero := AreClose(y, 0.0, ScalarPrecision);
    if xIsZero && yIsZero then 0.0
    else if xIsZero then Sign(y) * (Pi / 2.0)
    else if x > 0.0 then arctangent(y / x)
    else if y >= 0.0 then arctangent(y / x) + Pi
    else arctangent(y / x) - Pi
  }

  /** What the library's `arctangent` is meant to be: an odd-signed map into
      the open interval (-pi/2, pi/2). */
  ghost predicate ArctangentShaped(arctangent: real -> real) {
    forall t :: (t > 0.0 ==> 0.0 < arctangent(t) < Pi / 2.0) &&
                (t == 0.0 ==> arctangent(t) == 0.0) &&
                (t < 0.0 ==> -Pi / 2.0 < arctangent(t) < 0.0)
  }

  /** Given such an arctangent, `atan2` lands in (-pi, pi], on the side of the
      x axis where `y` is, and in the right or left half-plane with `x`. */
  lemma Atan2Quadrant(y: real, x: real, arctangent: real -> real)
    requires ArctangentShaped(arctangent)
    ensures -Pi < Atan2(y, x, arctangent) <= Pi
    ensures y >= ScalarPrecision ==> Atan2(y, x, arctangent) > 0.0
    ensures y <= -ScalarPrecision ==> Atan2(y, x, arctangent) < 0.0
    ensures x >= ScalarPrecision ==> -Pi / 2.0 < Atan2(y, x, arctangent) < Pi / 2.0
    ensures x <= -ScalarPrecision ==> Abs(Atan2(y, x, arctangent)) > Pi / 2.0
  {
    var r := Atan2(y, x, arctangent);
    if Abs(x) >= ScalarPrecision {
      var t := y / x;
      assert t * x == y;
      assert -Pi / 2.0 < arctangent(t) < Pi / 2.0;
      if x > 0.0 {
        if y > 0.0 {
          assert t > 0.0;
        } else if y < 0.0 {
          assert t < 0.0;
        }
      } else {
        if y > 0.0 {
          assert t < 0.0;
        } else if y == 0.0 {
          assert t == 0.0;
        } else {
          assert t > 0.0;
        }
      }
    }
  }

  /** The boundary values the library's own demonstration relies on. */
  lemma Atan2OnAxes(arctangent: real -> real)
    ensures Atan2(0.0, 0.0, arctangent) == 0.0
    ensures Atan2(1.0, 0.0, arctangent) == Pi / 2.0
    ensures Atan2(-1.0, 0.0, arctangent) == -Pi / 2.0
  {
  }
}
