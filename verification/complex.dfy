/** Complex arithmetic of lib/complex.hpp over exact reals.

    A division whose divisor has zero (squared) modulus produces an infinite or
    not-a-number result in the source; the model returns `None` for it.  The
    polar parts (`from_polar`, `modulus`, `argument`) need transcendental
    functions and are not modelled. */
module ComplexNumbers {
  import opened Wrappers
  import Scalar

  /** Tolerance of `operator==` (`complex_precision`). */
  const ComplexPrecision: real := 0.000001

  datatype Complex = Complex(re: real, im: real)

  /** `Complex(real)`: a real number as a complex one. */
  function FromReal(b: real): Complex {
    Complex(b, 0.0)
  }

  const Zero: Complex := Complex(0.0, 0.0)
  const One: Complex := Complex(1.0, 0.0)

  // The solver handles each of these nonlinear facts only in isolation, so
  // they are stated one per lemma and combined linearly by the callers.

  lemma ProductPositive(a: real, b: real, t: real)
    requires t == a * b && a > 0.0 && b > 0.0
    ensures t > 0.0
  {
  }

  lemma SquarePositive(x: real, t: real)
    requires t == x * x && x != 0.0
    ensures t > 0.0
  {
    if x > 0.0 {
      ProductPositive(x, x, t);
    } else {
      ProductPositive(-x, -x, t);
    }
  }

  function Square(x: real): real {
    x * x
  }

  lemma SquareSign(x: real)
    ensures Square(x) >= 0.0
    ensures x != 0.0 ==> Square(x) != 0.0
  {
    if x != 0.0 {
      SquarePositive(x, Square(x));
    }
  }

  lemma MulDiv(x: real, y: real, m: real)
    requires m != 0.0
    ensures x * (y / m) == (x * y) / m
  {
    var q := y / m;
    assert q * m == y;
    assert (x * q) * m == x * y;
  }

  lemma SubDiv(x: real, y: real, m: real)
    requires m != 0.0
    ensures x / m - y / m == (x - y) / m
  {
  }

  lemma AddDiv(x: real, y: real, m: real)
    requires m != 0.0
    ensures x / m + y / m == (x + y) / m
  {
  }

  /** `re^2 + im^2`, which is zero only at the origin. */
  function SquaredModulus(z: Complex): (r: real)
    ensures r >= 0.0
    ensures r == 0.0 <==> z == Zero
  {
    SquareSign(z.re);
    SquareSign(z.im);
    Square(z.re) + Square(z.im)
  }

  function Conjugate(z: Complex): (r: Complex)
    ensures r.re == z.re && r.im == -z.im
    ensures SquaredModulus(r) == SquaredModulus(z)
  {
    Complex(z.re, -z.im)
  }

  lemma ConjugateInvolution(z: Complex)
    ensures Conjugate(Conjugate(z)) == z
  {
  }

  function Add(a: Complex, b: Complex): (r: Complex)
    ensures r.re == a.re + b.re && r.im == a.im + b.im
  {
    Complex(a.re + b.re, a.im + b.im)
  }

  /** `z + b` with a real `b`: only the real part changes. */
  function AddReal(z: Complex, b: real): (r: Complex)
    ensures r == Add(z, FromReal(b))
    ensures r.im == z.im
  {
    Complex(z.re + b, z.im)
  }

  /** The free `b + z`: forwards to `z + b`. */
  function RealAdd(b: real, z: Complex): (r: Complex)
    ensures r == Add(FromReal(b), z)
  {
    AddReal(z, b)
  }

  function Sub(a: Complex, b: Complex): (r: Complex)
    ensures r.re == a.re - b.re && r.im == a.im - b.im
  {
    Complex(a.re - b.re, a.im - b.im)
  }

  /** `z - b` with a real `b`: only the real part changes. */
  function SubReal(z: Complex, b: real): (r: Complex)
    ensures r == Sub(z, FromReal(b))
    ensures r.im == z.im
  {
    Complex(z.re - b, z.im)
  }

  /** The free `b - a` as written: it returns `a - b`, the operands are not
      swapped back. */
  function RealSub(b: real, a: Complex): (r: Complex)
    ensures r == Sub(a, FromReal(b))
  {
    SubReal(a, b)
  }

  /** The free `b - a` as evidently intended. */
  function RealSubCorrected(b: real, a: Complex): (r: Complex)
    ensures Add(r, a) == FromReal(b)
  {
    Complex(b - a.re, -a.im)
  }

  /** `2 - (1 + i)` is `1 - i`, but the source computes `(1 + i) - 2`. */
  lemma RealSubSwapsOperands()
    ensures RealSub(2.0, Complex(1.0, 1.0)) == Complex(-1.0, 1.0)
    ensures RealSubCorrected(2.0, Complex(1.0, 1.0)) == Complex(1.0, -1.0)
  {
  }

  /** Addition is commutative and associative with zero as its neutral
      element. */
  lemma AddCommutativeAssociative(a: Complex, b: Complex, c: Complex)
    ensures Add(a, b) == Add(b, a)
    ensures Add(Add(a, b), c) == Add(a, Add(b, c))
    ensures Add(a, FromReal(0.0)) == a
  {
  }

  lemma AddSubRoundTrip(a: Complex, b: Complex)
    ensures Sub(Add(a, b), b) == a
    ensures Add(Sub(a, b), b) == a
  {
  }

  /** The product `(ac - bd, ad + bc)`. */
  function Mul(a: Complex, b: Complex): (r: Complex)
    ensures b.im == 0.0 ==> r.re == a.re * b.re && r.im == a.im * b.re
    ensures b == FromReal(1.0) ==> r == a
  {
    Complex(a.re * b.re - a.im * b.im, a.re * b.im + a.im * b.re)
  }

  /** The squared modulus is multiplicative. */
  lemma MulModulus(a: Complex, b: Complex)
    ensures SquaredModulus(Mul(a, b)) == SquaredModulus(a) * SquaredModulus(b)
  {
  }

  lemma MulCommutative(a: Complex, b: Complex)
    ensures Mul(a, b) == Mul(b, a)
  {
  }

  lemma MulAssociative(a: Complex, b: Complex, c: Complex)
    ensures Mul(Mul(a, b), c) == Mul(a, Mul(b, c))
  {
  }

  /** `z * conj(z)` is the real number `|z|^2`. */
  lemma MulConjugate(z: Complex)
    ensures Mul(z, Conjugate(z)) == FromReal(SquaredModulus(z))
  {
  }

  /** `z * b` with a real `b` scales both parts. */
  function MulReal(z: Complex, b: real): (r: Complex)
    ensures r == Mul(z, FromReal(b))
  {
    Complex(z.re * b, z.im * b)
  }

  /** The free `b * z`: forwards to `z * b`, which is correct since the
      product commutes. */
  function RealMul(b: real, z: Complex): (r: Complex)
    ensures r == Mul(FromReal(b), z)
  {
    MulReal(z, b)
  }

  /** `inverse`: `conj(z) / |z|^2`; `None` when `|z|^2` is zero. */
  function Inverse(z: Complex): (r: Option<Complex>)
    ensures r.None? <==> z == Zero
    ensures r.Some? ==> Mul(z, r.value) == One && Mul(r.value, z) == One
  {
    if z == Zero then None
    else
      var m := SquaredModulus(z);
      var w := Complex(z.re / m, -z.im / m);
      InverseCancels(z);
      MulCommutative(z, w);
      Some(w)
  }

  lemma InverseCancels(z: Complex)
    requires z != Zero
    ensures var m := SquaredModulus(z); Mul(z, Complex(z.re / m, -z.im / m)) == One
  {
    var m := SquaredModulus(z);
    InverseRealPart(z.re, z.im, m);
    InverseImaginaryPart(z.re, z.im, m);
  }

  lemma InverseRealPart(x: real, y: real, m: real)
    requires m == Square(x) + Square(y) && m != 0.0
    ensures x * (x / m) - y * (-y / m) == 1.0
  {
    MulDiv(x, x, m);
    MulDiv(y, -y, m);
    SubDiv(x * x, y * -y, m);
    assert x * x - y * -y == m;
  }

  lemma InverseImaginaryPart(x: real, y: real, m: real)
    requires m != 0.0
    ensures x * (-y / m) + y * (x / m) == 0.0
  {
    MulDiv(x, -y, m);
    MulDiv(y, x, m);
    AddDiv(x * -y, y * x, m);
    assert x * -y + y * x == 0.0;
  }

  /** The formula of `operator/`: `((ac + bd) / m, (bc - ad) / m)` with `m`
      the squared modulus of the divisor. */
  function Quotient(a: Complex, b: Complex): Complex
    requires b != Zero
  {
    var m := SquaredModulus(b);
    Complex((a.re * b.re + a.im * b.im) / m, (a.im * b.re - a.re * b.im) / m)
  }

  lemma QuotientRealPart(x: real, y: real, c: real, d: real, m: real)
    requires m != 0.0
    ensures x * (c / m) - y * (-d / m) == (x * c + y * d) / m
  {
    MulDiv(x, c, m);
    MulDiv(y, -d, m);
    SubDiv(x * c, y * -d, m);
  }

  lemma QuotientImaginaryPart(x: real, y: real, c: real, d: real, m: real)
    requires m != 0.0
    ensures x * (-d / m) + y * (c / m) == (y * c - x * d) / m
  {
    MulDiv(x, -d, m);
    MulDiv(y, c, m);
    AddDiv(x * -d, y * c, m);
  }

  /** The quotient formula is the product with the inverse. */
  lemma QuotientIsMulInverse(a: Complex, b: Complex)
    requires b != Zero
    ensures Quotient(a, b) == Mul(a, Inverse(b).value)
  {
    var m := SquaredModulus(b);
    QuotientRealPart(a.re, a.im, b.re, b.im, m);
    QuotientImaginaryPart(a.re, a.im, b.re, b.im, m);
  }

  lemma MulInverseCancels(a: Complex, b: Complex)
    requires b != Zero
    ensures Mul(Mul(a, Inverse(b).value), b) == a
  {
    var inv := Inverse(b).value;
    MulAssociative(a, inv, b);
    assert Mul(inv, b) == One;
    assert Mul(a, One) == a;
  }

  /** Complex division `a / b`; `None` when `b` is zero.  Multiplying the
      quotient back by `b` gives `a`. */
  function Div(a: Complex, b: Complex): (r: Option<Complex>)
    ensures r.None? <==> b == Zero
    ensures r.Some? ==> Mul(r.value, b) == a
  {
    if b == Zero then None
    else
      QuotientIsMulInverse(a, b);
      MulInverseCancels(a, b);
      Some(Quotient(a, b))
  }

  /** Division agrees with multiplication by the inverse. */
  lemma DivIsMulInverse(a: Complex, b: Complex)
    requires b != Zero
    ensures Div(a, b) == Some(Mul(a, Inverse(b).value))
  {
    QuotientIsMulInverse(a, b);
  }

  /** `z / b` with a real `b` divides both parts; `None` when `b` is zero. */
  function DivReal(z: Complex, b: real): (r: Option<Complex>)
    ensures r.None? <==> b == 0.0
    ensures r.Some? ==> MulReal(r.value, b) == z
  {
    if b == 0.0 then None else Some(Complex(z.re / b, z.im / b))
  }

  /** The free `b / a` as written: it returns `a / b`, the operands are not
      swapped back. */
  function RealDiv(b: real, a: Complex): (r: Option<Complex>)
    ensures r == DivReal(a, b)
  {
    DivReal(a, b)
  }

  /** The free `b / a` as evidently intended. */
  function RealDivCorrected(b: real, a: Complex): (r: Option<Complex>)
    ensures r.None? <==> a == Zero
    ensures r.Some? ==> Mul(r.value, a) == FromReal(b)
  {
    Div(FromReal(b), a)
  }

  /** `1 / (2i)` is `-i/2`, but the source computes `(2i) / 1`. */
  lemma RealDivSwapsOperands()
    ensures RealDiv(1.0, Complex(0.0, 2.0)) == Some(Complex(0.0, 2.0))
    ensures RealDivCorrected(1.0, Complex(0.0, 2.0)) == Some(Complex(0.0, -0.5))
  {
    assert SquaredModulus(Complex(0.0, 2.0)) == 4.0;
    assert Quotient(FromReal(1.0), Complex(0.0, 2.0)) == Complex(0.0, -0.5);
  }

  /** `operator==`: both parts within `complex_precision` of each other. */
  predicate Equal(a: Complex, b: Complex) {
    Scalar.AreClose(a.re, b.re, ComplexPrecision) && Scalar.AreClose(a.im, b.im, ComplexPrecision)
  }

  /** `operator==` against a real: the imaginary part must be close to zero. */
  predicate EqualReal(a: Complex, b: real) {
    Scalar.AreClose(a.re, b, ComplexPrecision) && Scalar.AreClose(a.im, 0.0, ComplexPrecision)
  }

  lemma EqualMeansComponentsClose(a: Complex, b: Complex)
    ensures Equal(a, b) <==> -ComplexPrecision < a.re - b.re < ComplexPrecision &&
                             -ComplexPrecision < a.im - b.im < ComplexPrecision
    ensures EqualReal(a, a.re) <==> -ComplexPrecision < a.im < ComplexPrecision
    ensures Equal(a, a) && (Equal(a, b) <==> Equal(b, a))
  {
  }

  /** Tolerance equality is not transitive. */
  lemma EqualNotTransitive()
    ensures Equal(Complex(0.0, 0.0), Complex(0.0000006, 0.0))
    ensures Equal(Complex(0.0000006, 0.0), Complex(0.0000012, 0.0))
    ensures !Equal(Complex(0.0, 0.0), Complex(0.0000012, 0.0))
  {
  }
}
