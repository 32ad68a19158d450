/** The `Matrix` class of lib/matrix.hpp as a value: `rows` rows of `cols`
    reals each.

    The class stores the cells in one row-major array; the model keeps the
    rows apart and `Data` flattens them into that array.  Every operation
    that throws `std::runtime_error` in the source returns a `Failure`
    naming the reason.  Allocation, `resize`, `random` and the text
    formatting are not part of this model; the elimination-based operations
    (`determinant` and `inverse`) live in module `Elimination`. */
module Matrices {
  import opened Wrappers
  import Scalar
  import Vectors

  /** Tolerance of `operator==`, `is_symmetric` and `is_skew_symmetric`
      (`matrix_precision`). */
  const MatrixPrecision: real := 0.000000001

  datatype Matrix = Matrix(rows: nat, cols: nat, cells: seq<seq<real>>)

  /** The class invariant: `rows` rows of `cols` cells each. */
  predicate Valid(m: Matrix) {
    |m.cells| == m.rows && forall i :: 0 <= i < |m.cells| ==> |m.cells[i]| == m.cols
  }

  datatype MatrixError =
    | RowOutOfRange  // "Trying to access matrix in invalid row index!"
    | ColOutOfRange  // "Trying to access matrix in invalid column index!"
    | SizeMismatch   // "... involving matrices with incompatible sizes!"
    | NotSquare      // "... only defined for square matrices!"

  /** Cell `(r, c)`; outside the matrix it reads as zero so that it can be
      used in total lambdas. */
  function Entry(m: Matrix, r: nat, c: nat): real {
    if r < |m.cells| && c < |m.cells[r]| then m.cells[r][c] else 0.0
  }

  /** The `rows x cols` matrix whose cell `(r, c)` is `f(r, c)`. */
  function Build(rows: nat, cols: nat, f: (nat, nat) -> real): (m: Matrix)
    ensures Valid(m) && m.rows == rows && m.cols == cols
    ensures forall r: nat, c: nat :: r < rows && c < cols ==> Entry(m, r, c) == f(r, c)
  {
    Matrix(rows, cols, seq(rows, (r: nat) => seq(cols, (c: nat) => f(r, c))))
  }

  /** Two valid matrices with the same shape and the same cells are equal. */
  lemma Extensionality(a: Matrix, b: Matrix)
    requires Valid(a) && Valid(b) && a.rows == b.rows && a.cols == b.cols
    requires forall r: nat, c: nat :: r < a.rows && c < a.cols ==> Entry(a, r, c) == Entry(b, r, c)
    ensures a == b
  {
    forall i | 0 <= i < a.rows
      ensures a.cells[i] == b.cells[i]
    {
      forall j | 0 <= j < a.cols
        ensures a.cells[i][j] == b.cells[i][j]
      {
        assert Entry(a, i, j) == Entry(b, i, j);
      }
    }
  }

  // ---------------------------------------------------------------------
  // Row-major storage

  /** Position of cell `(r, c)` in a row-major array with `cols` columns. */
  function Index(r: nat, c: nat, cols: nat): nat {
    r * cols + c
  }

  /** The class's `data` array: the rows one after the other. */
  function Data(cells: seq<seq<real>>): seq<real> {
    if |cells| == 0 then [] else Data(cells[..|cells| - 1]) + cells[|cells| - 1]
  }

  /** The array holds `rows * cols` values, and cell `(r, c)` sits at
      `r * cols + c`, the position `operator()` reads. */
  lemma {:induction false} DataLayout(m: Matrix, r: nat, c: nat)
    requires Valid(m) && r < m.rows && c < m.cols
    ensures |Data(m.cells)| == m.rows * m.cols
    ensures Index(r, c, m.cols) < |Data(m.cells)|
    ensures Data(m.cells)[Index(r, c, m.cols)] == Entry(m, r, c)
    decreases m.rows
  {
    var last := m.rows - 1;
    var init := Matrix(last, m.cols, m.cells[..last]);
    var prefix := Data(init.cells);
    DataLength(init);
    DataLength(m);
    assert Data(m.cells) == prefix + m.cells[last];
    if r < last {
      DataLayout(init, r, c);
      assert Entry(init, r, c) == Entry(m, r, c);
    } else {
      assert Index(r, c, m.cols) == |prefix| + c;
    }
  }

  lemma {:induction false} DataLength(m: Matrix)
    requires Valid(m)
    ensures |Data(m.cells)| == m.rows * m.cols
    decreases m.rows
  {
    if m.rows != 0 {
      DataLength(Matrix(m.rows - 1, m.cols, m.cells[..m.rows - 1]));
    }
  }

  // ---------------------------------------------------------------------
  // Element access

  /** `operator()(row, col)` read: the row is checked before the column. */
  function At(m: Matrix, row: nat, col: nat): (r: Result<real, MatrixError>)
    requires Valid(m)
    ensures r == Failure(RowOutOfRange) <==> row >= m.rows
    ensures r == Failure(ColOutOfRange) <==> row < m.rows && col >= m.cols
    ensures r.Success? ==> r.value == Entry(m, row, col)
  {
    if row >= m.rows then Failure(RowOutOfRange)
    else if col >= m.cols then Failure(ColOutOfRange)
    else Success(m.cells[row][col])
  }

  /** `operator()(row, col)` used as an lvalue: one cell replaced. */
  function Put(m: Matrix, row: nat, col: nat, x: real): (r: Result<Matrix, MatrixError>)
    requires Valid(m)
    ensures r == Failure(RowOutOfRange) <==> row >= m.rows
    ensures r == Failure(ColOutOfRange) <==> row < m.rows && col >= m.cols
    ensures r.Success? ==> Valid(r.value) && r.value.rows == m.rows && r.value.cols == m.cols
    ensures r.Success? ==> forall i: nat, j: nat :: i < m.rows && j < m.cols ==>
      Entry(r.value, i, j) == if i == row && j == col then x else Entry(m, i, j)
  {
    if row >= m.rows then Failure(RowOutOfRange)
    else if col >= m.cols then Failure(ColOutOfRange)
    else Success(Matrix(m.rows, m.cols, m.cells[row := m.cells[row][col := x]]))
  }

  /** Writing a cell and reading it back returns what was written. */
  lemma AtAfterPut(m: Matrix, row: nat, col: nat, x: real, i: nat, j: nat)
    requires Valid(m) && row < m.rows && col < m.cols
    ensures Put(m, row, col, x).Success?
    ensures At(Put(m, row, col, x).value, row, col) == Success(x)
    ensures (i != row || j != col) ==> At(Put(m, row, col, x).value, i, j) == At(m, i, j)
  {
  }

  // ---------------------------------------------------------------------
  // Elementwise arithmetic

  predicate SameShape(a: Matrix, b: Matrix) {
    a.rows == b.rows && a.cols == b.cols
  }

  /** `operator+`: `SizeMismatch` unless both dimensions agree, otherwise the
      cells are added position by position. */
  function Add(a: Matrix, b: Matrix): (r: Result<Matrix, MatrixError>)
    requires Valid(a) && Valid(b)
    ensures r.Failure? <==> !SameShape(a, b)
    ensures r.Failure? ==> r.error == SizeMismatch
    ensures r.Success? ==> Valid(r.value) && SameShape(r.value, a)
    ensures r.Success? ==> forall i: nat, j: nat :: i < a.rows && j < a.cols ==>
      Entry(r.value, i, j) == Entry(a, i, j) + Entry(b, i, j)
  {
    if !SameShape(a, b) then Failure(SizeMismatch)
    else Success(Build(a.rows, a.cols, (i: nat, j: nat) => Entry(a, i, j) + Entry(b, i, j)))
  }

  /** `operator-`: as `operator+` with subtraction. */
  function Sub(a: Matrix, b: Matrix): (r: Result<Matrix, MatrixError>)
    requires Valid(a) && Valid(b)
    ensures r.Failure? <==> !SameShape(a, b)
    ensures r.Failure? ==> r.error == SizeMismatch
    ensures r.Success? ==> Valid(r.value) && SameShape(r.value, a)
    ensures r.Success? ==> forall i: nat, j: nat :: i < a.rows && j < a.cols ==>
      Entry(r.value, i, j) == Entry(a, i, j) - Entry(b, i, j)
  {
    if !SameShape(a, b) then Failure(SizeMismatch)
    else Success(Build(a.rows, a.cols, (i: nat, j: nat) => Entry(a, i, j) - Entry(b, i, j)))
  }

  /** Adding then subtracting the same matrix gives back the original, and
      addition does not depend on the order of its operands. */
  lemma AddSubRoundTrip(a: Matrix, b: Matrix)
    requires Valid(a) && Valid(b) && SameShape(a, b)
    ensures Add(a, b).Success? && Sub(Add(a, b).value, b) == Success(a)
    ensures Add(a, b) == Add(b, a)
  {
    var s := Add(a, b).value;
    Extensionality(Sub(s, b).value, a);
    Extensionality(Add(a, b).value, Add(b, a).value);
  }

  /** `matrix * scalar`, `scalar * matrix` and `*=`: every cell scaled. */
  function Scale(m: Matrix, s: real): (r: Matrix)
    requires Valid(m)
    ensures Valid(r) && SameShape(r, m)
    ensures forall i: nat, j: nat :: i < m.rows && j < m.cols ==> Entry(r, i, j) == s * Entry(m, i, j)
  {
    Build(m.rows, m.cols, (i: nat, j: nat) => s * Entry(m, i, j))
  }

  /** Scaling by one is the identity; scaling by `s` then `t` is scaling by `t * s`. */
  lemma ScaleComposes(m: Matrix, s: real, t: real)
    requires Valid(m)
    ensures Scale(m, 1.0) == m
    ensures Scale(Scale(m, s), t) == Scale(m, t * s)
  {
    Extensionality(Scale(m, 1.0), m);
    Extensionality(Scale(Scale(m, s), t), Scale(m, t * s));
  }

  // ---------------------------------------------------------------------
  // Products

  /** `sum_{k < n} a(i, k) * b(k, j)`, accumulated left to right as the
      source's `+=` loop does. */
  function ProductSum(a: Matrix, b: Matrix, i: nat, j: nat, n: nat): real {
    if n == 0 then 0.0 else ProductSum(a, b, i, j, n - 1) + Entry(a, i, n - 1) * Entry(b, n - 1, j)
  }

  /** `sum_{k < n} a(i, k) * v[k]`, accumulated left to right. */
  function RowSum(a: Matrix, v: Vectors.Vector, i: nat, n: nat): real
    requires n <= |v|
  {
    if n == 0 then 0.0 else RowSum(a, v, i, n - 1) + Entry(a, i, n - 1) * v[n - 1]
  }

  /** `matrix * vector`: `SizeMismatch` unless the vector has `cols` elements;
      element `i` of the result is row `i` dotted with the vector. */
  function MulVec(a: Matrix, v: Vectors.Vector): (r: Result<Vectors.Vector, MatrixError>)
    requires Valid(a)
    ensures r.Failure? <==> a.cols != |v|
    ensures r.Failure? ==> r.error == SizeMismatch
    ensures r.Success? ==> |r.value| == a.rows
  {
    if a.cols != |v| then Failure(SizeMismatch)
    else Success(seq(a.rows, (i: nat) => RowSum(a, v, i, a.cols)))
  }

  /** `matrix * matrix`: `SizeMismatch` unless the inner dimensions agree;
      the result is `rows x other.cols`. */
  function Mul(a: Matrix, b: Matrix): (r: Result<Matrix, MatrixError>)
    requires Valid(a) && Valid(b)
    ensures r.Failure? <==> a.cols != b.rows
    ensures r.Failure? ==> r.error == SizeMismatch
    ensures r.Success? ==> Valid(r.value) && r.value.rows == a.rows && r.value.cols == b.cols
  {
    if a.cols != b.rows then Failure(SizeMismatch)
    else Success(Build(a.rows, b.cols, (i: nat, j: nat) => ProductSum(a, b, i, j, a.cols)))
  }

  /** Column `j` of `b`, as a vector. */
  function Column(b: Matrix, j: nat): (v: Vectors.Vector)
    ensures |v| == b.rows
  {
    seq(b.rows, (k: nat) => Entry(b, k, j))
  }

  lemma {:induction false} RowSumIsDot(a: Matrix, v: Vectors.Vector, i: nat, n: nat)
    requires Valid(a) && i < a.rows && n <= a.cols && n <= |v|
    ensures RowSum(a, v, i, n) == Vectors.DotPrefix(a.cells[i], v, n)
  {
    if n != 0 {
      RowSumIsDot(a, v, i, n - 1);
    }
  }

  lemma {:induction false} ProductSumIsRowSum(a: Matrix, b: Matrix, i: nat, j: nat, n: nat)
    requires n <= b.rows
    ensures ProductSum(a, b, i, j, n) == RowSum(a, Column(b, j), i, n)
  {
    if n != 0 {
      ProductSumIsRowSum(a, b, i, j, n - 1);
    }
  }

  /** Element `i` of `matrix * vector` is the dot product of row `i` with
      the vector. */
  lemma MulVecRowDot(a: Matrix, v: Vectors.Vector)
    requires Valid(a) && a.cols == |v|
    ensures MulVec(a, v).Success?
    ensures forall i :: 0 <= i < a.rows ==> Vectors.Dot(a.cells[i], v) == Success(MulVec(a, v).value[i])
  {
    forall i | 0 <= i < a.rows
      ensures Vectors.Dot(a.cells[i], v) == Success(MulVec(a, v).value[i])
    {
      RowSumIsDot(a, v, i, a.cols);
    }
  }

  /** Column `j` of `a * b` is `a` times column `j` of `b`. */
  lemma MulColumns(a: Matrix, b: Matrix, j: nat)
    requires Valid(a) && Valid(b) && a.cols == b.rows && j < b.cols
    ensures Mul(a, b).Success? && MulVec(a, Column(b, j)).Success?
    ensures MulVec(a, Column(b, j)).value == Column(Mul(a, b).value, j)
  {
    var r := Mul(a, b).value;
    forall i | 0 <= i < a.rows
      ensures MulVec(a, Column(b, j)).value[i] == Column(r, j)[i]
    {
      ProductSumIsRowSum(a, b, i, j, a.cols);
    }
  }

  /** `identity(size)`: ones on the diagonal, zeros elsewhere. */
  function Identity(n: nat): (r: Matrix)
    ensures Valid(r) && r.rows == n && r.cols == n
    ensures forall i: nat, j: nat :: i < n && j < n ==> Entry(r, i, j) == if i == j then 1.0 else 0.0
  {
    Build(n, n, (i: nat, j: nat) => if i == j then 1.0 else 0.0)
  }

  lemma {:induction false} ProductSumIdentityRight(a: Matrix, i: nat, j: nat, n: nat)
    requires Valid(a) && i < a.rows && j < a.cols && n <= a.cols
    ensures ProductSum(a, Identity(a.cols), i, j, n) == if j < n then Entry(a, i, j) else 0.0
  {
    if n != 0 {
      ProductSumIdentityRight(a, i, j, n - 1);
    }
  }

  lemma {:induction false} ProductSumIdentityLeft(a: Matrix, i: nat, j: nat, n: nat)
    requires Valid(a) && i < a.rows && j < a.cols && n <= a.rows
    ensures ProductSum(Identity(a.rows), a, i, j, n) == if i < n then Entry(a, i, j) else 0.0
  {
    if n != 0 {
      ProductSumIdentityLeft(a, i, j, n - 1);
    }
  }

  /** The identity is neutral for the matrix product on both sides. */
  lemma MulIdentity(a: Matrix)
    requires Valid(a)
    ensures Mul(a, Identity(a.cols)) == Success(a)
    ensures Mul(Identity(a.rows), a) == Success(a)
  {
    var right := Mul(a, Identity(a.cols)).value;
    forall i: nat, j: nat | i < a.rows && j < a.cols
      ensures Entry(right, i, j) == Entry(a, i, j)
    {
      ProductSumIdentityRight(a, i, j, a.cols);
    }
    Extensionality(right, a);
    var left := Mul(Identity(a.rows), a).value;
    forall i: nat, j: nat | i < a.rows && j < a.cols
      ensures Entry(left, i, j) == Entry(a, i, j)
    {
      ProductSumIdentityLeft(a, i, j, a.rows);
    }
    Extensionality(left, a);
  }

  lemma {:induction false} RowSumIdentity(v: Vectors.Vector, i: nat, n: nat)
    requires i < |v| && n <= |v|
    ensures RowSum(Identity(|v|), v, i, n) == if i < n then v[i] else 0.0
  {
    if n != 0 {
      RowSumIdentity(v, i, n - 1);
    }
  }

  /** The identity matrix maps every vector of matching length to itself. */
  lemma MulVecIdentity(v: Vectors.Vector)
    ensures MulVec(Identity(|v|), v) == Success(v)
  {
    var r := MulVec(Identity(|v|), v).value;
    forall i | 0 <= i < |v|
      ensures r[i] == v[i]
    {
      RowSumIdentity(v, i, |v|);
    }
    assert r == v;
  }

  // ---------------------------------------------------------------------
  // Associativity of the product

  /** `g(s, 0) + ... + g(s, q - 1)`: row `s` of a table of terms. */
  function RowTotal(g: (nat, nat) -> real, s: nat, q: nat): real {
    if q == 0 then 0.0 else RowTotal(g, s, q - 1) + g(s, q - 1)
  }

  /** `g(0, t) + ... + g(p - 1, t)`: column `t` of a table of terms. */
  function ColumnTotal(g: (nat, nat) -> real, t: nat, p: nat): real {
    if p == 0 then 0.0 else ColumnTotal(g, t, p - 1) + g(p - 1, t)
  }

  /** The `p x q` table summed row by row. */
  function ByRows(g: (nat, nat) -> real, p: nat, q: nat): real {
    if p == 0 then 0.0 else ByRows(g, p - 1, q) + RowTotal(g, p - 1, q)
  }

  /** The `p x q` table summed column by column. */
  function ByColumns(g: (nat, nat) -> real, p: nat, q: nat): real {
    if q == 0 then 0.0 else ByColumns(g, p, q - 1) + ColumnTotal(g, q - 1, p)
  }

  lemma {:induction false} ByColumnsLastRow(g: (nat, nat) -> real, p: nat, q: nat)
    requires p > 0
    ensures ByColumns(g, p, q) == ByColumns(g, p - 1, q) + RowTotal(g, p - 1, q)
  {
    if q != 0 {
      ByColumnsLastRow(g, p, q - 1);
    }
  }

  /** A finite double sum may be taken in either order. */
  lemma {:induction false} SumSwap(g: (nat, nat) -> real, p: nat, q: nat)
    ensures ByRows(g, p, q) == ByColumns(g, p, q)
  {
    if p == 0 {
      ByColumnsOfNoRows(g, q);
    } else {
      SumSwap(g, p - 1, q);
      ByColumnsLastRow(g, p, q);
    }
  }

  lemma {:induction false} ByColumnsOfNoRows(g: (nat, nat) -> real, q: nat)
    ensures ByColumns(g, 0, q) == 0.0
  {
    if q != 0 {
      ByColumnsOfNoRows(g, q - 1);
    }
  }

  /** `(sum_t a(i,t) b(t,s)) * c(s,j)` is column `s` of the table `a b c`. */
  lemma {:induction false} ScaledProductSum(a: Matrix, b: Matrix, c: Matrix, i: nat, j: nat, s: nat, p: nat,
                                            g: (nat, nat) -> real)
    requires forall t: nat, u: nat :: g(t, u) == Entry(a, i, t) * Entry(b, t, u) * Entry(c, u, j)
    ensures ProductSum(a, b, i, s, p) * Entry(c, s, j) == ColumnTotal(g, s, p)
  {
    if p != 0 {
      ScaledProductSum(a, b, c, i, j, s, p - 1, g);
      DistributeRight(ProductSum(a, b, i, s, p - 1), Entry(a, i, p - 1) * Entry(b, p - 1, s), Entry(c, s, j));
    }
  }

  /** `a(i,t) * (sum_u b(t,u) c(u,j))` is row `t` of the table `a b c`. */
  lemma {:induction false} ProductSumScaled(a: Matrix, b: Matrix, c: Matrix, i: nat, j: nat, t: nat, q: nat,
                                            g: (nat, nat) -> real)
    requires forall t: nat, u: nat :: g(t, u) == Entry(a, i, t) * Entry(b, t, u) * Entry(c, u, j)
    ensures Entry(a, i, t) * ProductSum(b, c, t, j, q) == RowTotal(g, t, q)
  {
    if q != 0 {
      ProductSumScaled(a, b, c, i, j, t, q - 1, g);
      DistributeLeft(Entry(a, i, t), ProductSum(b, c, t, j, q - 1), Entry(b, t, q - 1), Entry(c, q - 1, j));
    }
  }

  lemma DistributeRight(x: real, y: real, z: real)
    ensures (x + y) * z == x * z + y * z
  {
  }

  lemma DistributeLeft(x: real, y: real, u: real, v: real)
    ensures x * (y + u * v) == x * y + x * u * v
  {
  }

  lemma {:induction false} LeftGrouping(a: Matrix, b: Matrix, c: Matrix, i: nat, j: nat, q: nat,
                                        g: (nat, nat) -> real)
    requires Valid(a) && Valid(b) && a.cols == b.rows && q <= b.cols
    requires forall t: nat, u: nat :: g(t, u) == Entry(a, i, t) * Entry(b, t, u) * Entry(c, u, j)
    requires i < a.rows
    ensures Mul(a, b).Success?
    ensures ProductSum(Mul(a, b).value, c, i, j, q) == ByColumns(g, a.cols, q)
  {
    if q != 0 {
      LeftGrouping(a, b, c, i, j, q - 1, g);
      ScaledProductSum(a, b, c, i, j, q - 1, a.cols, g);
    }
  }

  lemma {:induction false} RightGrouping(a: Matrix, b: Matrix, c: Matrix, i: nat, j: nat, p: nat,
                                         g: (nat, nat) -> real)
    requires Valid(b) && Valid(c) && b.cols == c.rows && p <= b.rows
    requires forall t: nat, u: nat :: g(t, u) == Entry(a, i, t) * Entry(b, t, u) * Entry(c, u, j)
    requires j < c.cols
    ensures Mul(b, c).Success?
    ensures ProductSum(a, Mul(b, c).value, i, j, p) == ByRows(g, p, b.cols)
  {
    if p != 0 {
      RightGrouping(a, b, c, i, j, p - 1, g);
      ProductSumScaled(a, b, c, i, j, p - 1, b.cols, g);
    }
  }

  /** The matrix product is associative. */
  lemma MulAssociative(a: Matrix, b: Matrix, c: Matrix)
    requires Valid(a) && Valid(b) && Valid(c) && a.cols == b.rows && b.cols == c.rows
    ensures Mul(a, b).Success? && Mul(b, c).Success?
    ensures Mul(Mul(a, b).value, c) == Mul(a, Mul(b, c).value)
  {
    var ab, bc := Mul(a, b).value, Mul(b, c).value;
    var left, right := Mul(ab, c).value, Mul(a, bc).value;
    forall i: nat, j: nat | i < a.rows && j < c.cols
      ensures Entry(left, i, j) == Entry(right, i, j)
    {
      var g := (t: nat, u: nat) => Entry(a, i, t) * Entry(b, t, u) * Entry(c, u, j);
      LeftGrouping(a, b, c, i, j, b.cols, g);
      RightGrouping(a, b, c, i, j, a.cols, g);
      SumSwap(g, a.cols, b.cols);
    }
    Extensionality(left, right);
  }

  /** Multiplying by the vector `e_j` picks column `j`. */
  lemma {:induction false} RowSumUnit(a: Matrix, v: Vectors.Vector, i: nat, j: nat, n: nat)
    requires n <= |v| && j < |v|
    requires forall k :: 0 <= k < |v| ==> v[k] == if k == j then 1.0 else 0.0
    ensures RowSum(a, v, i, n) == if j < n then Entry(a, i, j) else 0.0
  {
    if n != 0 {
      RowSumUnit(a, v, i, j, n - 1);
    }
  }

  // ---------------------------------------------------------------------
  // Comparison

  /** `operator==`: same dimensions and every cell within
      `matrix_precision`; `operator!=` is its negation. */
  predicate Equal(a: Matrix, b: Matrix) {
    SameShape(a, b) &&
    forall i: nat, j: nat :: i < a.rows && j < a.cols ==>
      Scalar.AreClose(Entry(a, i, j), Entry(b, i, j), MatrixPrecision)
  }

  /** Two matrices compare equal exactly when they have the same shape and
      their difference is below the tolerance in every cell. */
  lemma EqualIffDifferenceSmall(a: Matrix, b: Matrix)
    requires Valid(a) && Valid(b)
    ensures Equal(a, b) <==> (Sub(a, b).Success? &&
      forall i: nat, j: nat :: i < a.rows && j < a.cols ==>
        Scalar.Abs(Entry(Sub(a, b).value, i, j)) < MatrixPrecision)
  {
  }

  /** The comparison is reflexive and symmetric, but not transitive: the
      tolerance lets a chain of close matrices drift apart. */
  lemma EqualReflexiveSymmetric(a: Matrix, b: Matrix)
    ensures Equal(a, a)
    ensures Equal(a, b) ==> Equal(b, a)
  {
  }

  lemma EqualNotTransitive()
    ensures var a, b, c := Matrix(1, 1, [[0.0]]), Matrix(1, 1, [[0.0000000006]]), Matrix(1, 1, [[0.0000000012]]);
      Equal(a, b) && Equal(b, c) && !Equal(a, c)
  {
    var a, b, c := Matrix(1, 1, [[0.0]]), Matrix(1, 1, [[0.0000000006]]), Matrix(1, 1, [[0.0000000012]]);
    assert Entry(a, 0, 0) == 0.0 && Entry(b, 0, 0) == 0.0000000006 && Entry(c, 0, 0) == 0.0000000012;
  }

  // ---------------------------------------------------------------------
  // Shape predicates

  /** `is_squared`. */
  predicate IsSquared(m: Matrix) {
    m.rows == m.cols
  }

  /** `is_symmetric`: square, and for every `j < i` the cells `(i, j)` and
      `(j, i)` are within `matrix_precision`. */
  predicate IsSymmetric(m: Matrix) {
    IsSquared(m) &&
    forall i: nat, j: nat :: j < i < m.rows ==>
      Scalar.AreClose(Entry(m, i, j), Entry(m, j, i), MatrixPrecision)
  }

  /** `is_skew_symmetric`: square, and for every `j <= i` the cell `(i, j)` is
      within `matrix_precision` of minus the cell `(j, i)`. */
  predicate IsSkewSymmetric(m: Matrix) {
    IsSquared(m) &&
    forall i: nat, j: nat :: j <= i < m.rows ==>
      Scalar.AreClose(Entry(m, i, j), -Entry(m, j, i), MatrixPrecision)
  }

  /** Checking the lower triangle suffices: `is_symmetric` holds exactly when
      every pair of mirrored cells is close. */
  lemma IsSymmetricAllPairs(m: Matrix)
    ensures IsSymmetric(m) <==> (IsSquared(m) &&
      forall i: nat, j: nat :: i < m.rows && j < m.rows ==>
        Scalar.AreClose(Entry(m, i, j), Entry(m, j, i), MatrixPrecision))
  {
    if IsSymmetric(m) {
      forall i: nat, j: nat | i < m.rows && j < m.rows
        ensures Scalar.AreClose(Entry(m, i, j), Entry(m, j, i), MatrixPrecision)
      {
        if i < j {
          assert Scalar.AreClose(Entry(m, j, i), Entry(m, i, j), MatrixPrecision);
        }
      }
    }
  }

  /** `is_skew_symmetric` holds exactly when every pair of mirrored cells is
      close to opposite, and it forces every diagonal cell below half the
      tolerance in absolute value. */
  lemma IsSkewSymmetricAllPairs(m: Matrix)
    ensures IsSkewSymmetric(m) <==> (IsSquared(m) &&
      forall i: nat, j: nat :: i < m.rows && j < m.rows ==>
        Scalar.AreClose(Entry(m, i, j), -Entry(m, j, i), MatrixPrecision))
    ensures IsSkewSymmetric(m) ==>
      forall i: nat :: i < m.rows ==> Scalar.Abs(Entry(m, i, i)) < MatrixPrecision / 2.0
  {
    if IsSkewSymmetric(m) {
      forall i: nat, j: nat | i < m.rows && j < m.rows
        ensures Scalar.AreClose(Entry(m, i, j), -Entry(m, j, i), MatrixPrecision)
      {
        if i < j {
          assert Scalar.AreClose(Entry(m, j, i), -Entry(m, i, j), MatrixPrecision);
        }
      }
      forall i: nat | i < m.rows
        ensures Scalar.Abs(Entry(m, i, i)) < MatrixPrecision / 2.0
      {
        assert Scalar.AreClose(Entry(m, i, i), -Entry(m, i, i), MatrixPrecision);
      }
    }
  }

  // ---------------------------------------------------------------------
  // Trace, transpose, symmetric and skew-symmetric parts

  /** The sum of the first `n` diagonal cells, left to right. */
  function DiagonalSum(m: Matrix, n: nat): real {
    if n == 0 then 0.0 else DiagonalSum(m, n - 1) + Entry(m, n - 1, n - 1)
  }

  /** `trace`: `NotSquare` for a non-square matrix, else the diagonal sum. */
  function Trace(m: Matrix): (r: Result<real, MatrixError>)
    ensures r.Failure? <==> !IsSquared(m)
    ensures r.Failure? ==> r.error == NotSquare
  {
    if !IsSquared(m) then Failure(NotSquare) else Success(DiagonalSum(m, m.rows))
  }

  lemma {:induction false} DiagonalSumAdd(a: Matrix, b: Matrix, s: Matrix, n: nat)
    requires n <= a.rows && n <= a.cols
    requires forall i: nat :: i < n ==> Entry(s, i, i) == Entry(a, i, i) + Entry(b, i, i)
    ensures DiagonalSum(s, n) == DiagonalSum(a, n) + DiagonalSum(b, n)
  {
    if n != 0 {
      DiagonalSumAdd(a, b, s, n - 1);
    }
  }

  /** The trace is additive. */
  lemma TraceAdd(a: Matrix, b: Matrix)
    requires Valid(a) && Valid(b) && SameShape(a, b) && IsSquared(a)
    ensures Add(a, b).Success? && Trace(Add(a, b).value).Success?
    ensures Trace(Add(a, b).value).value == Trace(a).value + Trace(b).value
  {
    DiagonalSumAdd(a, b, Add(a, b).value, a.rows);
  }

  /** `transpose`: a `cols x rows` matrix with cell `(i, j)` taken from `(j, i)`. */
  function Transpose(m: Matrix): (r: Matrix)
    ensures Valid(r) && r.rows == m.cols && r.cols == m.rows
    ensures forall i: nat, j: nat :: i < m.rows && j < m.cols ==> Entry(r, j, i) == Entry(m, i, j)
  {
    Build(m.cols, m.rows, (i: nat, j: nat) => Entry(m, j, i))
  }

  /** Transposing twice gives back the matrix. */
  lemma TransposeInvolution(m: Matrix)
    requires Valid(m)
    ensures Transpose(Transpose(m)) == m
  {
    Extensionality(Transpose(Transpose(m)), m);
  }

  /** A square matrix is exactly symmetric when it equals its transpose. */
  lemma TransposeFixedIsSymmetric(m: Matrix)
    requires Valid(m) && IsSquared(m) && Transpose(m) == m
    ensures IsSymmetric(m)
  {
    forall i: nat, j: nat | j < i < m.rows
      ensures Entry(m, i, j) == Entry(m, j, i)
    {
      assert Entry(Transpose(m), i, j) == Entry(m, j, i);
    }
  }

  /** `symmetric`: `NotSquare` for a non-square matrix, else `(A + A^T) / 2`. */
  function Symmetric(m: Matrix): (r: Result<Matrix, MatrixError>)
    ensures r.Failure? <==> !IsSquared(m)
    ensures r.Failure? ==> r.error == NotSquare
    ensures r.Success? ==> Valid(r.value) && SameShape(r.value, m)
  {
    if !IsSquared(m) then Failure(NotSquare)
    else Success(Build(m.rows, m.cols, (i: nat, j: nat) => (Entry(m, i, j) + Entry(m, j, i)) / 2.0))
  }

  /** `skew_symmetric`: `NotSquare` for a non-square matrix, else `(A - A^T) / 2`. */
  function SkewSymmetric(m: Matrix): (r: Result<Matrix, MatrixError>)
    ensures r.Failure? <==> !IsSquared(m)
    ensures r.Failure? ==> r.error == NotSquare
    ensures r.Success? ==> Valid(r.value) && SameShape(r.value, m)
  {
    if !IsSquared(m) then Failure(NotSquare)
    else Success(Build(m.rows, m.cols, (i: nat, j: nat) => (Entry(m, i, j) - Entry(m, j, i)) / 2.0))
  }

  /** The symmetric part is symmetric, the skew-symmetric part is
      skew-symmetric, and together they add up to the matrix. */
  lemma SymmetricSkewDecomposition(m: Matrix)
    requires Valid(m) && IsSquared(m)
    ensures IsSymmetric(Symmetric(m).value)
    ensures IsSkewSymmetric(SkewSymmetric(m).value)
    ensures Add(Symmetric(m).value, SkewSymmetric(m).value) == Success(m)
  {
    var s, k := Symmetric(m).value, SkewSymmetric(m).value;
    forall i: nat, j: nat | j < i < m.rows
      ensures Entry(s, i, j) == Entry(s, j, i)
    {
    }
    forall i: nat, j: nat | j <= i < m.rows
      ensures Entry(k, i, j) == -Entry(k, j, i)
    {
    }
    Extensionality(Add(s, k).value, m);
  }

  /** Transposition leaves the symmetric part alone and negates the
      skew-symmetric part. */
  lemma TransposeOfParts(m: Matrix)
    requires Valid(m) && IsSquared(m)
    ensures Transpose(Symmetric(m).value) == Symmetric(m).value
    ensures Transpose(SkewSymmetric(m).value) == Scale(SkewSymmetric(m).value, -1.0)
  {
    var s, k := Symmetric(m).value, SkewSymmetric(m).value;
    Extensionality(Transpose(s), s);
    Extensionality(Transpose(k), Scale(k, -1.0));
  }

  // ---------------------------------------------------------------------
  // The demonstration matrix of src/matrix.cpp

  /** A = [[2, 3, -1], [4, 4, -3], [2, -3, 1]]. */
  function DemoMatrix(): (r: Matrix)
    ensures Valid(r) && r.rows == 3 && r.cols == 3
  {
    Matrix(3, 3, [[2.0, 3.0, -1.0], [4.0, 4.0, -3.0], [2.0, -3.0, 1.0]])
  }

  /** The demonstration's trace is 7 and its first column is `A * e_0`. */
  lemma DemoTrace()
    ensures Trace(DemoMatrix()) == Success(7.0)
    ensures MulVec(DemoMatrix(), [1.0, 0.0, 0.0]) == Success([2.0, 4.0, 2.0])
  {
    var a := DemoMatrix();
    assert Entry(a, 0, 0) == 2.0;
    assert Entry(a, 1, 1) == 4.0;
    assert Entry(a, 2, 2) == 1.0;
    var v: Vectors.Vector := [1.0, 0.0, 0.0];
    var r := MulVec(a, v).value;
    forall i | 0 <= i < 3
      ensures r[i] == Entry(a, i, 0)
    {
      RowSumUnit(a, v, i, 0, 3);
    }
    assert Entry(a, 1, 0) == 4.0;
    assert Entry(a, 2, 0) == 2.0;
    assert r == [2.0, 4.0, 2.0];
  }
}
