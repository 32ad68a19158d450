/** `determinant` and `inverse` of lib/matrix.hpp: Gaussian elimination and
    LU decomposition without pivoting, followed for the inverse by a forward
    and a back substitution per column.

    Neither routine tests its pivots.  In IEEE arithmetic a zero pivot turns
    a multiplier into an infinity or a NaN that then reaches the result (for
    the determinant through the last diagonal cell, for the inverse through
    the last row of the column whose pivot vanished), so such inputs yield a
    non-finite answer; here that answer is `None`. */
module Elimination {
  import opened Wrappers
  import opened Matrices

  // ---------------------------------------------------------------------
  // determinant

  /** Step `k` of the forward elimination of `determinant`: every cell
      `(i, j)` with `i, j > k` loses `(a(i, k) / a(k, k)) * a(k, j)`; the
      column below the pivot is left as it is. */
  function EliminateStep(m: Matrix, k: nat): Matrix
    requires Valid(m) && Entry(m, k, k) != 0.0
  {
    Build(m.rows, m.cols, (i: nat, j: nat) =>
      if i > k && j > k then Entry(m, i, j) - Entry(m, i, k) / Entry(m, k, k) * Entry(m, k, j)
      else Entry(m, i, j))
  }

  /** The product of the first `n` diagonal cells, left to right. */
  function DiagonalProduct(m: Matrix, n: nat): real {
    if n == 0 then 1.0 else DiagonalProduct(m, n - 1) * Entry(m, n - 1, n - 1)
  }

  /** The elimination loop from step `k` on, then the diagonal product;
      `None` when a pivot before the last row is zero. */
  function DeterminantLoop(m: Matrix, k: nat): Option<real>
    requires Valid(m) && IsSquared(m)
    decreases m.rows - k
  {
    if k + 1 >= m.rows then Some(DiagonalProduct(m, m.rows))
    else if Entry(m, k, k) == 0.0 then None
    else DeterminantLoop(EliminateStep(m, k), k + 1)
  }

  /** `determinant`: `NotSquare` for a non-square matrix; otherwise the
      elimination result, `None` standing for the non-finite value a zero
      pivot produces. */
  function Determinant(m: Matrix): (r: Result<Option<real>, MatrixError>)
    requires Valid(m)
    ensures r.Failure? <==> !IsSquared(m)
    ensures r.Failure? ==> r.error == NotSquare
    ensures r.Success? && m.rows <= 1 ==> r.value.Some?
  {
    if !IsSquared(m) then Failure(NotSquare) else Success(DeterminantLoop(m, 0))
  }

  /** The empty matrix has determinant one, a `1 x 1` matrix its only cell. */
  lemma DeterminantSmall(x: real)
    ensures Determinant(Matrix(0, 0, [])) == Success(Some(1.0))
    ensures Determinant(Matrix(1, 1, [[x]])) == Success(Some(x))
  {
    var m := Matrix(1, 1, [[x]]);
    assert Entry(m, 0, 0) == x;
    assert DiagonalProduct(m, 1) == DiagonalProduct(m, 0) * x;
    assert DeterminantLoop(m, 0) == Some(x);
  }

  /** For a `2 x 2` matrix with a non-zero leading cell the elimination gives
      the cofactor formula `a * d - b * c`. */
  lemma DeterminantTwoByTwo(a: real, b: real, c: real, d: real)
    requires a != 0.0
    ensures Determinant(Matrix(2, 2, [[a, b], [c, d]])) == Success(Some(a * d - b * c))
  {
    var m := Matrix(2, 2, [[a, b], [c, d]]);
    var e := EliminateTwoByTwo(a, b, c, d);
    assert DeterminantLoop(m, 0) == DeterminantLoop(e, 1);
    var p := DiagonalProduct(e, 2);
    assert DiagonalProduct(e, 1) == 1.0 * a;
    assert p == 1.0 * a * (d - c / a * b);
    CofactorTwoByTwo(a, b, c, d, p);
  }

  lemma EliminateTwoByTwo(a: real, b: real, c: real, d: real) returns (e: Matrix)
    requires a != 0.0
    ensures Entry(Matrix(2, 2, [[a, b], [c, d]]), 0, 0) == a
    ensures e == EliminateStep(Matrix(2, 2, [[a, b], [c, d]]), 0)
    ensures Valid(e) && e.rows == 2 && e.cols == 2
    ensures Entry(e, 0, 0) == a && Entry(e, 1, 1) == d - c / a * b
  {
    var m := Matrix(2, 2, [[a, b], [c, d]]);
    assert Entry(m, 0, 0) == a && Entry(m, 0, 1) == b;
    assert Entry(m, 1, 0) == c && Entry(m, 1, 1) == d;
    e := EliminateStep(m, 0);
  }

  lemma CofactorTwoByTwo(a: real, b: real, c: real, d: real, p: real)
    requires a != 0.0 && p == 1.0 * a * (d - c / a * b)
    ensures p == a * d - b * c
  {
    assert a * (c / a) == c;
  }

  /** Without pivoting a zero leading cell gives no determinant, even for
      the invertible exchange matrix whose determinant is `-1`. */
  lemma DeterminantNeedsNonZeroPivots()
    ensures Determinant(Matrix(2, 2, [[0.0, 1.0], [1.0, 0.0]])) == Success(None)
  {
    assert Entry(Matrix(2, 2, [[0.0, 1.0], [1.0, 0.0]]), 0, 0) == 0.0;
  }

  /** A matrix whose column below the pivot is already zero is left alone
      by the elimination step. */
  lemma EliminateStepKeepsCleared(m: Matrix, k: nat)
    requires Valid(m) && Entry(m, k, k) != 0.0
    requires forall i: nat :: k < i < m.rows ==> Entry(m, i, k) == 0.0
    ensures EliminateStep(m, k) == m
  {
    Extensionality(EliminateStep(m, k), m);
  }

  /** Upper triangular: every cell below the diagonal is zero. */
  predicate UpperTriangular(m: Matrix) {
    forall i: nat, j: nat :: j < i < m.rows ==> Entry(m, i, j) == 0.0
  }

  lemma {:induction false} DeterminantLoopUpperTriangular(m: Matrix, k: nat)
    requires Valid(m) && IsSquared(m) && UpperTriangular(m)
    requires forall t: nat :: k <= t && t + 1 < m.rows ==> Entry(m, t, t) != 0.0
    ensures DeterminantLoop(m, k) == Some(DiagonalProduct(m, m.rows))
    decreases m.rows - k
  {
    if k + 1 < m.rows {
      EliminateStepKeepsCleared(m, k);
      DeterminantLoopUpperTriangular(m, k + 1);
    }
  }

  /** An upper triangular matrix with non-zero pivots has the product of
      its diagonal as determinant. */
  lemma DeterminantUpperTriangular(m: Matrix)
    requires Valid(m) && IsSquared(m) && UpperTriangular(m)
    requires forall t: nat :: t + 1 < m.rows ==> Entry(m, t, t) != 0.0
    ensures Determinant(m) == Success(Some(DiagonalProduct(m, m.rows)))
  {
    DeterminantLoopUpperTriangular(m, 0);
  }

  lemma {:induction false} DiagonalProductOfIdentity(n: nat, k: nat)
    requires k <= n
    ensures DiagonalProduct(Identity(n), k) == 1.0
  {
    if k != 0 {
      DiagonalProductOfIdentity(n, k - 1);
      assert Entry(Identity(n), k - 1, k - 1) == 1.0;
    }
  }

  /** The identity has determinant one. */
  lemma DeterminantOfIdentity(n: nat)
    ensures Determinant(Identity(n)) == Success(Some(1.0))
  {
    DiagonalProductOfIdentity(n, n);
    DeterminantUpperTriangular(Identity(n));
  }

  // ---------------------------------------------------------------------
  // inverse

  /** Step `k` of the LU decomposition of `inverse`: the column below the
      pivot is divided by it (the multipliers of `L`), and every cell
      `(i, j)` with `i, j > k` loses multiplier times `a(k, j)`. */
  function LUStep(m: Matrix, k: nat): Matrix
    requires Valid(m) && Entry(m, k, k) != 0.0
  {
    Build(m.rows, m.cols, (i: nat, j: nat) =>
      if i > k && j == k then Entry(m, i, k) / Entry(m, k, k)
      else if i > k && j > k then Entry(m, i, j) - Entry(m, i, k) / Entry(m, k, k) * Entry(m, k, j)
      else Entry(m, i, j))
  }

  /** The LU loop from step `k` on: `None` when a pivot before the last row
      is zero.  Rows up to `k` are final, and every pivot from `k` to the
      second-to-last row of the result is non-zero. */
  function LULoop(m: Matrix, k: nat): (r: Option<Matrix>)
    requires Valid(m) && IsSquared(m)
    ensures r.Some? ==> Valid(r.value) && SameShape(r.value, m)
    ensures r.Some? ==> forall i: nat, j: nat :: i <= k && i < m.rows && j < m.cols ==>
      Entry(r.value, i, j) == Entry(m, i, j)
    ensures r.Some? ==> forall t: nat :: k <= t && t + 1 < m.rows ==> Entry(r.value, t, t) != 0.0
    decreases m.rows - k
  {
    if k + 1 >= m.rows then Some(m)
    else if Entry(m, k, k) == 0.0 then None
    else LULoop(LUStep(m, k), k + 1)
  }

  /** The LU step and the elimination step agree everywhere except in the
      column below the pivot, where the LU step stores the multipliers. */
  lemma LUStepAgreesWithElimination(m: Matrix, k: nat)
    requires Valid(m) && Entry(m, k, k) != 0.0
    ensures forall i: nat, j: nat :: i < m.rows && j < m.cols && !(i > k && j == k) ==>
      Entry(LUStep(m, k), i, j) == Entry(EliminateStep(m, k), i, j)
    ensures forall i: nat :: k < i < m.rows && k < m.cols ==>
      Entry(LUStep(m, k), i, k) * Entry(m, k, k) == Entry(m, i, k)
  {
  }

  /** `sum`, left to right, of the first `j` terms `L(i, t) * y[t]`
      subtracted from `y[i]`: the inner loop of the forward substitution. */
  function ForwardRow(lu: Matrix, y: seq<real>, i: nat, j: nat): real
    requires i < |y| && j <= i
  {
    if j == 0 then y[i] else ForwardRow(lu, y, i, j - 1) - Entry(lu, i, j - 1) * y[j - 1]
  }

  /** The forward substitution from row `i` on, updating `y` in place. */
  function Forward(lu: Matrix, y: seq<real>, i: nat): (r: seq<real>)
    requires i <= |y|
    ensures |r| == |y|
    decreases |y| - i
  {
    if i == |y| then y else Forward(lu, y[i := ForwardRow(lu, y, i, i)], i + 1)
  }

  /** `x[i]` minus, left to right, the terms `U(i, t) * x[t]` for `i < t < j`:
      the inner loop of the back substitution. */
  function BackRow(lu: Matrix, x: seq<real>, i: nat, j: nat): real
    requires i < j <= |x|
  {
    if j == i + 1 then x[i] else BackRow(lu, x, i, j - 1) - Entry(lu, i, j - 1) * x[j - 1]
  }

  /** The back substitution over rows `i - 1` down to `0`, updating `x` in
      place and dividing each row by its diagonal cell. */
  function Back(lu: Matrix, x: seq<real>, i: nat): (r: seq<real>)
    requires i <= |x|
    requires forall t: nat :: t < |x| ==> Entry(lu, t, t) != 0.0
    ensures |r| == |x|
    decreases i
  {
    if i == 0 then x
    else Back(lu, x[i - 1 := BackRow(lu, x, i - 1, |x|) / Entry(lu, i - 1, i - 1)], i - 1)
  }

  /** The unit vector `e_c` of length `n`. */
  function Unit(n: nat, c: nat): (r: seq<real>)
    ensures |r| == n
  {
    seq(n, (j: nat) => if j == c then 1.0 else 0.0)
  }

  /** Column `c` of the inverse: `e_c` through both substitutions. */
  function SolveColumn(lu: Matrix, c: nat): (r: seq<real>)
    requires forall t: nat :: t < lu.rows ==> Entry(lu, t, t) != 0.0
    ensures |r| == lu.rows
  {
    Back(lu, Forward(lu, Unit(lu.rows, c), 0), lu.rows)
  }

  /** `inverse`: `NotSquare` for a non-square matrix; `None` when a pivot
      (the last one included, which the back substitution divides by) is
      zero; otherwise the matrix whose column `c` solves for `e_c`. */
  function Inverse(m: Matrix): (r: Result<Option<Matrix>, MatrixError>)
    requires Valid(m)
    ensures r.Failure? <==> !IsSquared(m)
    ensures r.Failure? ==> r.error == NotSquare
    ensures r.Success? && r.value.Some? ==> Valid(r.value.value) && SameShape(r.value.value, m)
  {
    if !IsSquared(m) then Failure(NotSquare)
    else match LULoop(m, 0)
      case None => Success(None)
      case Some(lu) =>
        if lu.rows > 0 && Entry(lu, lu.rows - 1, lu.rows - 1) == 0.0 then Success(None)
        else Success(Some(Build(m.rows, m.cols, (j: nat, c: nat) =>
          var x := SolveColumn(lu, c); if j < |x| then x[j] else 0.0)))
  }

  /** The inverse of a `1 x 1` matrix is the reciprocal of its cell, and
      there is none for a zero cell. */
  lemma InverseOneByOne(x: real)
    ensures x != 0.0 ==> Inverse(Matrix(1, 1, [[x]])) == Success(Some(Matrix(1, 1, [[1.0 / x]])))
    ensures x == 0.0 ==> Inverse(Matrix(1, 1, [[x]])) == Success(None)
  {
    var m := Matrix(1, 1, [[x]]);
    assert Entry(m, 0, 0) == x;
    if x != 0.0 {
      var inv := Inverse(m).value.value;
      var col := SolveColumn(m, 0);
      assert Unit(1, 0) == [1.0];
      assert ForwardRow(m, [1.0], 0, 0) == 1.0;
      assert Forward(m, [1.0], 1) == [1.0];
      assert Forward(m, Unit(1, 0), 0) == [1.0];
      assert BackRow(m, [1.0], 0, 1) == 1.0;
      assert Back(m, [1.0 / x], 0) == [1.0 / x];
      assert col == [1.0 / x];
      Extensionality(inv, Matrix(1, 1, [[1.0 / x]]));
    }
  }

  // ---------------------------------------------------------------------
  // The demonstration of src/matrix.cpp

  /** The demonstration matrix has determinant `-20`. */
  lemma DemoDeterminant()
    ensures Determinant(DemoMatrix()) == Success(Some(-20.0))
  {
    var m := DemoMatrix();
    assert Entry(m, 0, 0) == 2.0 && Entry(m, 0, 1) == 3.0 && Entry(m, 0, 2) == -1.0;
    assert Entry(m, 1, 0) == 4.0 && Entry(m, 1, 1) == 4.0 && Entry(m, 1, 2) == -3.0;
    assert Entry(m, 2, 0) == 2.0 && Entry(m, 2, 1) == -3.0 && Entry(m, 2, 2) == 1.0;
    var e1 := EliminateStep(m, 0);
    assert Entry(e1, 0, 0) == 2.0;
    assert Entry(e1, 1, 1) == -2.0 && Entry(e1, 1, 2) == -1.0;
    assert Entry(e1, 2, 1) == -6.0 && Entry(e1, 2, 2) == 2.0;
    var e2 := EliminateStep(e1, 1);
    assert Entry(e2, 0, 0) == 2.0 && Entry(e2, 1, 1) == -2.0 && Entry(e2, 2, 2) == 5.0;
    assert DeterminantLoop(m, 0) == DeterminantLoop(e2, 2);
    assert DiagonalProduct(e2, 2) == -4.0;
  }

  /** The inverse the demonstration prints. */
  function DemoInverseMatrix(): (r: Matrix)
    ensures Valid(r) && r.rows == 3 && r.cols == 3
  {
    Matrix(3, 3, [[0.25, 0.0, 0.25], [0.5, -0.2, -0.1], [1.0, -0.6, 0.2]])
  }

  /** The LU factors of the demonstration matrix, stored in one matrix. */
  lemma DemoFactorization() returns (lu: Matrix)
    ensures lu == Matrix(3, 3, [[2.0, 3.0, -1.0], [2.0, -2.0, -1.0], [1.0, 3.0, 5.0]])
    ensures LULoop(DemoMatrix(), 0) == Some(lu)
  {
    lu := Matrix(3, 3, [[2.0, 3.0, -1.0], [2.0, -2.0, -1.0], [1.0, 3.0, 5.0]]);
    var m := DemoMatrix();
    assert Entry(m, 0, 0) == 2.0 && Entry(m, 0, 1) == 3.0 && Entry(m, 0, 2) == -1.0;
    assert Entry(m, 1, 0) == 4.0 && Entry(m, 1, 1) == 4.0 && Entry(m, 1, 2) == -3.0;
    assert Entry(m, 2, 0) == 2.0 && Entry(m, 2, 1) == -3.0 && Entry(m, 2, 2) == 1.0;
    var s1 := LUStep(m, 0);
    assert Entry(s1, 0, 0) == 2.0 && Entry(s1, 0, 1) == 3.0 && Entry(s1, 0, 2) == -1.0;
    assert Entry(s1, 1, 0) == 2.0 && Entry(s1, 1, 1) == -2.0 && Entry(s1, 1, 2) == -1.0;
    assert Entry(s1, 2, 0) == 1.0 && Entry(s1, 2, 1) == -6.0 && Entry(s1, 2, 2) == 2.0;
    var s2 := LUStep(s1, 1);
    assert Entry(s2, 0, 0) == 2.0 && Entry(s2, 0, 1) == 3.0 && Entry(s2, 0, 2) == -1.0;
    assert Entry(s2, 1, 0) == 2.0 && Entry(s2, 1, 1) == -2.0 && Entry(s2, 1, 2) == -1.0;
    assert Entry(s2, 2, 0) == 1.0 && Entry(s2, 2, 1) == 3.0 && Entry(s2, 2, 2) == 5.0;
    Extensionality(s2, lu);
    assert LULoop(m, 0) == LULoop(s2, 2);
  }

  /** Three forward-substitution rows, one call per row. */
  lemma ForwardSteps(lu: Matrix, y0: seq<real>, y1: seq<real>, y2: seq<real>, y3: seq<real>)
    requires |y0| == 3
    requires y1 == y0[0 := ForwardRow(lu, y0, 0, 0)]
    requires y2 == y1[1 := ForwardRow(lu, y1, 1, 1)]
    requires y3 == y2[2 := ForwardRow(lu, y2, 2, 2)]
    ensures Forward(lu, y0, 0) == y3
  {
    assert Forward(lu, y0, 0) == Forward(lu, y1, 1);
    assert Forward(lu, y1, 1) == Forward(lu, y2, 2);
  }

  /** Three back-substitution rows, last row first. */
  lemma BackSteps(lu: Matrix, x0: seq<real>, x1: seq<real>, x2: seq<real>, x3: seq<real>)
    requires |x0| == 3 && forall t: nat :: t < 3 ==> Entry(lu, t, t) != 0.0
    requires x1 == x0[2 := BackRow(lu, x0, 2, 3) / Entry(lu, 2, 2)]
    requires x2 == x1[1 := BackRow(lu, x1, 1, 3) / Entry(lu, 1, 1)]
    requires x3 == x2[0 := BackRow(lu, x2, 0, 3) / Entry(lu, 0, 0)]
    ensures Back(lu, x0, 3) == x3
  {
    assert Back(lu, x0, 3) == Back(lu, x1, 2);
    assert Back(lu, x1, 2) == Back(lu, x2, 1);
  }

  lemma DemoColumnZero(lu: Matrix)
    requires lu == Matrix(3, 3, [[2.0, 3.0, -1.0], [2.0, -2.0, -1.0], [1.0, 3.0, 5.0]])
    ensures forall t: nat :: t < lu.rows ==> Entry(lu, t, t) != 0.0
    ensures SolveColumn(lu, 0) == [0.25, 0.5, 1.0]
  {
    assert Entry(lu, 0, 0) == 2.0 && Entry(lu, 1, 1) == -2.0 && Entry(lu, 2, 2) == 5.0;
    assert Unit(3, 0) == [1.0, 0.0, 0.0];
    assert ForwardRow(lu, [1.0, 0.0, 0.0], 0, 0) == 1.0;
    assert [1.0, 0.0, 0.0][0 := 1.0] == [1.0, 0.0, 0.0];
    assert ForwardRow(lu, [1.0, 0.0, 0.0], 1, 1) == -2.0;
    assert [1.0, 0.0, 0.0][1 := -2.0] == [1.0, -2.0, 0.0];
    assert ForwardRow(lu, [1.0, -2.0, 0.0], 2, 2) == 5.0;
    assert [1.0, -2.0, 0.0][2 := 5.0] == [1.0, -2.0, 5.0];
    ForwardSteps(lu, [1.0, 0.0, 0.0], [1.0, 0.0, 0.0], [1.0, -2.0, 0.0], [1.0, -2.0, 5.0]);
    assert BackRow(lu, [1.0, -2.0, 5.0], 2, 3) == 5.0;
    assert [1.0, -2.0, 5.0][2 := 5.0 / 5.0] == [1.0, -2.0, 1.0];
    assert BackRow(lu, [1.0, -2.0, 1.0], 1, 3) == -1.0;
    assert [1.0, -2.0, 1.0][1 := -1.0 / -2.0] == [1.0, 0.5, 1.0];
    assert BackRow(lu, [1.0, 0.5, 1.0], 0, 3) == 0.5;
    assert [1.0, 0.5, 1.0][0 := 0.5 / 2.0] == [0.25, 0.5, 1.0];
    BackSteps(lu, [1.0, -2.0, 5.0], [1.0, -2.0, 1.0], [1.0, 0.5, 1.0], [0.25, 0.5, 1.0]);
  }

  lemma DemoColumnOne(lu: Matrix)
    requires lu == Matrix(3, 3, [[2.0, 3.0, -1.0], [2.0, -2.0, -1.0], [1.0, 3.0, 5.0]])
    ensures forall t: nat :: t < lu.rows ==> Entry(lu, t, t) != 0.0
    ensures SolveColumn(lu, 1) == [0.0, -0.2, -0.6]
  {
    assert Entry(lu, 0, 0) == 2.0 && Entry(lu, 1, 1) == -2.0 && Entry(lu, 2, 2) == 5.0;
    assert Unit(3, 1) == [0.0, 1.0, 0.0];
    assert ForwardRow(lu, [0.0, 1.0, 0.0], 0, 0) == 0.0;
    assert [0.0, 1.0, 0.0][0 := 0.0] == [0.0, 1.0, 0.0];
    assert ForwardRow(lu, [0.0, 1.0, 0.0], 1, 1) == 1.0;
    assert [0.0, 1.0, 0.0][1 := 1.0] == [0.0, 1.0, 0.0];
    assert ForwardRow(lu, [0.0, 1.0, 0.0], 2, 2) == -3.0;
    assert [0.0, 1.0, 0.0][2 := -3.0] == [0.0, 1.0, -3.0];
    ForwardSteps(lu, [0.0, 1.0, 0.0], [0.0, 1.0, 0.0], [0.0, 1.0, 0.0], [0.0, 1.0, -3.0]);
    assert BackRow(lu, [0.0, 1.0, -3.0], 2, 3) == -3.0;
    assert [0.0, 1.0, -3.0][2 := -3.0 / 5.0] == [0.0, 1.0, -0.6];
    assert BackRow(lu, [0.0, 1.0, -0.6], 1, 3) == 0.4;
    assert [0.0, 1.0, -0.6][1 := 0.4 / -2.0] == [0.0, -0.2, -0.6];
    assert BackRow(lu, [0.0, -0.2, -0.6], 0, 3) == 0.0;
    assert [0.0, -0.2, -0.6][0 := 0.0 / 2.0] == [0.0, -0.2, -0.6];
    BackSteps(lu, [0.0, 1.0, -3.0], [0.0, 1.0, -0.6], [0.0, -0.2, -0.6], [0.0, -0.2, -0.6]);
  }

  lemma DemoColumnTwo(lu: Matrix)
    requires lu == Matrix(3, 3, [[2.0, 3.0, -1.0], [2.0, -2.0, -1.0], [1.0, 3.0, 5.0]])
    ensures forall t: nat :: t < lu.rows ==> Entry(lu, t, t) != 0.0
    ensures SolveColumn(lu, 2) == [0.25, -0.1, 0.2]
  {
    assert Entry(lu, 0, 0) == 2.0 && Entry(lu, 1, 1) == -2.0 && Entry(lu, 2, 2) == 5.0;
    assert Unit(3, 2) == [0.0, 0.0, 1.0];
    assert ForwardRow(lu, [0.0, 0.0, 1.0], 0, 0) == 0.0;
    assert [0.0, 0.0, 1.0][0 := 0.0] == [0.0, 0.0, 1.0];
    assert ForwardRow(lu, [0.0, 0.0, 1.0], 1, 1) == 0.0;
    assert [0.0, 0.0, 1.0][1 := 0.0] == [0.0, 0.0, 1.0];
    assert ForwardRow(lu, [0.0, 0.0, 1.0], 2, 2) == 1.0;
    assert [0.0, 0.0, 1.0][2 := 1.0] == [0.0, 0.0, 1.0];
    ForwardSteps(lu, [0.0, 0.0, 1.0], [0.0, 0.0, 1.0], [0.0, 0.0, 1.0], [0.0, 0.0, 1.0]);
    assert BackRow(lu, [0.0, 0.0, 1.0], 2, 3) == 1.0;
    assert [0.0, 0.0, 1.0][2 := 1.0 / 5.0] == [0.0, 0.0, 0.2];
    assert BackRow(lu, [0.0, 0.0, 0.2], 1, 3) == 0.2;
    assert [0.0, 0.0, 0.2][1 := 0.2 / -2.0] == [0.0, -0.1, 0.2];
    assert BackRow(lu, [0.0, -0.1, 0.2], 0, 3) == 0.5;
    assert [0.0, -0.1, 0.2][0 := 0.5 / 2.0] == [0.25, -0.1, 0.2];
    BackSteps(lu, [0.0, 0.0, 1.0], [0.0, 0.0, 0.2], [0.0, -0.1, 0.2], [0.25, -0.1, 0.2]);
  }

  /** `inverse` of the demonstration matrix is the matrix it prints, and
      multiplying back gives the identity, as the demonstration checks. */
  lemma DemoInverse()
    ensures Inverse(DemoMatrix()) == Success(Some(DemoInverseMatrix()))
    ensures Mul(DemoMatrix(), DemoInverseMatrix()) == Success(Identity(3))
  {
    var lu := DemoFactorization();
    DemoColumnZero(lu);
    DemoColumnOne(lu);
    DemoColumnTwo(lu);
    var inv := Inverse(DemoMatrix()).value.value;
    var expected := DemoInverseMatrix();
    forall j: nat, c: nat | j < 3 && c < 3
      ensures Entry(inv, j, c) == Entry(expected, j, c)
    {
      assert Entry(inv, j, c) == SolveColumn(lu, c)[j];
    }
    Extensionality(inv, expected);
    DemoProduct();
  }

  lemma DemoProduct()
    ensures Mul(DemoMatrix(), DemoInverseMatrix()) == Success(Identity(3))
  {
    var a, b := DemoMatrix(), DemoInverseMatrix();
    var p := Mul(a, b).value;
    forall i: nat, j: nat | i < 3 && j < 3
      ensures Entry(p, i, j) == Entry(Identity(3), i, j)
    {
      assert Entry(p, i, j) == ProductSum(a, b, i, j, 3);
      assert ProductSum(a, b, i, j, 3) ==
        Entry(a, i, 0) * Entry(b, 0, j) + Entry(a, i, 1) * Entry(b, 1, j) + Entry(a, i, 2) * Entry(b, 2, j);
    }
    Extensionality(p, Identity(3));
  }
}
