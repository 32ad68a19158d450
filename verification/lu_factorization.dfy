/** Why `inverse` of lib/matrix.hpp is right: the LU loop factors the matrix
    into a unit lower triangular `L` and an upper triangular `U` stored in
    one matrix, the forward substitution solves `L y = e_c`, the back
    substitution solves `U x = y`, and so the matrix of the columns `x`
    is a right inverse. */
module LUFactorization {
  import opened Wrappers
  import opened Matrices
  import opened Elimination

  function Min(a: nat, b: nat): nat {
    if a < b then a else b
  }

  // ---------------------------------------------------------------------
  // The LU loop factors the matrix

  /** How many terms of `(L U)(i, j)` are final after `k` steps. */
  function Reached(k: nat, i: nat, j: nat): nat {
    Min(k, Min(i, j + 1))
  }

  /** Cell `(i, j)` holds a multiplier of `L` after `k` steps. */
  predicate IsMultiplier(k: nat, i: nat, j: nat) {
    j < i && j < k
  }

  /** After `k` steps, cell `(i, j)` of the original matrix is the final
      part of `(L U)(i, j)` plus, unless the cell now holds a multiplier,
      the cell still being eliminated. */
  function Partial(a: Matrix, i: nat, j: nat, k: nat): real {
    ProductSum(a, a, i, j, Reached(k, i, j)) + (if IsMultiplier(k, i, j) then 0.0 else Entry(a, i, j))
  }

  predicate Factors(m: Matrix, a: Matrix, k: nat) {
    forall i: nat, j: nat :: i < m.rows && j < m.cols ==> Entry(m, i, j) == Partial(a, i, j, k)
  }

  lemma {:induction false} ProductSumAgree(a: Matrix, b: Matrix, a2: Matrix, b2: Matrix, i: nat, j: nat, q: nat)
    requires forall t: nat :: t < q ==> Entry(a, i, t) == Entry(a2, i, t) && Entry(b, t, j) == Entry(b2, t, j)
    ensures ProductSum(a, b, i, j, q) == ProductSum(a2, b2, i, j, q)
  {
    if q != 0 {
      ProductSumAgree(a, b, a2, b2, i, j, q - 1);
    }
  }

  lemma DivMulCancel(x: real, p: real)
    requires p != 0.0
    ensures x / p * p == x
  {
  }

  /** One LU step keeps every cell of the original matrix accounted for. */
  lemma LUStepCell(a: Matrix, k: nat, i: nat, j: nat)
    requires Valid(a) && IsSquared(a) && k + 1 < a.rows && Entry(a, k, k) != 0.0
    requires i < a.rows && j < a.cols
    ensures Partial(LUStep(a, k), i, j, k + 1) == Partial(a, i, j, k)
  {
    var b := LUStep(a, k);
    var q := Reached(k, i, j);
    ProductSumAgree(b, b, a, a, i, j, q);
    if i > k && j == k {
      DivMulCancel(Entry(a, i, k), Entry(a, k, k));
      assert Reached(k + 1, i, j) == k + 1;
    } else if i > k && j > k {
      assert Reached(k + 1, i, j) == k + 1;
    }
  }

  lemma LUStepFactors(m: Matrix, a: Matrix, k: nat)
    requires Valid(a) && IsSquared(a) && SameShape(a, m) && k + 1 < a.rows && Entry(a, k, k) != 0.0
    requires Factors(m, a, k)
    ensures Factors(m, LUStep(a, k), k + 1)
  {
    forall i: nat, j: nat | i < m.rows && j < m.cols
      ensures Entry(m, i, j) == Partial(LUStep(a, k), i, j, k + 1)
    {
      LUStepCell(a, k, i, j);
    }
  }

  /** The step at which the LU loop started from `k` stops. */
  function LastStep(n: nat, k: nat): nat {
    if k + 1 >= n then k else n - 1
  }

  lemma {:induction false} LULoopFactors(m: Matrix, a: Matrix, k: nat, lu: Matrix)
    requires Valid(a) && IsSquared(a) && SameShape(a, m) && Factors(m, a, k)
    requires LULoop(a, k) == Some(lu)
    ensures Factors(m, lu, LastStep(a.rows, k))
    decreases a.rows - k
  {
    if k + 1 < a.rows {
      assert LULoop(LUStep(a, k), k + 1) == Some(lu);
      LUStepFactors(m, a, k);
      LULoopFactors(m, LUStep(a, k), k + 1, lu);
      assert LastStep(a.rows, k) == LastStep(a.rows, k + 1);
    } else {
      assert lu == a && LastStep(a.rows, k) == k;
    }
  }

  /** The unit lower triangular factor stored below the diagonal. */
  function Lower(lu: Matrix): (r: Matrix)
    ensures Valid(r) && r.rows == lu.rows && r.cols == lu.rows
  {
    Build(lu.rows, lu.rows, (i: nat, t: nat) => if t < i then Entry(lu, i, t) else if t == i then 1.0 else 0.0)
  }

  /** The upper triangular factor stored on and above the diagonal. */
  function Upper(lu: Matrix): (r: Matrix)
    ensures Valid(r) && r.rows == lu.rows && r.cols == lu.rows
  {
    Build(lu.rows, lu.rows, (t: nat, j: nat) => if t <= j then Entry(lu, t, j) else 0.0)
  }

  lemma {:induction false} LowerUpperCell(lu: Matrix, i: nat, j: nat, q: nat)
    requires i < lu.rows && j < lu.rows && q <= lu.rows
    ensures ProductSum(Lower(lu), Upper(lu), i, j, q) ==
      ProductSum(lu, lu, i, j, Min(q, Min(i, j + 1))) + (if i <= j && i < q then Entry(lu, i, j) else 0.0)
  {
    if q != 0 {
      LowerUpperCell(lu, i, j, q - 1);
    }
  }

  /** Before any step, every cell is still being eliminated. */
  lemma FactorsInitially(m: Matrix)
    ensures Factors(m, m, 0)
  {
    forall i: nat, j: nat | i < m.rows && j < m.cols
      ensures Entry(m, i, j) == Partial(m, i, j, 0)
    {
      assert Reached(0, i, j) == 0;
    }
  }

  /** After the last step, cell `(i, j)` is the whole of `(L U)(i, j)`. */
  lemma FactorsFinally(m: Matrix, lu: Matrix)
    requires Valid(m) && IsSquared(m) && LULoop(m, 0) == Some(lu)
    ensures forall i: nat, j: nat :: i < m.rows && j < m.rows ==>
      Entry(m, i, j) == ProductSum(lu, lu, i, j, Min(i, j + 1)) + (if i <= j then Entry(lu, i, j) else 0.0)
  {
    FactorsInitially(m);
    LULoopFactors(m, m, 0, lu);
    var k := LastStep(m.rows, 0);
    forall i: nat, j: nat | i < m.rows && j < m.rows
      ensures Entry(m, i, j) == ProductSum(lu, lu, i, j, Min(i, j + 1)) + (if i <= j then Entry(lu, i, j) else 0.0)
    {
      assert Entry(m, i, j) == Partial(lu, i, j, k);
      assert Reached(k, i, j) == Min(i, j + 1);
      assert IsMultiplier(k, i, j) == (j < i);
    }
  }

  /** The LU loop of `inverse` factors the matrix: `L U = A`. */
  lemma LUFactors(m: Matrix, lu: Matrix)
    requires Valid(m) && IsSquared(m) && LULoop(m, 0) == Some(lu)
    ensures Mul(Lower(lu), Upper(lu)) == Success(m)
  {
    FactorsFinally(m, lu);
    var p := Mul(Lower(lu), Upper(lu)).value;
    forall i: nat, j: nat | i < m.rows && j < m.cols
      ensures Entry(p, i, j) == Entry(m, i, j)
    {
      LowerUpperCell(lu, i, j, m.rows);
      assert Min(m.rows, Min(i, j + 1)) == Min(i, j + 1);
    }
    Extensionality(p, m);
  }

  // ---------------------------------------------------------------------
  // Forward substitution solves L y = b

  /** `sum_{t < q} lu(i, t) * y[t]`. */
  function RowPrefix(lu: Matrix, y: seq<real>, i: nat, q: nat): real
    requires q <= |y|
  {
    if q == 0 then 0.0 else RowPrefix(lu, y, i, q - 1) + Entry(lu, i, q - 1) * y[q - 1]
  }

  lemma {:induction false} RowPrefixAgree(lu: Matrix, y: seq<real>, z: seq<real>, i: nat, q: nat)
    requires q <= |y| && q <= |z|
    requires forall t :: 0 <= t < q ==> y[t] == z[t]
    ensures RowPrefix(lu, y, i, q) == RowPrefix(lu, z, i, q)
  {
    if q != 0 {
      RowPrefixAgree(lu, y, z, i, q - 1);
    }
  }

  lemma {:induction false} ForwardRowIsPrefix(lu: Matrix, y: seq<real>, i: nat, j: nat)
    requires i < |y| && j <= i
    ensures ForwardRow(lu, y, i, j) == y[i] - RowPrefix(lu, y, i, j)
  {
    if j != 0 {
      ForwardRowIsPrefix(lu, y, i, j - 1);
    }
  }

  /** From row `i` on, each row `t` of the result satisfies
      `r[t] + sum_{u < t} lu(t, u) r[u] = y[t]`; earlier rows are untouched. */
  lemma {:induction false} ForwardSolves(lu: Matrix, y: seq<real>, i: nat)
    requires i <= |y|
    ensures forall t :: 0 <= t < i ==> Forward(lu, y, i)[t] == y[t]
    ensures forall t: nat :: i <= t < |y| ==>
      y[t] == Forward(lu, y, i)[t] + RowPrefix(lu, Forward(lu, y, i), t, t)
    decreases |y| - i
  {
    if i < |y| {
      var v := ForwardRow(lu, y, i, i);
      var y2 := y[i := v];
      var r := Forward(lu, y2, i + 1);
      ForwardSolves(lu, y2, i + 1);
      assert Forward(lu, y, i) == r;
      ForwardRowIsPrefix(lu, y, i, i);
      RowPrefixAgree(lu, r, y, i, i);
    }
  }

  // ---------------------------------------------------------------------
  // Back substitution solves U x = y

  /** `sum_{i < t < q} lu(i, t) * x[t]`. */
  function RowSuffix(lu: Matrix, x: seq<real>, i: nat, q: nat): real
    requires i < q <= |x|
  {
    if q == i + 1 then 0.0 else RowSuffix(lu, x, i, q - 1) + Entry(lu, i, q - 1) * x[q - 1]
  }

  lemma {:induction false} RowSuffixAgree(lu: Matrix, x: seq<real>, z: seq<real>, i: nat, q: nat)
    requires i < q <= |x| && q <= |z|
    requires forall t :: i < t < q ==> x[t] == z[t]
    ensures RowSuffix(lu, x, i, q) == RowSuffix(lu, z, i, q)
  {
    if q != i + 1 {
      RowSuffixAgree(lu, x, z, i, q - 1);
    }
  }

  lemma {:induction false} BackRowIsSuffix(lu: Matrix, x: seq<real>, i: nat, j: nat)
    requires i < j <= |x|
    ensures BackRow(lu, x, i, j) == x[i] - RowSuffix(lu, x, i, j)
  {
    if j != i + 1 {
      BackRowIsSuffix(lu, x, i, j - 1);
    }
  }

  /** Dividing by the pivot and multiplying back gives the row's value. */
  lemma MulDivCancel(p: real, q: real, v: real, y: real, s: real)
    requires p != 0.0 && q == v / p && v == y - s
    ensures y == p * q + s
  {
  }

  /** Row `t` of `U r = x` holds: `lu(t, t) r[t] + sum_{t < u} lu(t, u) r[u] = x[t]`. */
  predicate RowSolved(lu: Matrix, x: seq<real>, r: seq<real>, t: nat)
    requires t < |x| == |r|
  {
    x[t] == Entry(lu, t, t) * r[t] + RowSuffix(lu, r, t, |x|)
  }

  /** The row the back substitution solves in one step satisfies its
      equation once the later rows keep their values. */
  lemma BackRowSolved(lu: Matrix, x: seq<real>, r: seq<real>, i: nat)
    requires i < |x| == |r| && Entry(lu, i, i) != 0.0
    requires r[i] == BackRow(lu, x, i, |x|) / Entry(lu, i, i)
    requires forall t :: i < t < |x| ==> r[t] == x[t]
    ensures RowSolved(lu, x, r, i)
  {
    BackRowIsSuffix(lu, x, i, |x|);
    RowSuffixAgree(lu, r, x, i, |x|);
    MulDivCancel(Entry(lu, i, i), r[i], BackRow(lu, x, i, |x|), x[i], RowSuffix(lu, r, i, |x|));
  }

  /** The back substitution below row `i` leaves rows `i` and after alone. */
  lemma {:induction false} BackKeeps(lu: Matrix, x: seq<real>, i: nat)
    requires i <= |x|
    requires forall t: nat :: t < |x| ==> Entry(lu, t, t) != 0.0
    ensures forall t :: i <= t < |x| ==> Back(lu, x, i)[t] == x[t]
    decreases i
  {
    if i > 0 {
      var x2 := x[i - 1 := BackRow(lu, x, i - 1, |x|) / Entry(lu, i - 1, i - 1)];
      assert Back(lu, x, i) == Back(lu, x2, i - 1);
      BackKeeps(lu, x2, i - 1);
    }
  }

  /** Below row `i`, every row of the back substitution's result solves its
      equation. */
  lemma {:induction false} BackSolves(lu: Matrix, x: seq<real>, i: nat)
    requires i <= |x|
    requires forall t: nat :: t < |x| ==> Entry(lu, t, t) != 0.0
    ensures forall t: nat :: t < i ==> RowSolved(lu, x, Back(lu, x, i), t)
    decreases i
  {
    if i > 0 {
      var x2 := x[i - 1 := BackRow(lu, x, i - 1, |x|) / Entry(lu, i - 1, i - 1)];
      var r := Back(lu, x2, i - 1);
      assert Back(lu, x, i) == r;
      BackKeeps(lu, x2, i - 1);
      BackRowSolved(lu, x, r, i - 1);
      BackSolves(lu, x2, i - 1);
      forall t: nat | t < i - 1
        ensures RowSolved(lu, x, r, t)
      {
        assert RowSolved(lu, x2, r, t);
        assert x2[t] == x[t];
      }
    }
  }

  // ---------------------------------------------------------------------
  // Putting the pieces together

  /** The forward-substituted unit vectors, one per column. */
  function ForwardColumns(lu: Matrix): (r: Matrix)
    ensures Valid(r) && r.rows == lu.rows && r.cols == lu.rows
  {
    Build(lu.rows, lu.rows, (t: nat, c: nat) =>
      var y := Forward(lu, Unit(lu.rows, c), 0); if t < |y| then y[t] else 0.0)
  }

  lemma {:induction false} LowerTimesForwardCell(lu: Matrix, i: nat, c: nat, q: nat)
    requires i < lu.rows && c < lu.rows && q <= lu.rows
    ensures ProductSum(Lower(lu), ForwardColumns(lu), i, c, q) ==
      RowPrefix(lu, Forward(lu, Unit(lu.rows, c), 0), i, Min(q, i)) +
      (if i < q then Forward(lu, Unit(lu.rows, c), 0)[i] else 0.0)
  {
    if q != 0 {
      LowerTimesForwardCell(lu, i, c, q - 1);
    }
  }

  /** `L Y = I`: the forward substitution inverts the lower factor. */
  lemma LowerTimesForward(lu: Matrix)
    ensures Mul(Lower(lu), ForwardColumns(lu)) == Success(Identity(lu.rows))
  {
    var n := lu.rows;
    var p := Mul(Lower(lu), ForwardColumns(lu)).value;
    forall i: nat, c: nat | i < n && c < n
      ensures Entry(p, i, c) == Entry(Identity(n), i, c)
    {
      LowerTimesForwardCell(lu, i, c, n);
      ForwardSolves(lu, Unit(n, c), 0);
    }
    Extensionality(p, Identity(n));
  }

  lemma {:induction false} UpperTimesInverseCell(lu: Matrix, x: Matrix, t: nat, c: nat, q: nat)
    requires t < lu.rows && c < lu.rows && q <= lu.rows
    requires forall u: nat :: u < lu.rows ==> Entry(lu, u, u) != 0.0
    requires forall j: nat :: j < lu.rows ==> Entry(x, j, c) == SolveColumn(lu, c)[j]
    ensures ProductSum(Upper(lu), x, t, c, q) ==
      if q <= t then 0.0
      else Entry(lu, t, t) * SolveColumn(lu, c)[t] + RowSuffix(lu, SolveColumn(lu, c), t, q)
  {
    if q != 0 {
      UpperTimesInverseCell(lu, x, t, c, q - 1);
    }
  }

  /** `U X = Y`: the back substitution inverts the upper factor on the
      forward-substituted columns. */
  lemma UpperTimesSolution(lu: Matrix, x: Matrix)
    requires forall u: nat :: u < lu.rows ==> Entry(lu, u, u) != 0.0
    requires Valid(x) && x.rows == lu.rows && x.cols == lu.rows
    requires forall j: nat, c: nat :: j < lu.rows && c < lu.rows ==> Entry(x, j, c) == SolveColumn(lu, c)[j]
    ensures Mul(Upper(lu), x) == Success(ForwardColumns(lu))
  {
    var n := lu.rows;
    var p := Mul(Upper(lu), x).value;
    forall t: nat, c: nat | t < n && c < n
      ensures Entry(p, t, c) == Entry(ForwardColumns(lu), t, c)
    {
      UpperTimesInverseCell(lu, x, t, c, n);
      BackSolves(lu, Forward(lu, Unit(n, c), 0), n);
      assert RowSolved(lu, Forward(lu, Unit(n, c), 0), SolveColumn(lu, c), t);
    }
    Extensionality(p, ForwardColumns(lu));
  }

  /** Whenever `inverse` returns a matrix, multiplying the input by it gives
      the identity. */
  lemma InverseIsRightInverse(m: Matrix)
    requires Valid(m) && Inverse(m).Success? && Inverse(m).value.Some?
    ensures Mul(m, Inverse(m).value.value) == Success(Identity(m.rows))
  {
    var lu := LULoop(m, 0).value;
    var x := Inverse(m).value.value;
    var n := m.rows;
    forall u: nat | u < n
      ensures Entry(lu, u, u) != 0.0
    {
      if u + 1 < n {
        assert Entry(lu, u, u) != 0.0;
      }
    }
    forall j: nat, c: nat | j < n && c < n
      ensures Entry(x, j, c) == SolveColumn(lu, c)[j]
    {
    }
    LUFactors(m, lu);
    UpperTimesSolution(lu, x);
    LowerTimesForward(lu);
    MulAssociative(Lower(lu), Upper(lu), x);
  }
}
