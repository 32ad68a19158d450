/** The `Vector` class of lib/vector.hpp as a value: a sequence of reals.

    Every operation that throws `std::runtime_error` in the source returns a
    `Failure` naming the reason.  Allocation, `resize`, `random`, `norm` and
    the text formatting are not part of this model. */
module Vectors {
  import opened Wrappers
  import Scalar
  import Arith

  /** Tolerance of `operator==` and `is_orthogonal` (`vector_precision`). */
  const VectorPrecision: real := 0.00000001

  /** `size_t` arithmetic wraps modulo this value. */
  const SizeModulus: nat := 0x1_0000_0000_0000_0000

  type Vector = seq<real>

  datatype VectorError =
    | OutOfRange      // "Trying to access vector in invalid range!"
    | LengthMismatch  // "... involving vectors with incompatible lengths!"

  // ---------------------------------------------------------------------
  // Element access

  /** `operator[]` read: the element, or `OutOfRange` when `index >= len`. */
  function At(v: Vector, index: nat): (r: Result<real, VectorError>)
    ensures r.Failure? <==> index >= |v|
    ensures r.Failure? ==> r.error == OutOfRange
    ensures r.Success? ==> r.value == v[index]
  {
    if index >= |v| then Failure(OutOfRange) else Success(v[index])
  }

  /** `operator[]` used as an lvalue: the vector with one element replaced. */
  function Put(v: Vector, index: nat, x: real): (r: Result<Vector, VectorError>)
    ensures r.Failure? <==> index >= |v|
    ensures r.Success? ==> |r.value| == |v| && r.value[index] == x
    ensures r.Success? ==> forall j :: 0 <= j < |v| && j != index ==> r.value[j] == v[j]
  {
    if index >= |v| then Failure(OutOfRange) else Success(v[index := x])
  }

  /** Writing then reading the same index returns what was written; the other
      indices read as before. */
  lemma AtAfterPut(v: Vector, index: nat, x: real, j: nat)
    requires index < |v|
    ensures At(Put(v, index, x).value, index) == Success(x)
    ensures j != index ==> At(Put(v, index, x).value, j) == At(v, j)
  {
  }

  // ---------------------------------------------------------------------
  // Assignment

  /** `operator=(value)`: every element becomes `value`, the length is kept. */
  method AssignScalar(v: Vector, value: real) returns (r: Vector)
    ensures |r| == |v|
    ensures forall i :: 0 <= i < |r| ==> r[i] == value
  {
    r := v;
    var i := 0;
    while i < |r|
      invariant 0 <= i <= |r| == |v|
      invariant forall k :: 0 <= k < i ==> r[k] == value
    {
      r := r[i := value];
      i := i + 1;
    }
  }

  /** `operator=(const Vector&)`: the storage is resized when the lengths
      differ (its fresh contents are irrelevant, zero here), then every element
      is copied. */
  method AssignCopy(v: Vector, toCopy: Vector) returns (r: Vector)
    ensures r == toCopy
  {
    r := v;
    if |r| != |toCopy| {
      r := seq(|toCopy|, _ => 0.0);
    }
    var i := 0;
    while i < |r|
      invariant |r| == |toCopy|
      invariant 0 <= i <= |r|
      invariant forall k :: 0 <= k < i ==> r[k] == toCopy[k]
    {
      r := r[i := toCopy[i]];
      i := i + 1;
    }
  }

  // ---------------------------------------------------------------------
  // Elementwise arithmetic

  /** `v * scalar` (and the free `scalar * v`). */
  function Scale(v: Vector, s: real): (r: Vector)
    ensures |r| == |v|
    ensures forall i :: 0 <= i < |v| ==> r[i] == v[i] * s
  {
    seq(|v|, i requires 0 <= i < |v| => v[i] * s)
  }

  /** `operator*=`: the loop scales in place and ends where `Scale` does. */
  method ScaleInPlace(v: Vector, s: real) returns (r: Vector)
    ensures r == Scale(v, s)
  {
    r := v;
    var i := 0;
    while i < |r|
      invariant 0 <= i <= |r| == |v|
      invariant forall k :: 0 <= k < i ==> r[k] == v[k] * s
      invariant forall k :: i <= k < |r| ==> r[k] == v[k]
    {
      r := r[i := r[i] * s];
      i := i + 1;
    }
  }

  /** `operator+`: `LengthMismatch` unless the lengths agree. */
  function Add(a: Vector, b: Vector): (r: Result<Vector, VectorError>)
    ensures r.Failure? <==> |a| != |b|
    ensures r.Success? ==> |r.value| == |a| && forall i :: 0 <= i < |a| ==> r.value[i] == a[i] + b[i]
  {
    if |a| != |b| then Failure(LengthMismatch)
    else Success(seq(|a|, i requires 0 <= i < |a| => a[i] + b[i]))
  }

  /** `operator-`: `LengthMismatch` unless the lengths agree. */
  function Sub(a: Vector, b: Vector): (r: Result<Vector, VectorError>)
    ensures r.Failure? <==> |a| != |b|
    ensures r.Success? ==> |r.value| == |a| && forall i :: 0 <= i < |a| ==> r.value[i] == a[i] - b[i]
  {
    if |a| != |b| then Failure(LengthMismatch)
    else Success(seq(|a|, i requires 0 <= i < |a| => a[i] - b[i]))
  }

  /** Subtracting what was added gives the original vector back. */
  lemma AddSubRoundTrip(a: Vector, b: Vector)
    requires |a| == |b|
    ensures Sub(Add(a, b).value, b) == Success(a)
  {
    var d := Sub(Add(a, b).value, b).value;
    assert forall i :: 0 <= i < |a| ==> d[i] == a[i];
    assert d == a;
  }

  /** Scaling by one changes nothing; scaling by zero gives the zero vector. */
  lemma ScaleByOneAndZero(v: Vector)
    ensures Scale(v, 1.0) == v
    ensures Scale(v, 0.0) == seq(|v|, _ => 0.0)
  {
  }

  // ---------------------------------------------------------------------
  // Dot and cross product

  /** `a[0]*b[0] + ... + a[n-1]*b[n-1]`, accumulated left to right. */
  function DotPrefix(a: Vector, b: Vector, n: nat): real
    requires n <= |a| && n <= |b|
  {
    if n == 0 then 0.0 else DotPrefix(a, b, n - 1) + a[n - 1] * b[n - 1]
  }

  /** The dot product `operator*(const Vector&)`. */
  function Dot(a: Vector, b: Vector): (r: Result<real, VectorError>)
    ensures r.Failure? <==> |a| != |b|
    ensures r.Success? ==> r.value == DotPrefix(a, b, |a|)
  {
    if |a| != |b| then Failure(LengthMismatch) else Success(DotPrefix(a, b, |a|))
  }

  /** The source's loop computes the dot product. */
  method DotProduct(a: Vector, b: Vector) returns (r: Result<real, VectorError>)
    ensures r == Dot(a, b)
  {
    if |a| != |b| {
      return Failure(LengthMismatch);
    }
    var result := 0.0;
    var i := 0;
    while i < |a|
      invariant 0 <= i <= |a|
      invariant result == DotPrefix(a, b, i)
    {
      result := result + a[i] * b[i];
      i := i + 1;
    }
    return Success(result);
  }

  lemma {:induction false} DotPrefixCommutative(a: Vector, b: Vector, n: nat)
    requires n <= |a| && n <= |b|
    ensures DotPrefix(a, b, n) == DotPrefix(b, a, n)
  {
    if n != 0 {
      DotPrefixCommutative(a, b, n - 1);
    }
  }

  lemma DotCommutative(a: Vector, b: Vector)
    ensures Dot(a, b) == Dot(b, a)
  {
    if |a| == |b| {
      DotPrefixCommutative(a, b, |a|);
    }
  }

  lemma {:induction false} DotPrefixScale(a: Vector, b: Vector, s: real, n: nat)
    requires n <= |a| && n <= |b|
    ensures DotPrefix(Scale(a, s), b, n) == s * DotPrefix(a, b, n)
  {
    if n != 0 {
      DotPrefixScale(a, b, s, n - 1);
      var x, y := a[n - 1], b[n - 1];
      assert Scale(a, s)[n - 1] * y == s * (x * y);
    }
  }

  /** The dot product is linear in a scaled operand. */
  lemma DotScale(a: Vector, b: Vector, s: real)
    requires |a| == |b|
    ensures Dot(Scale(a, s), b).Success?
    ensures Dot(Scale(a, s), b).value == s * Dot(a, b).value
  {
    DotPrefixScale(a, b, s, |a|);
  }

  /** The worked example of src/vector.cpp: `(2, 3, 4) . (5, 6, 7) = 56`. */
  lemma DotExample()
    ensures Dot([2.0, 3.0, 4.0], [5.0, 6.0, 7.0]) == Success(56.0)
  {
    var a, b := [2.0, 3.0, 4.0], [5.0, 6.0, 7.0];
    assert DotPrefix(a, b, 1) == 10.0;
    assert DotPrefix(a, b, 2) == 28.0;
    assert DotPrefix(a, b, 3) == 56.0;
  }

  /** `cross_product`: `LengthMismatch` unless both operands have length 3. */
  function Cross(a: Vector, b: Vector): (r: Result<Vector, VectorError>)
    ensures r.Failure? <==> |a| != 3 || |b| != 3
    ensures r.Success? ==> |r.value| == 3
  {
    if |a| != 3 || |b| != 3 then Failure(LengthMismatch)
    else Success([a[1] * b[2] - a[2] * b[1],
                  a[2] * b[0] - a[0] * b[2],
                  a[0] * b[1] - a[1] * b[0]])
  }

  /** The cross product is orthogonal to both of its operands. */
  lemma CrossOrthogonal(a: Vector, b: Vector)
    requires |a| == 3 && |b| == 3
    ensures Dot(a, Cross(a, b).value) == Success(0.0)
    ensures Dot(b, Cross(a, b).value) == Success(0.0)
    ensures IsOrthogonal(a, Cross(a, b).value) && IsOrthogonal(b, Cross(a, b).value)
  {
    var c := Cross(a, b).value;
    DotPrefixOfThree(a, c);
    DotPrefixOfThree(b, c);
    CrossTermsCancel(a[0], a[1], a[2], b[0], b[1], b[2]);
    assert c[0] == a[1] * b[2] - a[2] * b[1];
    assert c[1] == a[2] * b[0] - a[0] * b[2];
    assert c[2] == a[0] * b[1] - a[1] * b[0];
    assert DotPrefix(a, c, 3) == 0.0;
    assert DotPrefix(b, c, 3) == 0.0;
  }

  lemma DotPrefixOfThree(a: Vector, c: Vector)
    requires |a| == 3 && |c| == 3
    ensures DotPrefix(a, c, 3) == a[0] * c[0] + a[1] * c[1] + a[2] * c[2]
  {
    assert DotPrefix(a, c, 1) == a[0] * c[0];
    assert DotPrefix(a, c, 2) == a[0] * c[0] + a[1] * c[1];
  }

  lemma CrossTermsCancel(x0: real, x1: real, x2: real, y0: real, y1: real, y2: real)
    ensures x0 * (x1 * y2 - x2 * y1) + x1 * (x2 * y0 - x0 * y2) + x2 * (x0 * y1 - x1 * y0) == 0.0
    ensures y0 * (x1 * y2 - x2 * y1) + y1 * (x2 * y0 - x0 * y2) + y2 * (x0 * y1 - x1 * y0) == 0.0
  {
  }

  /** Crossing with itself gives the zero vector. */
  lemma CrossSelfIsZero(a: Vector)
    requires |a| == 3
    ensures Cross(a, a) == Success([0.0, 0.0, 0.0])
  {
  }

  // ---------------------------------------------------------------------
  // Folds

  /** `max`, folded from 0 as written: `maximum(value, data[i])` over the
      prefix of length `n`. */
  function MaxFold(v: Vector, n: nat): (r: real)
    requires n <= |v|
    ensures r >= 0.0
    ensures forall i :: 0 <= i < n ==> v[i] <= r
    ensures r == 0.0 || exists i :: 0 <= i < n && v[i] == r
  {
    if n == 0 then 0.0 else Scalar.Maximum(MaxFold(v, n - 1), v[n - 1])
  }

  function Max(v: Vector): (r: real)
    ensures r >= 0.0
    ensures forall i :: 0 <= i < |v| ==> v[i] <= r
    ensures r == 0.0 || r in v
  {
    MaxFold(v, |v|)
  }

  /** Because of the starting value, `max` of a vector of negative numbers is 0,
      which is not one of its elements. */
  lemma MaxOfNegativesIsZero()
    ensures Max([-1.0, -2.0]) == 0.0 && 0.0 !in [-1.0, -2.0]
  {
  }

  /** The largest element of a non-empty vector. */
  function MaxCorrectedFold(v: Vector, n: nat): (r: real)
    requires 1 <= n <= |v|
    ensures forall i :: 0 <= i < n ==> v[i] <= r
    ensures exists i :: 0 <= i < n && v[i] == r
  {
    if n == 1 then v[0] else Scalar.Maximum(MaxCorrectedFold(v, n - 1), v[n - 1])
  }

  function MaxCorrected(v: Vector): (r: real)
    requires |v| > 0
    ensures r in v
    ensures forall i :: 0 <= i < |v| ==> v[i] <= r
  {
    MaxCorrectedFold(v, |v|)
  }

  /** The two agree whenever some element is non-negative. */
  lemma MaxAgreesWhenSomeNonNegative(v: Vector, k: nat)
    requires k < |v| && v[k] >= 0.0
    ensures Max(v) == MaxCorrected(v)
  {
  }

  /** An upper end that may be `+infinity`, the starting value of `min`. */
  datatype Extended = Infinity | Finite(value: real)

  /** `min`, folded from `INFINITY` with `minimum(value, data[i])`. */
  function MinFold(v: Vector, n: nat): (r: Extended)
    requires n <= |v|
    ensures r.Infinity? <==> n == 0
    ensures r.Finite? ==> (exists i :: 0 <= i < n && v[i] == r.value) &&
                          forall i :: 0 <= i < n ==> r.value <= v[i]
  {
    if n == 0 then Infinity
    else
      var m := MinFold(v, n - 1);
      if m.Infinity? then Finite(v[n - 1]) else Finite(Scalar.Minimum(m.value, v[n - 1]))
  }

  function Min(v: Vector): (r: Extended)
    ensures r.Infinity? <==> |v| == 0
    ensures r.Finite? ==> r.value in v && forall i :: 0 <= i < |v| ==> r.value <= v[i]
  {
    MinFold(v, |v|)
  }

  /** `max_abs`: `maximum(fabs(data[i]), error)` folded from 0. */
  function MaxAbsFold(v: Vector, n: nat): (r: real)
    requires n <= |v|
    ensures r >= 0.0
    ensures forall i :: 0 <= i < n ==> Scalar.Abs(v[i]) <= r
    ensures r == 0.0 || exists i :: 0 <= i < n && Scalar.Abs(v[i]) == r
  {
    if n == 0 then 0.0 else Scalar.Maximum(Scalar.Abs(v[n - 1]), MaxAbsFold(v, n - 1))
  }

  function MaxAbs(v: Vector): (r: real)
    ensures r >= 0.0
    ensures forall i :: 0 <= i < |v| ==> Scalar.Abs(v[i]) <= r
    ensures r == 0.0 || exists i :: 0 <= i < |v| && Scalar.Abs(v[i]) == r
  {
    MaxAbsFold(v, |v|)
  }

  /** The sum of the first `n` elements, accumulated left to right. */
  function SumPrefix(v: Vector, n: nat): real
    requires n <= |v|
  {
    if n == 0 then 0.0 else SumPrefix(v, n - 1) + v[n - 1]
  }

  /** `mean`: the sum divided by the length; for an empty vector that is
      `0 / 0`, not a number, modelled as `None`. */
  function Mean(v: Vector): (r: Option<real>)
    ensures r.None? <==> |v| == 0
    ensures r.Some? ==> r.value * (|v| as real) == SumPrefix(v, |v|)
  {
    if |v| == 0 then None else Some(SumPrefix(v, |v|) / (|v| as real))
  }

  lemma {:induction false} SumOfConstant(v: Vector, c: real, n: nat)
    requires n <= |v|
    requires forall i :: 0 <= i < |v| ==> v[i] == c
    ensures SumPrefix(v, n) == (n as real) * c
  {
    if n != 0 {
      SumOfConstant(v, c, n - 1);
    }
  }

  /** The mean of a non-empty constant vector is that constant. */
  lemma MeanOfConstant(v: Vector, c: real)
    requires |v| > 0
    requires forall i :: 0 <= i < |v| ==> v[i] == c
    ensures Mean(v).Some? && Mean(v).value == c
  {
    SumOfConstant(v, c, |v|);
    DivCancel(c, |v| as real);
  }

  lemma DivCancel(x: real, m: real)
    requires m != 0.0
    ensures (m * x) / m == x
  {
  }

  /** `max_diff`: `LengthMismatch` unless the lengths agree, otherwise the
      largest absolute difference of corresponding elements (0 if empty). */
  function MaxDiffFold(a: Vector, b: Vector, n: nat): (r: real)
    requires n <= |a| && n <= |b|
    ensures r >= 0.0
    ensures forall i :: 0 <= i < n ==> Scalar.Abs(a[i] - b[i]) <= r
    ensures r == 0.0 || exists i :: 0 <= i < n && Scalar.Abs(a[i] - b[i]) == r
  {
    if n == 0 then 0.0 else Scalar.Maximum(Scalar.Abs(a[n - 1] - b[n - 1]), MaxDiffFold(a, b, n - 1))
  }

  function MaxDiff(a: Vector, b: Vector): (r: Result<real, VectorError>)
    ensures r.Failure? <==> |a| != |b|
    ensures r.Success? ==> r.value >= 0.0 && forall i :: 0 <= i < |a| ==> Scalar.Abs(a[i] - b[i]) <= r.value
  {
    if |a| != |b| then Failure(LengthMismatch) else Success(MaxDiffFold(a, b, |a|))
  }

  lemma {:induction false} MaxDiffFoldIsMaxAbsFold(a: Vector, b: Vector, n: nat)
    requires |a| == |b| && n <= |a|
    ensures MaxDiffFold(a, b, n) == MaxAbsFold(Sub(a, b).value, n)
  {
    if n != 0 {
      MaxDiffFoldIsMaxAbsFold(a, b, n - 1);
    }
  }

  /** `max_diff` is `max_abs` of the difference. */
  lemma MaxDiffIsMaxAbsOfSub(a: Vector, b: Vector)
    requires |a| == |b|
    ensures MaxDiff(a, b) == Success(MaxAbs(Sub(a, b).value))
  {
    MaxDiffFoldIsMaxAbsFold(a, b, |a|);
  }

  // ---------------------------------------------------------------------
  // Comparisons

  /** `operator==`: equal lengths and every pair of elements within
      `vector_precision`. */
  predicate Equal(a: Vector, b: Vector) {
    |a| == |b| && forall i :: 0 <= i < |a| ==> Scalar.AreClose(a[i], b[i], VectorPrecision)
  }

  /** Two vectors compare equal exactly when their `max_diff` is below the
      tolerance. */
  lemma EqualIffMaxDiffSmall(a: Vector, b: Vector)
    requires |a| == |b|
    ensures Equal(a, b) <==> MaxDiff(a, b).value < VectorPrecision
  {
    var d := MaxDiffFold(a, b, |a|);
    if d != 0.0 {
      var i :| 0 <= i < |a| && Scalar.Abs(a[i] - b[i]) == d;
      assert d < VectorPrecision ==> Equal(a, b);
      assert Equal(a, b) ==> Scalar.AreClose(a[i], b[i], VectorPrecision);
    }
  }

  /** `is_orthogonal`: equal lengths and a dot product within tolerance of 0. */
  predicate IsOrthogonal(a: Vector, b: Vector) {
    |a| == |b| && Scalar.AreClose(Dot(a, b).value, 0.0, VectorPrecision)
  }

  // ---------------------------------------------------------------------
  // Sortedness and searching

  /** Non-decreasing, stated over all pairs. */
  predicate Sorted(v: Vector) {
    forall i, j :: 0 <= i < j < |v| ==> v[i] <= v[j]
  }

  /** `is_sorted`: scans adjacent pairs and stops at the first descent. */
  method IsSorted(v: Vector) returns (r: bool)
    ensures r <==> Sorted(v)
    ensures r <==> forall i :: 0 <= i && i + 1 < |v| ==> v[i] <= v[i + 1]
  {
    var i := 0;
    while i + 1 < |v|
      invariant 0 <= i <= |v| || (|v| == 0 && i == 0)
      invariant forall j, k :: 0 <= j < k <= i && k < |v| ==> v[j] <= v[k]
    {
      if v[i] > v[i + 1] {
        return false;
      }
      i := i + 1;
    }
    return true;
  }

  /** `search`: the first index holding `value` if there is one, otherwise the
      first index of an element closest to `value`; 0 for an empty vector. */
  method Search(v: Vector, value: real) returns (r: nat)
    ensures |v| == 0 ==> r == 0
    ensures |v| > 0 ==> r < |v|
    ensures value in v ==> v[r] == value && value !in v[..r]
    ensures value !in v && |v| > 0 ==>
      (forall i :: 0 <= i < |v| ==> Scalar.Abs(v[r] - value) <= Scalar.Abs(v[i] - value)) &&
      (forall i :: 0 <= i < r ==> Scalar.Abs(v[r] - value) < Scalar.Abs(v[i] - value))
  {
    var closest := 0;
    var i := 0;
    while i < |v|
      invariant 0 <= i <= |v|
      invariant value !in v[..i]
      invariant i > 0 ==> closest < i
      invariant i == 0 ==> closest == 0
      invariant forall k :: 0 <= k < i ==> Scalar.Abs(v[closest] - value) <= Scalar.Abs(v[k] - value)
      invariant forall k :: 0 <= k < closest ==> Scalar.Abs(v[closest] - value) < Scalar.Abs(v[k] - value)
    {
      if v[i] == value {
        return i;
      } else if Scalar.Abs(v[i] - value) < Scalar.Abs(v[closest] - value) {
        closest := i;
      }
      i := i + 1;
    }
    assert v[..i] == v;
    return closest;
  }

  // ---------------------------------------------------------------------
  // Binary search

  /** Where `binary_search` ended: the index it returns, or the out-of-range
      read it performs once `size_t` arithmetic has wrapped. */
  datatype SearchError = ReadsOutOfRange(index: nat)

  /** The loop of `binary_search` as written, one iteration per call, with
      `low`, `high` and `middle` as `size_t` values.  `high = middle - 1`
      wraps to `SIZE_MAX` when `middle == 0`, and `len - 1` does so for an
      empty vector; the next probe then reads far outside the vector. */
  function BinarySearchLoop(v: Vector, value: real, low: nat, high: nat, middle: nat): (r: Result<nat, SearchError>)
    requires |v| < SizeModulus / 2
    requires low <= |v| && high < SizeModulus
    requires high < |v| || (high == SizeModulus - 1 && low == 0)
    requires middle <= |v|
    ensures r.Success? ==> r.value <= |v|
    ensures r.Failure? ==> r.error == ReadsOutOfRange(SizeModulus / 2 - 1)
    decreases if high < |v| then high - low + 2 else 1
  {
    if low > high then Success(middle)
    else
      var mid := ((low + high) % SizeModulus) / 2;
      if mid >= |v| then Failure(ReadsOutOfRange(mid))
      else if value < v[mid] then BinarySearchLoop(v, value, low, (mid - 1) % SizeModulus, mid)
      else if value > v[mid] then BinarySearchLoop(v, value, mid + 1, high, mid)
      else Success(mid)
  }

  /** `binary_search` as written: it returns an index at most `len`, or
      reads the element at `2^63 - 1` once `high` has wrapped. */
  function BinarySearch(v: Vector, value: real): (r: Result<nat, SearchError>)
    requires |v| < SizeModulus / 2
    ensures r.Success? ==> r.value <= |v|
    ensures r.Failure? ==> r.error == ReadsOutOfRange(SizeModulus / 2 - 1)
  {
    BinarySearchLoop(v, value, 0, (|v| - 1) % SizeModulus, |v|)
  }

  /** In a sorted vector, an element below (above) the probe lies left (right) of it. */
  lemma SortedSide(v: Vector, k: nat, mid: nat)
    requires Sorted(v) && k < |v| && mid < |v|
    ensures v[k] < v[mid] ==> k < mid
    ensures v[k] > v[mid] ==> k > mid
  {
  }

  lemma {:induction false} BinarySearchLoopFinds(v: Vector, value: real, low: nat, high: nat, middle: nat, k: nat)
    requires |v| < SizeModulus / 2
    requires Sorted(v)
    requires low <= k <= high < |v| && middle <= |v| && v[k] == value
    ensures BinarySearchLoop(v, value, low, high, middle).Success?
    ensures var i := BinarySearchLoop(v, value, low, high, middle).value; i < |v| && v[i] == value
    decreases high - low
  {
    Arith.DivModUnique(low + high, SizeModulus, 0, low + high);
    var mid := (low + high) / 2;
    SortedSide(v, k, mid);
    if value < v[mid] {
      Arith.DivModUnique(mid - 1, SizeModulus, 0, mid - 1);
      BinarySearchLoopFinds(v, value, low, mid - 1, mid, k);
    } else if value > v[mid] {
      BinarySearchLoopFinds(v, value, mid + 1, high, mid, k);
    }
  }

  /** On a sorted vector that contains the value, `binary_search` as written
      returns an index holding it: the wrap of `high` cannot happen then,
      because it needs `value < data[0]`. */
  lemma BinarySearchFindsPresent(v: Vector, value: real)
    requires |v| < SizeModulus / 2
    requires Sorted(v) && value in v
    ensures BinarySearch(v, value).Success?
    ensures var i := BinarySearch(v, value).value; i < |v| && v[i] == value
  {
    var k :| 0 <= k < |v| && v[k] == value;
    var high := |v| - 1;
    Arith.DivModUnique(high, SizeModulus, 0, high);
    assert BinarySearch(v, value) == BinarySearchLoop(v, value, 0, high, |v|);
    BinarySearchLoopFinds(v, value, 0, high, |v|, k);
  }

  lemma {:induction false} BinarySearchLoopBelowFirst(v: Vector, value: real, high: nat, middle: nat)
    requires |v| < SizeModulus / 2
    requires Sorted(v) && high < |v| && middle <= |v| && value < v[0]
    ensures BinarySearchLoop(v, value, 0, high, middle).Failure?
    decreases high
  {
    Arith.DivModUnique(high, SizeModulus, 0, high);
    var mid := high / 2;
    assert v[0] <= v[mid];
    if mid == 0 {
      Arith.DivModUnique(SizeModulus - 1, SizeModulus, 0, SizeModulus - 1);
    } else {
      Arith.DivModUnique(mid - 1, SizeModulus, 0, mid - 1);
      BinarySearchLoopBelowFirst(v, value, mid - 1, mid);
    }
  }

  lemma {:induction false} BinarySearchLoopNoWrap(v: Vector, value: real, low: nat, high: nat, middle: nat)
    requires |v| < SizeModulus / 2
    requires Sorted(v) && low <= |v| && high < |v| && middle <= |v| && v[0] <= value
    ensures BinarySearchLoop(v, value, low, high, middle).Success?
    decreases high - low + 2
  {
    if low <= high {
      Arith.DivModUnique(low + high, SizeModulus, 0, low + high);
      var mid := (low + high) / 2;
      if value < v[mid] {
        assert v[0] <= v[mid] && mid != 0;
        Arith.DivModUnique(mid - 1, SizeModulus, 0, mid - 1);
        BinarySearchLoopNoWrap(v, value, low, mid - 1, mid);
      } else if value > v[mid] {
        BinarySearchLoopNoWrap(v, value, mid + 1, high, mid);
      }
    }
  }

  /** On a sorted vector, `binary_search` as written reads out of range
      exactly when the vector is empty or the value lies below its first
      element. */
  lemma BinarySearchFailsExactly(v: Vector, value: real)
    requires |v| < SizeModulus / 2
    requires Sorted(v)
    ensures BinarySearch(v, value).Failure? <==> |v| == 0 || value < v[0]
  {
    if |v| == 0 {
      Arith.DivModUnique(SizeModulus - 1, SizeModulus, 0, SizeModulus - 1);
    } else {
      var high := |v| - 1;
      Arith.DivModUnique(high, SizeModulus, 0, high);
      assert BinarySearch(v, value) == BinarySearchLoop(v, value, 0, high, |v|);
      if value < v[0] {
        BinarySearchLoopBelowFirst(v, value, high, |v|);
      } else {
        BinarySearchLoopNoWrap(v, value, 0, high, |v|);
      }
    }
  }

  /** A value below the first element makes `high` wrap and the next probe
      read index `2^63 - 1`; so does any search in an empty vector. */
  lemma BinarySearchReadsOutOfRange()
    ensures BinarySearch([1.0], 0.0) == Failure(ReadsOutOfRange(SizeModulus / 2 - 1))
    ensures BinarySearch([], 0.0) == Failure(ReadsOutOfRange(SizeModulus / 2 - 1))
  {
  }

  /** `binary_search` as evidently intended: the same probes over signed
      bounds, so an exhausted range ends the loop instead of wrapping.  It
      returns the last probed index, or `len` when nothing was probed. */
  function BinarySearchCorrectedLoop(v: Vector, value: real, low: int, high: int, middle: nat): (r: nat)
    requires 0 <= low <= |v| && -1 <= high < |v| && middle <= |v|
    ensures r <= |v|
    ensures r == |v| ==> middle == |v| && low > high
    decreases high - low + 1
  {
    if low > high then middle
    else
      var mid := (low + high) / 2;
      if value < v[mid] then BinarySearchCorrectedLoop(v, value, low, mid - 1, mid)
      else if value > v[mid] then BinarySearchCorrectedLoop(v, value, mid + 1, high, mid)
      else mid
  }

  function BinarySearchCorrected(v: Vector, value: real): (r: nat)
    ensures r <= |v|
    ensures |v| == 0 ==> r == 0
  {
    BinarySearchCorrectedLoop(v, value, 0, |v| - 1, |v|)
  }

  lemma {:induction false} BinarySearchCorrectedLoopFinds(v: Vector, value: real, low: int, high: int, middle: nat, k: nat)
    requires 0 <= low <= |v| && -1 <= high < |v| && middle <= |v|
    requires Sorted(v)
    requires low <= k <= high && v[k] == value
    ensures var i := BinarySearchCorrectedLoop(v, value, low, high, middle); i < |v| && v[i] == value
    decreases high - low + 1
  {
    var mid := (low + high) / 2;
    SortedSide(v, k, mid);
    if value < v[mid] {
      BinarySearchCorrectedLoopFinds(v, value, low, mid - 1, mid, k);
    } else if value > v[mid] {
      BinarySearchCorrectedLoopFinds(v, value, mid + 1, high, mid, k);
    }
  }

  /** The corrected search finds every present value of a sorted vector and
      never reads out of range (it returns an index at most `len`). */
  lemma BinarySearchCorrectedFinds(v: Vector, value: real)
    requires Sorted(v)
    ensures var i := BinarySearchCorrected(v, value); value in v ==> i < |v| && v[i] == value
  {
    if value in v {
      var k :| 0 <= k < |v| && v[k] == value;
      BinarySearchCorrectedLoopFinds(v, value, 0, |v| - 1, |v|, k);
    }
  }

  /** Where the source reads out of range, the corrected search returns an
      index within `[0, len]`. */
  lemma BinarySearchCorrectedOnWrapInputs()
    ensures BinarySearchCorrected([1.0], 0.0) == 0
    ensures BinarySearchCorrected([], 0.0) == 0
  {
  }
}
