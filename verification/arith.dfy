/** Facts about Euclidean division on naturals that the solver does not find
    on its own; used for `uint64_t` wrap-around, trial division and
    row-major indexing. */
module Arith {

  lemma MulAtLeast(m: int, d: int)
    requires m > 0
    ensures d >= 1 ==> m * d >= m
    ensures d <= -1 ==> m * d <= -m
  {
    if d >= 1 {
      assert m * d == m + m * (d - 1);
    } else if d <= -1 {
      assert m * d == -m + m * (d + 1);
    }
  }

  lemma MulMonotone(m: int, a: int, b: int)
    requires m > 0
    ensures a <= b ==> m * a <= m * b
  {
    assert m * b - m * a == m * (b - a);
    if b - a >= 1 {
      MulAtLeast(m, b - a);
    }
  }

  lemma MulStrictCancel(m: int, a: int, b: int)
    requires m > 0 && m * a < m * b
    ensures a < b
  {
    MulMonotone(m, b, a);
  }

  /** Division with remainder has a unique quotient and remainder. */
  lemma DivModUnique(z: int, m: int, q: int, r: int)
    requires m > 0 && 0 <= r < m && z == m * q + r
    ensures z / m == q && z % m == r
  {
    var q' := z / m;
    var r' := z % m;
    assert z == m * q' + r';
    assert m * (q - q') == r' - r;
    MulAtLeast(m, q - q');
  }

  lemma ModAddMultiple(x: int, k: int, m: int)
    requires m > 0
    ensures (m * k + x) % m == x % m
  {
    var q := x / m;
    assert x == m * q + x % m;
    assert m * k + x == m * (k + q) + x % m;
    DivModUnique(m * k + x, m, k + q, x % m);
  }

  lemma ModMulLeft(a: int, b: int, m: int)
    requires m > 0
    ensures (a % m) * b % m == a * b % m
  {
    var q := a / m;
    assert a == m * q + a % m;
    assert a * b == m * (q * b) + (a % m) * b;
    ModAddMultiple((a % m) * b, q * b, m);
  }
}
