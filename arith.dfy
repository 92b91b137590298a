/** Integer facts the model needs: Python 2 floor division and the
    uniqueness of the Euclidean remainder. */
module Arith {

  /** Python 2 `a / b` on integers: the quotient rounded toward minus infinity.
      Dafny's `/` is Euclidean, which agrees only for a positive divisor. */
  function FloorDiv(a: int, b: int): (q: int)
    requires b != 0
    ensures b > 0 ==> q * b <= a < q * b + b
    ensures b < 0 ==> q * b + b < a <= q * b
  {
    if b > 0 then a / b else (-a) / (-b)
  }

  lemma {:induction false} MulAtLeast(d: int, m: int)
    requires d >= 1 && m > 0
    ensures d * m >= m
  {
    if d > 1 {
      MulAtLeast(d - 1, m);
      assert d * m == (d - 1) * m + m;
    }
  }

  /** The remainder of `x` by `m` is the one `r` in `0..m-1` with `x - r` a multiple of `m`. */
  lemma ModUnique(x: int, q: int, r: int, m: int)
    requires m > 0 && 0 <= r < m && x == q * m + r
    ensures x % m == r && x / m == q
  {
    var q0, r0 := x / m, x % m;
    assert x == q0 * m + r0;
    assert (q - q0) * m == r0 - r;
    if q > q0 {
      MulAtLeast(q - q0, m);
    } else if q < q0 {
      assert (q0 - q) * m == r - r0;
      MulAtLeast(q0 - q, m);
    }
  }

  /** Shifting by a multiple of `m` does not change the remainder. */
  lemma ModShift(x: int, m: int)
    requires m > 0
    ensures (x + m) % m == x % m
  {
    ModUnique(x + m, x / m + 1, x % m, m);
  }

  /** Two numbers closer than `m` with the same remainder are equal. */
  lemma SameResidueClose(a: int, b: int, m: int)
    requires m > 0 && a % m == b % m && b <= a < b + m
    ensures a == b
  {
    var qa, qb := a / m, b / m;
    assert (qa - qb) * m == a - b;
    if qa != qb {
      assert qa > qb by {
        if qa < qb { assert (qb - qa) * m == b - a; MulAtLeast(qb - qa, m); }
      }
      MulAtLeast(qa - qb, m);
    }
  }

  /** The one number in `s..s+m-1` whose remainder is `t`. */
  lemma ResidueInWindow(s: int, t: int, m: int)
    requires m > 0 && 0 <= t < m
    ensures s <= s + (t - s) % m < s + m
    ensures (s + (t - s) % m) % m == t
  {
    var d := t - s;
    assert d == (d / m) * m + d % m;
    ModUnique(s + d % m, -(d / m), t, m);
  }
}
