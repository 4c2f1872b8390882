/** Facts about multiplication and division of unbounded integers that the
    solver does not find by itself. */
module Arith {

  lemma MulNonNeg(a: int, b: int)
    ensures 0 <= a && 0 <= b ==> 0 <= a * b
  {
  }

  lemma MulMonotone(a: int, b: int, c: int)
    requires a <= b && 0 <= c
    ensures a * c <= b * c
  {
    assert b * c - a * c == (b - a) * c;
    MulNonNeg(b - a, c);
  }

  /** The quotient is determined by the interval the dividend lies in. */
  lemma DivUnique(z: int, q: int, k: int)
    requires q > 0 && q * k <= z < q * (k + 1)
    ensures z / q == k
  {
    var r := z / q;
    assert z == q * r + z % q;
    assert q * (k - r - 1) == q * k - q * r - q;
    assert q * (r - k - 1) == q * r - q * k - q;
    MulNonNeg(q, k - r - 1);
    MulNonNeg(q, r - k - 1);
  }

  /** A dividend below `q * k` has a quotient below `k`. */
  lemma DivLess(z: int, q: int, k: int)
    requires q > 0 && 0 <= z < q * k
    ensures 0 <= z / q < k
  {
    var r := z / q;
    assert z == q * r + z % q;
    assert q * (r - k) == q * r - q * k;
    MulNonNeg(q, r - k);
    MulNonNeg(q, r);
    assert q * (-r - 1) == -q * r - q;
    MulNonNeg(q, -r - 1);
  }

  /** Division by a positive number is monotone. */
  lemma DivMonotone(x: int, y: int, q: int)
    requires q > 0 && x <= y
    ensures x / q <= y / q
  {
    var rx, ry := x / q, y / q;
    assert x == q * rx + x % q;
    assert y == q * ry + y % q;
    assert q * (rx - ry - 1) == q * rx - q * ry - q;
    MulNonNeg(q, rx - ry - 1);
  }
}
