/** Facts about Euclidean division and truncating division that the
    verifier does not find on its own, and Python's `int(a / b)`. */
module Arith {

  lemma MulLe(a: int, b: int, c: int)
    requires a <= b && c > 0
    ensures a * c <= b * c
  {
    assert b * c - a * c == (b - a) * c;
  }

  /** Euclidean division has one quotient and one remainder. */
  lemma DivUnique(a: int, d: int, q: int, m: int)
    requires d > 0 && 0 <= m < d && a == q * d + m
    ensures a / d == q && a % d == m
  {
    var q', m' := a / d, a % d;
    assert a == q' * d + m';
    if q' < q {
      MulLe(q' + 1, q, d);
    } else if q < q' {
      MulLe(q + 1, q', d);
    }
  }

  /** Adding the divisor does not change the remainder. */
  lemma ModShift(a: int, d: int)
    requires d > 0
    ensures (a + d) % d == a % d
  {
    DivUnique(a + d, d, a / d + 1, a % d);
  }

  /** Dividing by a positive number keeps the order. */
  lemma DivMonotone(x: int, y: int, d: int)
    requires d > 0 && x <= y
    ensures x / d <= y / d
  {
    var qx, qy := x / d, y / d;
    assert x == qx * d + x % d && y == qy * d + y % d;
    if qx > qy {
      MulLe(qy + 1, qx, d);
    }
  }

  /** `int(a / d)` in Python for a positive divisor: true division, then
      truncation toward zero (Dafny's `/` rounds down instead). */
  function TruncDiv(a: int, d: int): (q: int)
    requires d > 0
    ensures a >= 0 ==> 0 <= q * d <= a < (q + 1) * d
    ensures a < 0 ==> (q - 1) * d < a <= q * d <= 0
  {
    if a >= 0 then
      DivBounds(a, d);
      a / d
    else
      DivBounds(-a, d);
      assert -((-a) / d) * d == -(((-a) / d) * d);
      assert (-((-a) / d) - 1) * d == -(((-a) / d + 1) * d);
      -((-a) / d)
  }

  /** The quotient times the divisor is the largest multiple not above `a`. */
  lemma DivBounds(a: int, d: int)
    requires d > 0 && a >= 0
    ensures 0 <= (a / d) * d <= a < (a / d + 1) * d
  {
    assert a == (a / d) * d + a % d;
    assert (a / d + 1) * d == (a / d) * d + d;
    MulLe(0, a / d, d);
  }

  /** Truncating division by a positive number keeps the order. */
  lemma TruncDivMonotone(x: int, y: int, d: int)
    requires d > 0 && x <= y
    ensures TruncDiv(x, d) <= TruncDiv(y, d)
  {
    if x >= 0 {
      DivMonotone(x, y, d);
    } else if y < 0 {
      DivMonotone(-y, -x, d);
    }
  }
}
