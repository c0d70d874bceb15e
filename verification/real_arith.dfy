/**
  Small facts about real products that the solver does not find unaided.
  `Mul` names a product so that a fact proved about it can be matched
  against the same product inside a larger expression.
 */
module RealArith {
  function Mul(x: real, y: real): (r: real)
    ensures 0.0 <= x && 0.0 <= y ==> 0.0 <= r
  {
    x * y
  }

  /** A fraction `p` in `[0, 1)` of a positive `total` lies in `[0, total)`. */
  lemma MulBelow(p: real, total: real)
    requires 0.0 <= p < 1.0 && 0.0 < total
    ensures 0.0 <= Mul(p, total) < total
  {
    assert 0.0 < (1.0 - p) * total;
  }

  /** Dividing by a positive number keeps the order. */
  lemma DivMonotonic(x: real, y: real, total: real)
    requires x <= y && 0.0 < total
    ensures x / total <= y / total
  {
    assert (y / total - x / total) * total == y - x;
  }

  /** A quotient by a positive number is at most one exactly when the dividend is at most the divisor. */
  lemma DivAtMostOne(x: real, total: real)
    requires 0.0 < total
    ensures x / total <= 1.0 <==> x <= total
    ensures x / total >= 1.0 <==> x >= total
  {
    assert (x / total - 1.0) * total == x - total;
  }

  /** Multiplying by a non-negative number keeps the order. */
  lemma MulMonotonic(c: real, x: real, y: real)
    requires 0.0 <= c && x <= y
    ensures c * x <= c * y
  {
    assert c * y - c * x == c * (y - x);
  }
}
