/** Facts about natural-number products and Euclidean division that the solver does not find unaided. */
module IntArith {

  /** Multiplying both sides of `a <= b` by the same natural keeps the order. */
  lemma MulLe(a: nat, b: nat, c: nat)
    requires a <= b
    ensures a * c <= b * c
  {
    assert b * c == a * c + (b - a) * c;
  }

  /** Euclidean division is determined by a quotient and a remainder below the divisor. */
  lemma DivUnique(n: nat, w: nat, q: nat, r: nat)
    requires r < w && n == q * w + r
    ensures n / w == q && n % w == r
  {
    var q', r' := n / w, n % w;
    assert n == q' * w + r';
    if q' > q {
      MulLe(q + 1, q', w);
    } else if q' < q {
      MulLe(q' + 1, q, w);
    }
  }
}
