/** Facts about multiplication and integer division that the solver does not find on its own. */
module Arithmetic {

  /** Dividing a multiple of `p` by `p` gives back the factor, with no remainder. */
  lemma MulDivMod(p: int, q: int)
    requires p > 0
    ensures (p * q) / p == q && (p * q) % p == 0
  {
    var r, m := (p * q) / p, (p * q) % p;
    assert p * q == p * r + m && 0 <= m < p;
    assert p * (q - r) == m by {
      assert p * q - p * r == p * (q - r);
    }
    if q - r >= 1 {
      MulMono(p, 1, q - r);
    } else if q - r <= -1 {
      MulMono(p, q - r, -1);
    }
  }

  /** Multiplying by a non-negative factor keeps the order. */
  lemma MulMono(p: int, a: int, b: int)
    requires p >= 0 && a <= b
    ensures p * a <= p * b
  {
    assert p * b - p * a == p * (b - a);
  }

  /** Integer division by a positive divisor keeps the order. */
  lemma DivMono(a: int, b: int, p: int)
    requires p > 0 && a <= b
    ensures a / p <= b / p
  {
    if a / p > b / p {
      MulMono(p, b / p + 1, a / p);
    }
  }

  /** For a positive `w`, `a * w <= b` exactly when `a <= b / w`. */
  lemma MulLeIffLeDiv(a: int, w: int, b: int)
    requires w > 0
    ensures a * w <= b <==> a <= b / w
  {
    if a * w <= b {
      MulDivMod(w, a);
      DivMono(a * w, b, w);
    }
    if a <= b / w {
      MulMono(w, a, b / w);
    }
  }

  /** Squaring keeps the order of non-negative numbers. */
  lemma SquareMono(a: int, b: int)
    requires 0 <= a <= b
    ensures a * a <= b * b
  {
    MulMono(a, a, b);
    MulMono(b, a, b);
  }
}
