/** Integer arithmetic used by the number modules: products, quotients, remainders and powers. */
module Arith {

  lemma MulMono(a: int, x: int, y: int)
    requires 0 <= a && x <= y
    ensures a * x <= a * y
  {
  }

  lemma MulDist(a: int, x: int, y: int)
    ensures a * (x + y) == a * x + a * y
    ensures a * (x - y) == a * x - a * y
  {
  }

  lemma MulAssoc(a: int, b: int, c: int)
    ensures a * (b * c) == (a * b) * c
  {
  }

  lemma MulSwap(a: int, b: int, c: int, d: int)
    ensures (a * b) * (c * d) == (a * c) * (b * d)
  {
  }

  /** Quotient and remainder are determined by `w == d * q + m` with `0 <= m < d`. */
  lemma DivModUnique(w: int, d: int, q: int, m: int)
    requires 0 <= m < d && w == d * q + m
    ensures w / d == q && w % d == m
  {
    var q', m' := w / d, w % d;
    assert w == d * q' + m';
    MulDist(d, q, q');
    if q > q' {
      MulMono(d, 1, q - q');
    } else if q < q' {
      MulMono(d, q - q', -1);
    }
  }
}
