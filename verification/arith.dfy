/** Facts about products and integer division that the drawing code relies on, kept apart so
    that each nonlinear step is proved once, over plain parameters. */
module Arith {

  /** A positive factor can be cancelled from a strict inequality. */
  lemma CancelLt(a: int, c: int, b: int)
    requires b > 0 && a * b < c * b
    ensures a < c
  {
  }

  /** Multiplying by a non-negative factor keeps the order. */
  lemma ScaleMonotone(a: int, b: int, len: int)
    requires a <= b && len >= 0
    ensures a * len <= b * len
  {
  }

  /** Position `d` of block `k`, blocks being `a` long, lies in block `k` at offset `d`. */
  lemma DivModOf(k: int, a: int, d: int)
    requires a > 0 && 0 <= d < a
    ensures (k * a + d) / a == k && (k * a + d) % a == d
  {
    var c := k * a + d;
    var q := c / a;
    assert q * a <= c < (k + 1) * a;
    CancelLt(q, k + 1, a);
    assert k * a <= c < (q + 1) * a;
    CancelLt(k, q + 1, a);
  }

  /** A position below `n` blocks of length `a` lies in one of the first `n` blocks. */
  lemma BlockBelow(c: int, n: int, a: int)
    requires a > 0 && 0 <= c < n * a
    ensures 0 <= c / a < n
  {
    assert (c / a) * a <= c;
    CancelLt(c / a, n, a);
  }

  /** Position `i` is offset `d` of block `q` exactly when those are its quotient and
      remainder. */
  lemma SplitIndex(i: int, a: int, q: int, d: int)
    requires a > 0 && 0 <= d < a
    ensures i == q * a + d <==> i / a == q && i % a == d
  {
    if i == q * a + d {
      DivModOf(q, a, d);
    }
  }
}
