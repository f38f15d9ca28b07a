/**
 * Integer division facts the pixel arithmetic and the grid layout share.
 */
module Arith {
  lemma MulAtLeast(x: int, n: int)
    requires x >= 1 && n >= 0
    ensures x * n >= n
  {
    assert x * n == (x - 1) * n + n;
    assert (x - 1) * n >= 0;
  }

  /** Euclidean division is determined by quotient and remainder. */
  lemma DivModUnique(a: int, n: int, q: int, r: int)
    requires n > 0 && 0 <= r < n && a == q * n + r
    ensures a / n == q && a % n == r
  {
    var q', r' := a / n, a % n;
    assert a == q' * n + r';
    assert (q - q') * n == r' - r;
    assert q - q' >= 1 ==> (q - q') * n >= n by {
      if q - q' >= 1 { MulAtLeast(q - q', n); }
    }
    assert q' - q >= 1 ==> (q' - q) * n >= n by {
      if q' - q >= 1 { MulAtLeast(q' - q, n); }
    }
    assert (q' - q) * n == r - r';
  }
}
