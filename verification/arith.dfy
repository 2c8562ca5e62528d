/** Facts about division and remainder that the solver does not find for variable divisors. */
module Arith {
  /** Quotient and remainder are unique. */
  lemma DivModUnique(x: int, n: int, q: int, r: int)
    requires n > 0 && x == q * n + r && 0 <= r < n
    ensures x / n == q && x % n == r
  {
    var q', r' := x / n, x % n;
    assert (q - q') * n == r' - r;
    if q > q' {
      assert (q - q') * n >= 1 * n by { MulMono(1, q - q', n); }
    } else if q < q' {
      assert (q' - q) * n >= 1 * n by { MulMono(1, q' - q, n); }
    }
  }

  lemma MulMono(a: int, b: int, n: int)
    requires a <= b && n >= 0
    ensures a * n <= b * n
  {
    assert (b - a) * n >= 0;
  }
}
