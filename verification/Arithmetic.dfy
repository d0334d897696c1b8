/** Division facts the solver does not find by itself, and the larger and smaller of two numbers. */
module Arithmetic {

  lemma DivUnique(w: int, d: int, q: int, r: int)
    requires 0 <= r < d && w == d * q + r
    ensures w / d == q && w % d == r
  {
    var k := w / d;
    assert d * (k - q) == r - w % d;
    assert k - q >= 1 ==> d * (k - q) >= d;
    assert k - q <= -1 ==> d * (k - q) <= -d;
  }

  lemma DivStep(n: int, d: int)
    requires d > 0
    ensures n / d == (n - d) / d + 1 && n % d == (n - d) % d
  {
    var q, r := (n - d) / d, (n - d) % d;
    assert d * (q + 1) == d * q + d;
    DivUnique(n, d, q + 1, r);
  }

  function Max(a: int, b: int): int {
    if a > b then a else b
  }

  function Min(a: int, b: int): int {
    if a > b then b else a
  }
}
