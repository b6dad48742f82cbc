/**
 Integer division: quotients read off from a decomposition, and Go's division, which
 truncates toward zero.
 */
module Division {

  function Abs(v: int): nat { if v < 0 then -v else v }

  function TruncDiv(a: int, b: int): int
    requires b > 0
  {
    if a >= 0 then a / b else -((-a) / b)
  }

  function TruncMod(a: int, b: int): int
    requires b > 0
  {
    a - b * TruncDiv(a, b)
  }

  lemma ProductNonNegative(x: int, y: int)
    requires x >= 0 && y >= 0
    ensures x * y >= 0
  {}

  lemma Distribute(d: int, x: int, y: int)
    ensures d * (x - y) == d * x - d * y
  {}

  lemma ProductGrows(d: int, a: int, b: int)
    requires d > 0 && a < b
    ensures d * a + d <= d * b
  {
    ProductNonNegative(d, b - a - 1);
    Distribute(d, b, a + 1);
    Distribute(d, a, -1);
  }

  /** Quotient and remainder are unique. */
  lemma DivisionIs(x: int, d: int, q: int, r: int)
    requires d > 0 && 0 <= r < d && x == d * q + r
    ensures x / d == q && x % d == r
  {
    var p := x / d;
    assert x == d * p + x % d;
    if p > q {
      ProductGrows(d, q, p);
    } else if p < q {
      ProductGrows(d, p, q);
    }
  }

  lemma DivDiv(n: nat, a: nat, b: nat)
    requires a > 0 && b > 0
    ensures a * b > 0 && n / (a * b) == n / a / b
  {
    var q, r := n / a / b, n / a % b;
    assert n / a == b * q + r;
    assert n == a * (n / a) + n % a;
    ProductGrows(a, r, b);
    Nested(a, b, q, r);
    DivisionIs(n, a * b, q, a * r + n % a);
  }

  lemma Nested(a: int, b: int, q: int, r: int)
    ensures a * (b * q + r) == a * b * q + a * r
  {}
}
