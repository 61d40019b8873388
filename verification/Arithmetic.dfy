/** Products and quotients of integers: order, bounds and uniqueness. */
module Arithmetic {
  function Abs(x: int): (r: nat)
    ensures r == x || r == -x
  {
    if x < 0 then -x else x
  }

  lemma AtLeastOneTimes(a: int, b: nat)
    requires a >= 1
    ensures a * b >= b
  {
  }

  /** Bounds on a quotient from bounds on the dividend. */
  lemma QuotientBetween(n: int, d: nat, low: int, high: int)
    requires d > 0 && low * d <= n < high * d
    ensures low <= n / d < high
  {
    var q, r := n / d, n % d;
    assert n == q * d + r;
    if q < low {
      ProductBelow(q, low, d);
    } else if q >= high {
      ProductBelow(high - 1, q, d);
    }
  }

  lemma ProductBelow(a: int, b: int, d: nat)
    requires a < b
    ensures a * d + d <= b * d
  {
    assert b * d == a * d + (b - a) * d;
    AtLeastOneTimes(b - a, d);
  }

  lemma ProductOrder(a: int, b: int, d: nat)
    requires a <= b
    ensures a * d <= b * d
  {
    if a < b { ProductBelow(a, b, d); }
  }

  /** A product of two bounded values. */
  lemma BoundedProduct(x: int, y: int, m: int, n: int)
    requires -m <= x <= m && -n <= y <= n
    ensures -(m * n) <= x * y <= m * n
  {
    var p, q := Abs(x), Abs(y);
    MagnitudeProduct(p, q, m, n);
    SignedProduct(x, y);
  }

  lemma MagnitudeProduct(p: nat, q: nat, m: int, n: int)
    requires p <= m && q <= n
    ensures p * q <= m * n
  {
    ProductOrder(p, m, q);
    ProductOrder(q, n, m);
  }

  lemma SignedProduct(x: int, y: int)
    ensures x * y == Abs(x) * Abs(y) || x * y == -(Abs(x) * Abs(y))
  {
  }

  lemma NegatedProduct(x: int, y: int)
    ensures x * -y == -(x * y)
  {
  }

  lemma SumTimes(a: int, b: int, c: int)
    ensures (a + b) * c == a * c + b * c
  {
  }

  lemma QuotientAndRest(q: int, d: nat, r: nat)
    requires r < d
    ensures (q * d + r) / d == q && (q * d + r) % d == r
  {
    ProductBelow(q, q + 1, d);
    QuotientBetween(q * d + r, d, q, q + 1);
  }

  lemma DivideProduct(a: nat, b: nat)
    requires b > 0
    ensures a * b / b == a
  {
    QuotientAndRest(a, b, 0);
  }

  lemma FloorBounds(n: nat, d: nat)
    requires d > 0
    ensures n / d * d <= n < n / d * d + d
  {
  }

  lemma Commuted(x: int, y: int)
    ensures x * y == y * x
  {
  }
}
