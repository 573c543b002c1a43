/** Multiples and quotients, in the small steps that non-linear arithmetic needs. */
module Arithmetic {

  lemma NextMultiple(d: int, p: int, q: int)
    requires d > 0 && p < q
    ensures d * p + d <= d * q
  {
    var more := q - p - 1;
    assert d * more >= 0;
    assert d * q == d * p + d + d * more;
  }

  lemma Cancel(d: int, p: int, q: int)
    requires d > 0 && d * p <= d * q
    ensures p <= q
  {
    if p > q {
      NextMultiple(d, q, p);
    }
  }

  lemma QuotientBounds(n: int, d: int)
    requires d > 0
    ensures d * (n / d) <= n < d * (n / d) + d
  {
  }

  // The quotient is the only multiplier that close.
  lemma QuotientIs(n: int, d: int, q: int)
    requires d > 0 && d * q <= n < d * q + d
    ensures n / d == q && n % d == n - d * q
  {
    var k, r := n / d, n % d;
    assert n == d * k + r;
    if k < q {
      NextMultiple(d, k, q);
    } else if k > q {
      NextMultiple(d, q, k);
    }
  }
}
