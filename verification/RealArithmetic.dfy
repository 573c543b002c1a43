/** Estimates on products of reals, in the small steps that non-linear arithmetic needs. */
module RealArithmetic {

  // Named, so that the estimates below are linear in it.
  function Product(x: real, y: real): real {
    x * y
  }

  lemma ProductLaws(x: real, y: real, z: real)
    ensures Product(x, y) == Product(y, x)
    ensures Product(x, y + z) == Product(x, y) + Product(x, z)
    ensures Product(x, y - z) == Product(x, y) - Product(x, z)
    ensures Product(x, 1.0) == x
    ensures x >= 0.0 && y >= 0.0 ==> Product(x, y) >= 0.0
    ensures x > 0.0 && y > 0.0 ==> Product(x, y) > 0.0
  {
  }

  // A factor raised by at most one.
  lemma Raised(x: real, t: real, v: real)
    requires x >= 0.0 && t <= v <= t + 1.0
    ensures Product(x, t) <= Product(x, v) <= Product(x, t) + x
  {
    hide Product;
    ProductLaws(x, v - t, 0.0);
    ProductLaws(x, v, t);
    ProductLaws(x, t + 1.0 - v, 0.0);
    ProductLaws(x, t + 1.0, v);
    ProductLaws(x, t, 1.0);
  }

  lemma RaisedProduct(u: real, v: real, s: real, t: real)
    requires 0.0 <= s <= u <= s + 1.0 && 0.0 <= t <= v <= t + 1.0
    ensures Product(s, t) <= Product(u, v) <= Product(s, t) + u + v
  {
    hide Product;
    Raised(u, t, v);
    Raised(t, s, u);
    ProductLaws(t, s, 0.0);
    ProductLaws(t, u, 0.0);
  }

  lemma Cancel(f: real, p: real, q: real)
    requires f > 0.0
    ensures Product(f, p) <= Product(f, q) ==> p <= q
    ensures Product(f, p) < Product(f, q) ==> p < q
  {
    hide Product;
    ProductLaws(f, p - q, 0.0);
    ProductLaws(f, p, q);
  }

  lemma Monotone(size: real, a: real, b: real)
    requires a <= b && size >= 0.0
    ensures Product(size, a) <= Product(size, b)
  {
    hide Product;
    ProductLaws(size, b - a, 0.0);
    ProductLaws(size, b, a);
  }

  // A gap of at most a half, n times.
  lemma ScaledGap(n: real, a: real, b: real)
    requires -0.5 <= a - b <= 0.5 && n >= 0.0
    ensures Product(n, b) - Product(n, 0.5) <= Product(n, a) <= Product(n, b) + Product(n, 0.5)
  {
    hide Product;
    Monotone(n, b - 0.5, a);
    Monotone(n, a, b + 0.5);
    ProductLaws(n, b, 0.5);
  }
}
