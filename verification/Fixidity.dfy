/** The 24-digit fixed point numbers of packages/utils/src/fixidity.ts. */
module Fixidity {
  import opened RealArithmetic
  import Arithmetic

  const FIXED1: int := 1_000_000_000_000_000_000_000_000

  // BigNumber.idiv: the integer part, so it rounds towards zero.
  function Idiv(a: int, d: int): int
    requires d > 0
  {
    if a >= 0 then a / d else -(-a / d)
  }

  // A finite BigNumber is a real; ROUND_FLOOR rounds down, also below zero.
  function ToFixed(n: real): int {
    (FIXED1 as real * n).Floor
  }

  function FixedToInt(f: int): int {
    Idiv(f, FIXED1)
  }

  function Multiply(a: int, b: int): int {
    Idiv(a * b, FIXED1)
  }

  lemma IdivBounds(a: nat, d: int)
    requires d > 0
    ensures Idiv(a, d) >= 0 && Idiv(a, d) * d <= a < Idiv(a, d) * d + d
  {
    Arithmetic.QuotientBounds(a, d);
    if a / d < 0 {
      Arithmetic.NextMultiple(d, a / d, 0);
    }
  }

  lemma IdivExact(n: int, d: int)
    requires d > 0
    ensures Idiv(d * n, d) == n
  {
    if n >= 0 {
      assert d * n >= 0;
      Arithmetic.QuotientIs(d * n, d, n);
    } else {
      Arithmetic.NextMultiple(d, n, 0);
      assert -(d * n) == d * -n;
      Arithmetic.QuotientIs(d * -n, d, -n);
    }
  }

  // Integers survive the trip, negative ones included.
  lemma IntegerRoundTrip(n: int)
    ensures FixedToInt(ToFixed(n as real)) == n
  {
    assert FIXED1 as real * n as real == (FIXED1 * n) as real;
    IdivExact(n, FIXED1);
  }

  // One is neutral, and signs only carry over.
  lemma MultiplyLaws(a: int, b: int)
    ensures Multiply(a, FIXED1) == a == Multiply(FIXED1, a)
    ensures Multiply(-a, b) == -Multiply(a, b) == Multiply(a, -b)
  {
    IdivExact(a, FIXED1);
    assert (-a) * b == -(a * b) == a * (-b);
  }

  lemma Rescale(f: real, x: real, y: real)
    ensures Product(Product(f, x), Product(f, y)) == Product(f, Product(f, Product(x, y)))
  {
    assert (f * x) * (f * y) == f * (f * (x * y));
  }

  lemma ToFixedBounds(x: real)
    ensures ToFixed(x) as real <= Product(FIXED1 as real, x) < (ToFixed(x) + 1) as real
    ensures x >= 0.0 ==> ToFixed(x) >= 0
  {
  }

  lemma ToFixedOfProduct(x: real, y: real)
    ensures var t := ToFixed(x * y); t as real <= Product(FIXED1 as real, Product(x, y)) < (t + 1) as real
  {
    ToFixedBounds(x * y);
  }

  lemma MultiplyBounds(a: nat, b: nat)
    ensures var m, f, ab := Multiply(a, b) as real, FIXED1 as real, Product(a as real, b as real);
      Product(f, m) <= ab < Product(f, m) + f
  {
    IdivBounds(a * b, FIXED1);
    assert (Multiply(a, b) * FIXED1) as real == Product(FIXED1 as real, Multiply(a, b) as real);
    assert (a * b) as real == a as real * b as real;
  }

  // The error for any scale f, with a, b and t rounded down and m the truncated product.
  lemma ErrorFor(f: real, x: real, y: real, a: real, b: real, m: real, t: real)
    requires f > 0.0 && 0.0 <= a && 0.0 <= b
    requires a <= Product(f, x) < a + 1.0 && b <= Product(f, y) < b + 1.0
    requires t <= Product(f, Product(x, y)) < t + 1.0
    requires Product(f, m) <= Product(a, b) < Product(f, m) + f
    ensures -1.0 < t - m < x + y + 1.0
  {
    hide Product;
    var w, high := Product(f, Product(x, y)), m + 1.0 + (x + y);
    RaisedProduct(Product(f, x), Product(f, y), a, b);
    Rescale(f, x, y);
    ProductLaws(f, m + 1.0, x + y);
    ProductLaws(f, m, 1.0);
    ProductLaws(f, x, y);
    Cancel(f, m, w);
    Cancel(f, w, high);
  }

  // Multiplying rounded factors is never above the rounded product, and less than x + y + 1 units below it.
  lemma MultiplyError(x: real, y: real)
    requires x >= 0.0 && y >= 0.0
    ensures 0.0 <= (ToFixed(x * y) - Multiply(ToFixed(x), ToFixed(y))) as real < x + y + 1.0
  {
    hide ToFixed, Multiply, Product;
    var a, b, t := ToFixed(x), ToFixed(y), ToFixed(x * y);
    ToFixedBounds(x);
    ToFixedBounds(y);
    ToFixedOfProduct(x, y);
    MultiplyBounds(a, b);
    ErrorFor(FIXED1 as real, x, y, a as real, b as real, Multiply(a, b) as real, t as real);
  }

  // The same for integers.
  function Times(x: int, y: int): int {
    x * y
  }

  lemma TimesLaws(x: int, y: int, z: int)
    ensures Times(x, y) == Times(y, x)
    ensures Times(x, y + z) == Times(x, y) + Times(x, z)
    ensures Times(x, Times(y, z)) == Times(Times(x, y), z)
    ensures y <= z && x >= 0 ==> Times(x, y) <= Times(x, z)
  {
    assert x * (y * z) == (x * y) * z;
    assert y <= z && x >= 0 ==> x * (z - y) >= 0;
  }

  lemma CancelTimes(f: int, p: int, q: int)
    requires f > 0 && Times(f, p) <= Times(f, q)
    ensures p <= q
  {
    Arithmetic.Cancel(f, p, q);
  }

  lemma TruncatedBounds(a: nat, b: nat)
    ensures Multiply(a, b) >= 0
    ensures Times(FIXED1, Multiply(a, b)) <= Times(a, b) < Times(FIXED1, Multiply(a, b)) + FIXED1
  {
    IdivBounds(a * b, FIXED1);
  }

  // Rounding a product first loses at most one factor f * c.
  lemma Rounded(ab: nat, p: nat, c: nat, f: nat)
    requires Times(f, p) <= ab < Times(f, p) + f
    ensures Times(f, Times(p, c)) <= Times(ab, c) <= Times(f, Times(p, c) + c)
  {
    hide Times;
    var fp := Times(f, p);
    TimesLaws(c, fp, ab);
    TimesLaws(c, ab, fp + f);
    TimesLaws(c, fp, f);
    TimesLaws(f, p, c);
    TimesLaws(fp, c, 0);
    TimesLaws(ab, c, 0);
    TimesLaws(f, Times(p, c), c);
    TimesLaws(f, c, 0);
  }

  lemma Regroup(a: nat, b: nat, c: nat, f: nat, ab: nat, bc: nat, p: nat, q: nat, left: nat, right: nat)
    requires f > 0 && ab == Times(a, b) && bc == Times(b, c)
    requires Times(f, p) <= ab < Times(f, p) + f && Times(f, q) <= bc < Times(f, q) + f
    requires Times(f, left) <= Times(p, c) < Times(f, left) + f && Times(f, right) <= Times(a, q) < Times(f, right) + f
    ensures Times(f, left) - Times(f, right) < a + f && Times(f, right) - Times(f, left) < c + f
  {
    hide Times;
    Rounded(ab, p, c, f);
    Rounded(bc, q, a, f);
    TimesLaws(a, b, c);
    TimesLaws(bc, a, 0);
    TimesLaws(q, a, 0);
    CancelTimes(f, Times(p, c), Times(a, q) + a);
    CancelTimes(f, Times(a, q), Times(p, c) + c);
  }

  // Regrouping a product of three moves the result by less than max(a, c) / FIXED1 + 1 units.
  lemma RegroupingError(a: nat, b: nat, c: nat)
    ensures var left, right := Multiply(Multiply(a, b), c), Multiply(a, Multiply(b, c));
      && (left - right) * FIXED1 < a + FIXED1
      && (right - left) * FIXED1 < c + FIXED1
  {
    hide Multiply;
    TruncatedBounds(a, b);
    TruncatedBounds(b, c);
    var p, q := Multiply(a, b), Multiply(b, c);
    TruncatedBounds(p, c);
    TruncatedBounds(a, q);
    assert Times(a, b) >= 0 && Times(b, c) >= 0;
    Regroup(a, b, c, FIXED1, Times(a, b), Times(b, c), p, q, Multiply(p, c), Multiply(a, q));
  }

  // ---------- the scale and the rounding ----------

  function TenTo(n: nat): int {
    if n == 0 then 1 else 10 * TenTo(n - 1)
  }

  // Numbers have 24 digits after the point.
  lemma ScaleIs()
    ensures FIXED1 == TenTo(24) && ToFixed(1.0) == FIXED1
  {
    assert TenTo(8) == 100_000_000;
    assert TenTo(16) == 100_000_000 * 100_000_000;
    assert TenTo(24) == TenTo(16) * 100_000_000;
    assert FIXED1 as real * 1.0 == FIXED1 as real;
  }

  // To fixed rounds down, also below zero; back to an integer cuts off towards zero.
  lemma RoundingIs(n: real, f: int)
    ensures ToFixed(n) as real <= FIXED1 as real * n < (ToFixed(n) + 1) as real
    ensures f >= 0 ==> FixedToInt(f) * FIXED1 <= f < FixedToInt(f) * FIXED1 + FIXED1
    ensures FixedToInt(-f) == -FixedToInt(f)
  {
    if f >= 0 {
      IdivBounds(f, FIXED1);
    }
  }
}
