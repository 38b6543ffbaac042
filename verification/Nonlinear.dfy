/** Small facts about products and quotients, kept apart so that the solver meets each
    non-linear term alone. */
module Nonlinear {

  // ----- integers

  lemma MulNonnegative(x: int, y: int)
    requires x >= 0 && y >= 0
    ensures x * y >= 0
  {}

  lemma MulPositive(x: int, y: int)
    requires x > 0 && y > 0
    ensures x * y > 0
  {}

  lemma MulMonotone(n: int, x: int, y: int)
    requires n >= 0 && x <= y
    ensures n * x <= n * y
  {
    MulNonnegative(n, y - x);
  }

  lemma MulStrict(n: int, x: int, y: int)
    requires n > 0 && x < y
    ensures n * x < n * y
  {
    MulPositive(n, y - x);
  }

  lemma MulCancel(n: int, x: int, y: int)
    requires n > 0
    ensures n * x == n * y <==> x == y
    ensures n * x <= n * y <==> x <= y
  {
    if x < y { MulStrict(n, x, y); }
    if y < x { MulStrict(n, y, x); }
  }

  // ----- integers as reals

  lemma RealProduct(x: int, y: int)
    ensures (x * y) as real == x as real * y as real
  {}

  // ----- reals

  lemma ProductPositive(x: real, y: real, product: real)
    requires x > 0.0 && y > 0.0 && product == x * y
    ensures product > 0.0
  {}

  lemma ProductNonnegative(x: real, y: real)
    requires x >= 0.0 && y >= 0.0
    ensures x * y >= 0.0
  {}

  lemma ScaleMonotone(c: real, x: real, y: real)
    requires c >= 0.0 && x <= y
    ensures c * x <= c * y
  {}

  lemma ScaleStrict(c: real, x: real, y: real)
    requires c > 0.0 && x < y
    ensures c * x < c * y
  {}

  lemma ScaleCancel(c: real, x: real, y: real)
    requires c > 0.0
    ensures c * x <= c * y <==> x <= y
    ensures c * x == c * y <==> x == y
  {
    if x < y { ScaleStrict(c, x, y); }
    if y < x { ScaleStrict(c, y, x); }
  }

  lemma Distribute(c: real, x: real, y: real)
    ensures c * (x + y) == c * x + c * y
    ensures c * (x - y) == c * x - c * y
  {}

  lemma Associate(x: real, y: real, z: real)
    ensures x * (y * z) == x * y * z
  {}

  function Power(b: real, k: nat): real {
    if k == 0 then 1.0 else b * Power(b, k - 1)
  }

  /** What a quotient is: the one value that the divisor multiplies back. */
  lemma QuotientIs(q: real, x: real, d: real)
    requires d != 0.0
    ensures q == x / d <==> d * q == x
  {}

  lemma QuotientOrder(x: real, y: real, d: real)
    requires d > 0.0
    ensures x / d <= y / d <==> x <= y
    ensures x / d == y / d <==> x == y
  {
    QuotientIs(x / d, x, d);
    QuotientIs(y / d, y, d);
    ScaleCancel(d, x / d, y / d);
  }

  lemma QuotientOfWhole(d: real)
    requires d != 0.0
    ensures d / d == 1.0 && -d / d == -1.0 && 0.0 / d == 0.0
  {}

  lemma SameQuotient(x: real, y: real, d: real)
    requires d != 0.0 && d * y != 0.0
    ensures y != 0.0 && x / y == (d * x) / (d * y)
  {
    var q := x / y;
    assert y * q == x;
    Associate(d, y, q);
    QuotientIs(q, d * x, d * y);
  }
}
