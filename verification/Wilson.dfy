/** The Wilson score lower bound. The square root is a parameter: any function that inverts
    squaring on the non-negative reals. */
module Wilson {
  import opened Nonlinear

  ghost predicate IsSquareRoot(sqrt: real -> real) {
    forall x :: x >= 0.0 ==> sqrt(x) >= 0.0 && sqrt(x) * sqrt(x) == x
  }

  function WilsonLowerBound(successes: nat, total: nat, z: real, sqrt: real -> real): real {
    if total == 0 then 0.0
    else
      var n := total as real;
      var p := successes as real / n;
      Interval(p, n, z, sqrt(Radicand(p, n, z)))
  }

  function Radicand(p: real, n: real, z: real): real
    requires n > 0.0
  {
    (p * (1.0 - p) + z * z / (4.0 * n)) / n
  }

  /** (centre - spread) / denominator */
  function Interval(p: real, n: real, z: real, root: real): real
    requires n > 0.0
  {
    DenominatorAtLeastOne(z, n);
    (p + z * z / (2.0 * n) - z * root) / (1.0 + z * z / n)
  }

  lemma DenominatorAtLeastOne(z: real, n: real)
    requires n > 0.0
    ensures 1.0 + z * z / n >= 1.0
  {
    assert z * z >= 0.0;
  }

  const Z := 1.96

  // ----- the defining quadratic

  /** (p-y)^2 - c*y*(1-y): zero where the observed rate p is exactly z standard errors from y,
      for c = z^2/n. */
  function Quadratic(p: real, c: real, y: real): real {
    (p - y) * (p - y) - c * (y * (1.0 - y))
  }

  /** x solves (1+c)*x = p + c/2 - s with s the non-negative root of c*(p*(1-p) + c/4). */
  ghost predicate LowerSolution(p: real, c: real, s: real, x: real) {
    && 0.0 <= p <= 1.0 && c >= 0.0 && s >= 0.0
    && s * s == c * (p * (1.0 - p)) + c * c / 4.0
    && (1.0 + c) * x == p + c / 2.0 - s
  }

  lemma SquareOfDifference(a: real, b: real)
    ensures (a - b) * (a - b) == a * a - 2.0 * (a * b) + b * b
  {}

  /** Completing the square. */
  lemma QuadraticFactors(p: real, c: real, s: real, y: real)
    requires s * s == c * (p * (1.0 - p)) + c * c / 4.0
    ensures (1.0 + c) * Quadratic(p, c, y)
         == ((1.0 + c) * y - (p + c / 2.0) - s) * ((1.0 + c) * y - (p + c / 2.0) + s)
  {
    var k, a := 1.0 + c, p + c / 2.0;
    var t := k * y - a;
    assert (t - s) * (t + s) == t * t - s * s;
    SquareOfDifference(k * y, a);
    SquareOfDifference(p, y);
    assert Quadratic(p, c, y) == p * p - 2.0 * (p * y) + y * y - c * y + c * (y * y);
    assert Quadratic(p, c, y) == k * (y * y) - 2.0 * (a * y) + p * p;
    assert k * Quadratic(p, c, y) == k * (k * (y * y)) - 2.0 * (k * (a * y)) + k * (p * p);
    assert k * y * (k * y) == k * (k * (y * y));
    assert k * y * a == k * (a * y);
    assert a * a == p * p + p * c + c * c / 4.0;
    assert k * (p * p) == p * p + c * (p * p);
    assert c * (p * (1.0 - p)) == c * p - c * (p * p);
  }

  lemma ProductSign(x: real, y: real)
    ensures x < 0.0 && y < 0.0 ==> x * y > 0.0
    ensures x > 0.0 && y < 0.0 ==> x * y < 0.0
    ensures x > 0.0 && y > 0.0 ==> x * y > 0.0
    ensures x >= 0.0 && y >= 0.0 ==> x * y >= 0.0
    ensures x <= 0.0 && y >= 0.0 ==> x * y <= 0.0
  {}

  /** The bound is a root of the quadratic, and no root is smaller. */
  lemma BoundIsSmallerRoot(p: real, c: real, s: real, x: real)
    requires LowerSolution(p, c, s, x)
    ensures Quadratic(p, c, x) == 0.0
    ensures forall y :: y < x ==> Quadratic(p, c, y) > 0.0
  {
    var k := 1.0 + c;
    QuadraticFactors(p, c, s, x);
    assert k * Quadratic(p, c, x) == 0.0;
    forall y | y < x ensures Quadratic(p, c, y) > 0.0 {
      QuadraticFactors(p, c, s, y);
      var u, v := k * y - (p + c / 2.0) - s, k * y - (p + c / 2.0) + s;
      assert k * (x - y) > 0.0;
      assert v == -(k * (x - y));
      ProductSign(u, v);
      if Quadratic(p, c, y) <= 0.0 { ProductSign(-Quadratic(p, c, y), k); }
    }
  }

  lemma AtRate(p: real, c: real)
    requires 0.0 <= p <= 1.0 && c >= 0.0
    ensures Quadratic(p, c, p) <= 0.0
  {
    ProductSign(p, 1.0 - p);
    ProductSign(c, p * (1.0 - p));
  }

  /** Below the observed rate, the sign of the quadratic tells the side of the bound. */
  lemma SideOfBound(p: real, c: real, s: real, x: real, y: real)
    requires LowerSolution(p, c, s, x) && y <= p
    ensures x <= p
    ensures y < x <==> Quadratic(p, c, y) > 0.0
  {
    BoundIsSmallerRoot(p, c, s, x);
    AtRate(p, c);
    assert x <= p;
    if y >= x { BetweenRootAndRate(p, c, s, x, y); }
  }

  lemma BetweenRootAndRate(p: real, c: real, s: real, x: real, y: real)
    requires LowerSolution(p, c, s, x) && x <= y <= p
    ensures Quadratic(p, c, y) <= 0.0
  {
    var k, a := 1.0 + c, p + c / 2.0;
    QuadraticFactors(p, c, s, y);
    RateBelowUpperRoot(p, c, s);
    ScaleMonotone(k, x, y);
    ScaleMonotone(k, y, p);
    ProductSign(k * y - a - s, k * y - a + s);
    SignOfFactor(k, Quadratic(p, c, y));
  }

  lemma SignOfFactor(k: real, q: real)
    requires k > 0.0 && k * q <= 0.0
    ensures q <= 0.0
  {}

  lemma RateBelowUpperRoot(p: real, c: real, s: real)
    requires 0.0 <= p <= 1.0 && c >= 0.0 && s >= 0.0 && s * s == c * (p * (1.0 - p)) + c * c / 4.0
    ensures (1.0 + c) * p - (p + c / 2.0) <= s
  {
    var t := c * (p - 0.5);
    assert t == (1.0 + c) * p - (p + c / 2.0);
    ProductSign(p, 1.0 - p);
    ProductSign(c, p * (1.0 - p));
    ProductSign(c * c, p * (1.0 - p));
    assert t * t == c * c * ((p - 0.5) * (p - 0.5));
    SquareOfDifference(p, 0.5);
    assert t * t == c * c / 4.0 - c * c * (p * (1.0 - p));
    SquareOrder(t, s);
  }

  lemma SquareOrder(t: real, s: real)
    requires s >= 0.0 && t * t <= s * s
    ensures t <= s
  {
    if t > s { LargerSquare(t, s); }
  }

  lemma LargerSquare(t: real, s: real)
    requires t > s >= 0.0
    ensures t * t > s * s
  {
    assert t * (t - s) > 0.0;
    assert s * (t - s) >= 0.0;
  }

  // ----- the source's formula

  function Rate(successes: nat, total: nat): real
    requires total > 0
  {
    successes as real / total as real
  }

  lemma RateInRange(successes: nat, total: nat)
    requires successes <= total && total > 0
    ensures 0.0 <= Rate(successes, total) <= 1.0
    ensures Rate(successes, total) == 1.0 <==> successes == total
    ensures Rate(successes, total) == 0.0 <==> successes == 0
  {
    QuotientOfAtMost(successes as real, total as real, Rate(successes, total));
  }

  lemma QuotientOfAtMost(x: real, n: real, p: real)
    requires 0.0 <= x <= n && n > 0.0 && p == x / n
    ensures 0.0 <= p <= 1.0 && (p == 1.0 <==> x == n) && (p == 0.0 <==> x == 0.0)
  {
    assert p * n == x;
    assert (1.0 - p) * n == n - x;
    SignOfQuotient(p, n);
    SignOfQuotient(1.0 - p, n);
  }

  lemma SignOfQuotient(p: real, n: real)
    requires n > 0.0
    ensures p * n >= 0.0 <==> p >= 0.0
    ensures p * n == 0.0 <==> p == 0.0
  {}

  /** What the square root is taken of is never negative, so the formula is defined. */
  lemma RadicandNonnegative(successes: nat, total: nat, z: real)
    requires successes <= total && total > 0
    ensures Radicand(Rate(successes, total), total as real, z) >= 0.0
  {
    RateInRange(successes, total);
    var p, n := Rate(successes, total), total as real;
    ProductSign(p, 1.0 - p);
    assert z * z >= 0.0;
    QuotientNonnegative(z * z, 4.0 * n);
    QuotientNonnegative(p * (1.0 - p) + z * z / (4.0 * n), n);
  }

  lemma QuotientNonnegative(x: real, d: real)
    requires x >= 0.0 && d > 0.0
    ensures x / d >= 0.0
  {}

  /** The formula computes the lower solution, with c = z^2/n and s = z times the root. */
  lemma FormulaSolves(successes: nat, total: nat, z: real, sqrt: real -> real) returns (c: real, s: real)
    requires IsSquareRoot(sqrt) && successes <= total && total > 0 && z >= 0.0
    ensures c == z * z / total as real
    ensures LowerSolution(Rate(successes, total), c, s, WilsonLowerBound(successes, total, z, sqrt))
  {
    var p, n := Rate(successes, total), total as real;
    var radicand := Radicand(p, n, z);
    var r := sqrt(radicand);
    RateInRange(successes, total);
    RadicandNonnegative(successes, total, z);
    c, s := z * z / n, z * r;
    assert radicand >= 0.0 && r >= 0.0 && r * r == radicand;
    DenominatorAtLeastOne(z, n);
    assert z * z >= 0.0;
    QuotientNonnegative(z * z, n);
    ProductSign(z, r);
    SolutionForm(p, n, z, r);
  }

  lemma SolutionForm(p: real, n: real, z: real, r: real)
    requires n > 0.0 && r * r == Radicand(p, n, z)
    ensures var c := z * z / n;
      && (z * r) * (z * r) == c * (p * (1.0 - p)) + c * c / 4.0
      && (1.0 + c) * Interval(p, n, z, r) == p + c / 2.0 - z * r
  {
    DenominatorAtLeastOne(z, n);
    SpreadSquared(z * z, n, p * (1.0 - p), r * r);
    SquareOfProduct(z, r);
    CentreForm(p, n, z * z, z * r, Interval(p, n, z, r));
  }

  lemma SquareOfProduct(x: real, y: real)
    ensures (x * y) * (x * y) == x * x * (y * y)
  {}

  lemma SpreadSquared(zz: real, n: real, q: real, rr: real)
    requires n > 0.0 && rr == (q + zz / (4.0 * n)) / n
    ensures zz * rr == zz / n * q + zz / n * (zz / n) / 4.0
  {
    var c := zz / n;
    assert zz / (4.0 * n) == c / 4.0;
    assert zz * rr == c * (q + c / 4.0);
  }

  lemma CentreForm(p: real, n: real, zz: real, spread: real, x: real)
    requires n > 0.0 && 1.0 + zz / n >= 1.0 && x == (p + zz / (2.0 * n) - spread) / (1.0 + zz / n)
    ensures (1.0 + zz / n) * x == p + zz / n / 2.0 - spread
  {
    assert zz / (2.0 * n) == zz / n / 2.0;
  }

  /** The bound is where the observed rate is exactly z standard errors above: the smaller
      root of (p-x)^2 = z^2*x*(1-x)/n. It never exceeds the observed rate and is never
      negative. */
  lemma BoundMeaning(successes: nat, total: nat, z: real, sqrt: real -> real)
    requires IsSquareRoot(sqrt) && successes <= total && total > 0 && z >= 0.0
    ensures var p, c, x := Rate(successes, total), z * z / total as real, WilsonLowerBound(successes, total, z, sqrt);
      && Quadratic(p, c, x) == 0.0
      && (forall y :: y < x ==> Quadratic(p, c, y) > 0.0)
      && 0.0 <= x <= p
  {
    var c, s := FormulaSolves(successes, total, z, sqrt);
    var p, x := Rate(successes, total), WilsonLowerBound(successes, total, z, sqrt);
    BoundIsSmallerRoot(p, c, s, x);
    SideOfBound(p, c, s, x, 0.0);
    SolutionNonnegative(p, c, s, x);
  }

  lemma SolutionNonnegative(p: real, c: real, s: real, x: real)
    requires LowerSolution(p, c, s, x)
    ensures x >= 0.0
  {
    var a := p + c / 2.0;
    assert a * a == p * p + c * p + c * c / 4.0;
    assert c * (p * (1.0 - p)) == c * p - c * (p * p);
    assert p * p >= 0.0;
    ProductSign(c, p * p);
    SquareOrder(s, a);
    if x < 0.0 { ProductSign(1.0 + c, -x); }
  }

  lemma HigherRateHigherBound(p: real, q: real, c: real, s: real, s': real, x: real, x': real)
    requires LowerSolution(p, c, s, x) && LowerSolution(q, c, s', x') && p < q
    ensures x < x'
  {
    BoundIsSmallerRoot(p, c, s, x);
    SideOfBound(p, c, s, x, p);
    HigherRate(p, q, c, x);
    SideOfBound(q, c, s', x', x);
  }

  lemma SmallerErrorHigherBound(p: real, c: real, c': real, s: real, s': real, x: real, x': real)
    requires LowerSolution(p, c, s, x) && LowerSolution(p, c', s', x') && c' < c && p > 0.0
    ensures x < x'
  {
    BoundIsSmallerRoot(p, c, s, x);
    SideOfBound(p, c, s, x, p);
    SolutionNonnegative(p, c, s, x);
    BoundBelowOne(p, c, s, x);
    ZeroIsNoRoot(p, c, x);
    SmallerCoefficient(p, c, c', x);
    SideOfBound(p, c', s', x', x);
  }

  /** At a fixed number of firings the bound strictly rises with the successes. */
  lemma RisesWithSuccesses(a: nat, b: nat, total: nat, z: real, sqrt: real -> real)
    requires IsSquareRoot(sqrt) && a < b <= total && z >= 0.0
    ensures WilsonLowerBound(a, total, z, sqrt) < WilsonLowerBound(b, total, z, sqrt)
  {
    var c, s := FormulaSolves(a, total, z, sqrt);
    var c', s' := FormulaSolves(b, total, z, sqrt);
    RateRises(a, b, total);
    HigherRateHigherBound(Rate(a, total), Rate(b, total), c, s, s',
                          WilsonLowerBound(a, total, z, sqrt), WilsonLowerBound(b, total, z, sqrt));
  }

  lemma RateRises(a: nat, b: nat, total: nat)
    requires a < b && total > 0
    ensures Rate(a, total) < Rate(b, total)
  {
    var n := total as real;
    assert (Rate(b, total) - Rate(a, total)) * n == (b - a) as real;
  }

  lemma HigherRate(p: real, q: real, c: real, x: real)
    requires x <= p < q
    ensures Quadratic(q, c, x) > Quadratic(p, c, x)
  {
    LargerSquare(q - x, p - x);
  }

  /** At a fixed rate above zero the bound strictly rises with the number of firings. */
  lemma RisesWithSamples(a: nat, n: nat, b: nat, m: nat, z: real, sqrt: real -> real)
    requires IsSquareRoot(sqrt) && 0 < a <= n < m && b <= m && Rate(a, n) == Rate(b, m) && z > 0.0
    ensures WilsonLowerBound(a, n, z, sqrt) < WilsonLowerBound(b, m, z, sqrt)
  {
    var c, s := FormulaSolves(a, n, z, sqrt);
    var c', s' := FormulaSolves(b, m, z, sqrt);
    CoefficientFalls(z, n, m);
    RateInRange(a, n);
    SmallerErrorHigherBound(Rate(a, n), c, c', s, s',
                            WilsonLowerBound(a, n, z, sqrt), WilsonLowerBound(b, m, z, sqrt));
  }

  lemma WeakCoefficient(q: real, c: real, c': real, x: real)
    requires c' <= c && 0.0 <= x <= 1.0
    ensures Quadratic(q, c', x) >= Quadratic(q, c, x)
  {
    ProductNonnegative(x, 1.0 - x);
    ScaleMonotone(x * (1.0 - x), c', c);
  }

  lemma BetterHigherBound(p: real, q: real, c: real, c': real, s: real, s': real, x: real, x': real)
    requires LowerSolution(p, c, s, x) && LowerSolution(q, c', s', x')
    requires c' <= c && (p < q || (p == q > 0.0 && c' < c))
    ensures x < x'
  {
    if p < q {
      BoundIsSmallerRoot(p, c, s, x);
      SideOfBound(p, c, s, x, p);
      SolutionNonnegative(p, c, s, x);
      HigherRate(p, q, c, x);
      WeakCoefficient(q, c, c', x);
      SideOfBound(q, c', s', x', x);
    } else {
      SmallerErrorHigherBound(p, c, c', s, s', x, x');
    }
  }

  /** At least as many firings at a higher rate, or more firings at the same positive rate: either
      strictly raises the bound. */
  lemma RisesWithBoth(a: nat, n: nat, b: nat, m: nat, z: real, sqrt: real -> real)
    requires IsSquareRoot(sqrt) && a <= n && b <= m && 0 < n <= m && z > 0.0
    requires Rate(a, n) < Rate(b, m) || (Rate(a, n) == Rate(b, m) > 0.0 && n < m)
    ensures WilsonLowerBound(a, n, z, sqrt) < WilsonLowerBound(b, m, z, sqrt)
  {
    var c, s := FormulaSolves(a, n, z, sqrt);
    var c', s' := FormulaSolves(b, m, z, sqrt);
    if n < m { CoefficientFalls(z, n, m); }
    BetterHigherBound(Rate(a, n), Rate(b, m), c, c', s, s',
                      WilsonLowerBound(a, n, z, sqrt), WilsonLowerBound(b, m, z, sqrt));
  }

  lemma CoefficientFalls(z: real, n: nat, m: nat)
    requires z > 0.0 && 0 < n < m
    ensures z * z / m as real < z * z / n as real
  {
    ProductPositive(z, z, z * z);
    SmallerQuotient(z * z, n as real, m as real);
  }

  lemma SmallerQuotient(x: real, n: real, m: real)
    requires x > 0.0 && 0.0 < n < m
    ensures 0.0 < x / m < x / n
  {
    var a, b := x / n, x / m;
    assert a * n == x && b * m == x;
    assert b > 0.0;
    ProductSign(b, m - n);
    assert (a - b) * n == b * (m - n);
    SignOfQuotient(a - b, n);
  }

  lemma BoundBelowOne(p: real, c: real, s: real, x: real)
    requires p <= 1.0 && c > 0.0 && s >= 0.0 && (1.0 + c) * x == p + c / 2.0 - s
    ensures x < 1.0
  {
    var kx := (1.0 + c) * x;
    assert kx < 1.0 + c;
    if x >= 1.0 { ScaleMonotone(1.0 + c, 1.0, x); }
  }

  lemma ZeroIsNoRoot(p: real, c: real, x: real)
    requires p > 0.0 && Quadratic(p, c, x) == 0.0
    ensures x != 0.0
  {
    var square := p * p;
    ProductPositive(p, p, square);
    assert Quadratic(p, c, 0.0) == square;
  }

  lemma SmallerCoefficient(p: real, c: real, c': real, x: real)
    requires c' < c && 0.0 < x < 1.0
    ensures Quadratic(p, c', x) > Quadratic(p, c, x)
  {
    ProductSign(x, 1.0 - x);
    ScaleStrict(x * (1.0 - x), c', c);
  }

  /** A perfect record of n firings scores n/(n+z^2). */
  lemma PerfectRecord(total: nat, z: real, sqrt: real -> real)
    requires IsSquareRoot(sqrt) && total > 0 && z >= 0.0
    ensures total as real + z * z > 0.0
    ensures WilsonLowerBound(total, total, z, sqrt) == total as real / (total as real + z * z)
  {
    var c, s := FormulaSolves(total, total, z, sqrt);
    RateInRange(total, total);
    assert z * z >= 0.0;
    SquareOrder(s, c / 2.0);
    SquareOrder(c / 2.0, s);
    PerfectForm(total as real, z * z, c, WilsonLowerBound(total, total, z, sqrt));
  }

  lemma PerfectForm(n: real, zz: real, c: real, x: real)
    requires n > 0.0 && zz >= 0.0 && c == zz / n && (1.0 + c) * x == 1.0
    ensures x == n / (n + zz)
  {
    assert n * (1.0 + c) == n + zz;
    assert (n + zz) * x == n * ((1.0 + c) * x) == n;
  }

  /** The purpose named in the source: one success out of one does not beat fifty of sixty. */
  lemma OneOfOneLosesToFiftyOfSixty(sqrt: real -> real)
    requires IsSquareRoot(sqrt)
    ensures WilsonLowerBound(1, 1, Z, sqrt) < WilsonLowerBound(50, 60, Z, sqrt)
  {
    PerfectRecord(1, Z, sqrt);
    var c, s := FormulaSolves(50, 60, Z, sqrt);
    var p, y := Rate(50, 60), WilsonLowerBound(1, 1, Z, sqrt);
    assert y == 1.0 / 4.8416;
    SideOfBound(p, c, s, WilsonLowerBound(50, 60, Z, sqrt), y);
  }
}
