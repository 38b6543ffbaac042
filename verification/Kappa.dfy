/** Cohen's kappa over paired ratings. */
module Kappa {
  import opened Nonlinear
  import opened Sequences

  type Label = string

  datatype Agreement = Kappa(value: real, trustworthy: bool) | UnequalOrEmpty

  /** Positions among the first k where the raters agree. */
  function Agreed(a: seq<Label>, b: seq<Label>, k: nat): nat
    requires k <= |a| == |b|
  {
    if k == 0 then 0 else Agreed(a, b, k - 1) + if a[k - 1] == b[k - 1] then 1 else 0
  }

  /** Occurrences of a label among the first k ratings. */
  function Uses(a: seq<Label>, k: nat, label_: Label): nat
    requires k <= |a|
  {
    if k == 0 then 0 else Uses(a, k - 1, label_) + if a[k - 1] == label_ then 1 else 0
  }

  /** Pairs (i, j), i below k, in which a[i] equals b[j]: agreement by chance, times n*n. */
  function ChanceMatches(a: seq<Label>, b: seq<Label>, k: nat): nat
    requires k <= |a|
  {
    if k == 0 then 0 else ChanceMatches(a, b, k - 1) + Uses(b, |b|, a[k - 1])
  }

  /** Chance-corrected agreement: observed matches against all n*n cross matches. */
  function KappaOf(a: seq<Label>, b: seq<Label>): real
    requires |a| == |b| > 0
  {
    Corrected(|a|, Agreed(a, b, |a|), ChanceMatches(a, b, |a|))
  }

  function Corrected(n: nat, agreed: nat, matches: nat): real {
    if matches == n * n then 1.0 else (n * agreed - matches) as real / (n * n - matches) as real
  }

  // ----- sums over labels

  function LabelSum(labels: seq<Label>, f: Label -> int): int {
    if labels == [] then 0 else LabelSum(labels[..|labels| - 1], f) + f(labels[|labels| - 1])
  }

  /** A duplicate-free list of every label either rater used. */
  ghost predicate Covers(labels: seq<Label>, a: seq<Label>, b: seq<Label>) {
    Distinct(labels) && (forall i :: 0 <= i < |a| ==> a[i] in labels) && (forall i :: 0 <= i < |b| ==> b[i] in labels)
  }

  lemma {:induction false} LabelSumAdds(labels: seq<Label>, f: Label -> int, g: Label -> int, h: Label -> int)
    requires forall x :: h(x) == f(x) + g(x)
    ensures LabelSum(labels, h) == LabelSum(labels, f) + LabelSum(labels, g)
  {
    if labels != [] { LabelSumAdds(labels[..|labels| - 1], f, g, h); }
  }

  lemma {:induction false} LabelSumOrder(labels: seq<Label>, f: Label -> int, g: Label -> int)
    requires forall x :: f(x) <= g(x)
    ensures LabelSum(labels, f) <= LabelSum(labels, g)
  {
    if labels != [] { LabelSumOrder(labels[..|labels| - 1], f, g); }
  }

  lemma {:induction false} LabelSumAt(labels: seq<Label>, x: Label, f: Label -> int)
    requires Distinct(labels) && forall y :: y != x ==> f(y) == 0
    ensures LabelSum(labels, f) == if x in labels then f(x) else 0
  {
    if labels != [] {
      var init, last := labels[..|labels| - 1], labels[|labels| - 1];
      LabelSumAt(init, x, f);
      assert labels == init + [last] && last !in init;
    }
  }

  lemma {:induction false} LabelSumZero(labels: seq<Label>, f: Label -> int)
    requires forall x :: f(x) == 0
    ensures LabelSum(labels, f) == 0
  {
    if labels != [] { LabelSumZero(labels[..|labels| - 1], f); }
  }

  function UsesOf(a: seq<Label>, k: nat): Label -> int
    requires k <= |a|
  {
    x => Uses(a, k, x)
  }

  function ProductsOf(a: seq<Label>, b: seq<Label>, k: nat): Label -> int
    requires k <= |a|
  {
    x => Uses(a, k, x) * Uses(b, |b|, x)
  }

  function Both(a: seq<Label>, b: seq<Label>, k: nat, x: Label): nat
    requires k <= |a| == |b|
  {
    if k == 0 then 0 else Both(a, b, k - 1, x) + if a[k - 1] == x && b[k - 1] == x then 1 else 0
  }

  function BothOf(a: seq<Label>, b: seq<Label>, k: nat): Label -> int
    requires k <= |a| == |b|
  {
    x => Both(a, b, k, x)
  }

  lemma {:induction false} TotalUses(labels: seq<Label>, a: seq<Label>, k: nat)
    requires k <= |a| && Distinct(labels) && forall i :: 0 <= i < |a| ==> a[i] in labels
    ensures LabelSum(labels, UsesOf(a, k)) == k
  {
    if k == 0 {
      LabelSumZero(labels, UsesOf(a, 0));
    } else {
      TotalUses(labels, a, k - 1);
      var here := x => if x == a[k - 1] then 1 else 0;
      LabelSumAt(labels, a[k - 1], here);
      LabelSumAdds(labels, UsesOf(a, k - 1), here, UsesOf(a, k));
    }
  }

  lemma {:induction false} TotalBoth(labels: seq<Label>, a: seq<Label>, b: seq<Label>, k: nat)
    requires k <= |a| == |b| && Covers(labels, a, b)
    ensures LabelSum(labels, BothOf(a, b, k)) == Agreed(a, b, k)
  {
    if k == 0 {
      LabelSumZero(labels, BothOf(a, b, 0));
    } else {
      TotalBoth(labels, a, b, k - 1);
      var here := x => if x == a[k - 1] && x == b[k - 1] then 1 else 0;
      LabelSumAt(labels, a[k - 1], here);
      LabelSumAdds(labels, BothOf(a, b, k - 1), here, BothOf(a, b, k));
    }
  }

  /** The source's per-label products count the cross matches, whatever the label order. */
  lemma {:induction false} ProductsCountMatches(labels: seq<Label>, a: seq<Label>, b: seq<Label>, k: nat)
    requires k <= |a| && Covers(labels, a, b)
    ensures LabelSum(labels, ProductsOf(a, b, k)) == ChanceMatches(a, b, k)
  {
    if k == 0 {
      LabelSumZero(labels, ProductsOf(a, b, 0));
    } else {
      ProductsCountMatches(labels, a, b, k - 1);
      var here := x => if x == a[k - 1] then Uses(b, |b|, x) else 0;
      LabelSumAt(labels, a[k - 1], here);
      forall x ensures ProductsOf(a, b, k)(x) == ProductsOf(a, b, k - 1)(x) + here(x) {
        ProductNext(Uses(a, k - 1, x), Uses(b, |b|, x));
      }
      LabelSumAdds(labels, ProductsOf(a, b, k - 1), here, ProductsOf(a, b, k));
    }
  }

  lemma ProductNext(u: nat, v: nat)
    ensures (u + 1) * v == u * v + v
  {}

  // ----- bounds

  lemma {:induction false} BothBounds(a: seq<Label>, b: seq<Label>, k: nat, x: Label)
    requires k <= |a| == |b|
    ensures Uses(a, k, x) <= k && Uses(b, k, x) <= k
    ensures Both(a, b, k, x) >= Uses(a, k, x) + Uses(b, k, x) - k
  {
    if k > 0 { BothBounds(a, b, k - 1, x); }
  }

  /** For one label used u and v times out of n and jointly w >= max(0, u+v-n) times. */
  lemma LabelInequality(u: nat, v: nat, w: nat, n: nat)
    requires u <= n && v <= n && w >= u + v - n
    ensures 4 * (u * v) <= n * (u + v) + 2 * (n * w)
  {
    var s := u + v;
    SquareSum(u, v);
    if s <= n {
      MulMonotone(s, s, n);
      MulNonnegative(n, w);
    } else {
      MulNonnegative(s - n, 2 * n - s);
      assert (s - n) * (2 * n - s) == 3 * (n * s) - s * s - 2 * (n * n);
      MulMonotone(n, s - n, w);
      assert n * (s - n) == n * s - n * n;
    }
  }

  lemma SquareSum(u: nat, v: nat)
    ensures 4 * (u * v) <= (u + v) * (u + v)
  {
    var d := u - v;
    assert (u + v) * (u + v) == d * d + 4 * (u * v);
    assert d * d >= 0;
  }

  function Multiple(c: int, f: Label -> int): Label -> int { x => c * f(x) }

  lemma {:induction false} LabelSumScaled(labels: seq<Label>, c: int, f: Label -> int)
    ensures LabelSum(labels, Multiple(c, f)) == c * LabelSum(labels, f)
  {
    if labels != [] { LabelSumScaled(labels[..|labels| - 1], c, f); }
  }

  function Added(f: Label -> int, g: Label -> int): Label -> int { x => f(x) + g(x) }

  /** n*(u+v) + 2*n*w, label by label */
  function Ceiling(a: seq<Label>, b: seq<Label>): Label -> int
    requires |a| == |b|
  {
    Added(Multiple(|a|, Added(UsesOf(a, |a|), UsesOf(b, |a|))), Multiple(2 * |a|, BothOf(a, b, |a|)))
  }

  lemma ProductBelowCeiling(a: seq<Label>, b: seq<Label>, x: Label)
    requires |a| == |b|
    ensures Multiple(4, ProductsOf(a, b, |a|))(x) <= Ceiling(a, b)(x)
  {
    var n := |a|;
    var u, v, w := Uses(a, n, x), Uses(b, n, x), Both(a, b, n, x);
    BothBounds(a, b, n, x);
    LabelInequality(u, v, w, n);
    assert 2 * n * w == 2 * (n * w);
  }

  lemma CeilingTotal(labels: seq<Label>, a: seq<Label>, b: seq<Label>)
    requires |a| == |b| && Covers(labels, a, b)
    ensures LabelSum(labels, Ceiling(a, b)) == |a| * (2 * |a|) + 2 * |a| * Agreed(a, b, |a|)
  {
    var n := |a|;
    var uses := Added(UsesOf(a, n), UsesOf(b, n));
    LabelSumAdds(labels, UsesOf(a, n), UsesOf(b, n), uses);
    TotalUses(labels, a, n);
    TotalUses(labels, b, n);
    TotalBoth(labels, a, b, n);
    LabelSumScaled(labels, n, uses);
    LabelSumScaled(labels, 2 * n, BothOf(a, b, n));
    LabelSumAdds(labels, Multiple(n, uses), Multiple(2 * n, BothOf(a, b, n)), Ceiling(a, b));
  }

  /** Chance agreement is at most halfway between observed and full agreement. */
  lemma MatchesBound(labels: seq<Label>, a: seq<Label>, b: seq<Label>)
    requires |a| == |b| && Covers(labels, a, b)
    ensures 2 * ChanceMatches(a, b, |a|) <= |a| * |a| + |a| * Agreed(a, b, |a|)
  {
    var products := ProductsOf(a, b, |a|);
    ProductsBelowCeiling(a, b);
    LabelSumOrder(labels, Multiple(4, products), Ceiling(a, b));
    LabelSumScaled(labels, 4, products);
    ProductsCountMatches(labels, a, b, |a|);
    CeilingTotal(labels, a, b);
    HalfTheBound(|a|, Agreed(a, b, |a|), ChanceMatches(a, b, |a|));
  }

  lemma ProductsBelowCeiling(a: seq<Label>, b: seq<Label>)
    requires |a| == |b|
    ensures forall x :: Multiple(4, ProductsOf(a, b, |a|))(x) <= Ceiling(a, b)(x)
  {
    forall x ensures Multiple(4, ProductsOf(a, b, |a|))(x) <= Ceiling(a, b)(x) {
      ProductBelowCeiling(a, b, x);
    }
  }

  lemma HalfTheBound(n: nat, agreed: nat, matches: nat)
    requires 4 * matches <= n * (2 * n) + 2 * n * agreed
    ensures 2 * matches <= n * n + n * agreed
  {
    assert n * (2 * n) == 2 * (n * n) && 2 * n * agreed == 2 * (n * agreed);
  }

  lemma {:induction false} AgreedRange(a: seq<Label>, b: seq<Label>, k: nat)
    requires k <= |a| == |b|
    ensures Agreed(a, b, k) <= k
    ensures Agreed(a, b, k) == k <==> a[..k] == b[..k]
  {
    if k > 0 {
      AgreedRange(a, b, k - 1);
      assert a[..k] == a[..k - 1] + [a[k - 1]] && b[..k] == b[..k - 1] + [b[k - 1]];
    }
  }

  lemma {:induction false} UsesAll(b: seq<Label>, k: nat, x: Label)
    requires k <= |b|
    ensures Uses(b, k, x) <= k
    ensures Uses(b, k, x) == k <==> forall j :: 0 <= j < k ==> b[j] == x
  {
    if k > 0 { UsesAll(b, k - 1, x); }
  }

  lemma {:induction false} MatchesFull(a: seq<Label>, b: seq<Label>, k: nat)
    requires k <= |a|
    ensures ChanceMatches(a, b, k) <= k * |b|
    ensures ChanceMatches(a, b, k) == k * |b| <==> forall i, j :: 0 <= i < k && 0 <= j < |b| ==> a[i] == b[j]
  {
    if k > 0 {
      MatchesFull(a, b, k - 1);
      UsesAll(b, |b|, a[k - 1]);
      assert k * |b| == (k - 1) * |b| + |b|;
    }
  }

  ghost predicate OneCommonLabel(a: seq<Label>, b: seq<Label>) {
    exists x :: Constant(a, x) && Constant(b, x)
  }

  ghost predicate Constant(a: seq<Label>, x: Label) {
    forall i :: 0 <= i < |a| ==> a[i] == x
  }

  /** The denominator vanishes exactly when both raters use one common label throughout. */
  lemma DenominatorZero(a: seq<Label>, b: seq<Label>)
    requires |a| == |b| > 0
    ensures ChanceMatches(a, b, |a|) == |a| * |a| <==> OneCommonLabel(a, b)
    ensures OneCommonLabel(a, b) ==> a == b
  {
    MatchesFull(a, b, |a|);
    if ChanceMatches(a, b, |a|) == |a| * |a| {
      var x := b[0];
      assert Constant(a, x);
      assert forall j :: 0 <= j < |b| ==> a[0] == b[j];
      assert Constant(b, x);
    }
  }

  /** Kappa lies in [-1, 1] and is 1 exactly on full agreement. */
  lemma KappaRange(a: seq<Label>, b: seq<Label>)
    requires |a| == |b| > 0
    ensures -1.0 <= KappaOf(a, b) <= 1.0
    ensures KappaOf(a, b) == 1.0 <==> a == b
  {
    var n, labels := |a|, Unique(a + b);
    UniqueElements(a + b);
    assert Covers(labels, a, b) by {
      assert forall i :: 0 <= i < |a| ==> (a + b)[i] == a[i];
      assert forall i :: 0 <= i < |b| ==> (a + b)[|a| + i] == b[i];
    }
    MatchesBound(labels, a, b);
    AgreedRange(a, b, n);
    assert a[..n] == a && b[..n] == b;
    MatchesFull(a, b, n);
    DenominatorZero(a, b);
    CorrectedRange(n, Agreed(a, b, n), ChanceMatches(a, b, n));
  }

  lemma CorrectedRange(n: nat, agreed: nat, matches: nat)
    requires n > 0 && agreed <= n && matches <= n * n && 2 * matches <= n * n + n * agreed
    requires matches == n * n ==> agreed == n
    ensures -1.0 <= Corrected(n, agreed, matches) <= 1.0
    ensures Corrected(n, agreed, matches) == 1.0 <==> agreed == n
  {
    MulCancel(n, agreed, n);
    if matches != n * n { RatioRange(n * agreed - matches, n * n - matches); }
  }

  lemma RatioRange(x: int, d: int)
    requires d > 0 && -d <= x <= d
    ensures -1.0 <= x as real / d as real <= 1.0
    ensures x as real / d as real == 1.0 <==> x == d
  {
    QuotientOfWhole(d as real);
    QuotientOrder(x as real, d as real, d as real);
    QuotientOrder(-(d as real), x as real, d as real);
  }

  lemma {:induction false} MatchesSwap(a: seq<Label>, b: seq<Label>, k: nat)
    requires k <= |a|
    ensures ChanceMatches(b, a[..k], |b|) == ChanceMatches(a, b, k)
  {
    if k == 0 {
      NoMatches(b, |b|, a[..0]);
    } else {
      MatchesSwap(a, b, k - 1);
      assert a[..k] == a[..k - 1] + [a[k - 1]];
      MatchesSnoc(b, |b|, a[..k - 1], a[k - 1]);
    }
  }

  lemma {:induction false} NoMatches(b: seq<Label>, k: nat, none: seq<Label>)
    requires k <= |b| && none == []
    ensures ChanceMatches(b, none, k) == 0
  {
    if k > 0 { NoMatches(b, k - 1, none); }
  }

  lemma {:induction false} MatchesSnoc(b: seq<Label>, k: nat, s: seq<Label>, x: Label)
    requires k <= |b|
    ensures ChanceMatches(b, s + [x], k) == ChanceMatches(b, s, k) + Uses(b, k, x)
  {
    if k > 0 {
      MatchesSnoc(b, k - 1, s, x);
      UsesPrefix(s, x, |s|, b[k - 1]);
    }
  }

  lemma {:induction false} UsesPrefix(s: seq<Label>, x: Label, k: nat, y: Label)
    requires k <= |s|
    ensures Uses(s + [x], k, y) == Uses(s, k, y)
  {
    if k > 0 { UsesPrefix(s, x, k - 1, y); }
  }

  lemma {:induction false} AgreedSymmetric(a: seq<Label>, b: seq<Label>, k: nat)
    requires k <= |a| == |b|
    ensures Agreed(a, b, k) == Agreed(b, a, k)
  {
    if k > 0 { AgreedSymmetric(a, b, k - 1); }
  }

  /** Swapping the raters does not change kappa. */
  lemma KappaSymmetric(a: seq<Label>, b: seq<Label>)
    requires |a| == |b| > 0
    ensures KappaOf(a, b) == KappaOf(b, a)
  {
    MatchesSwap(a, b, |a|);
    assert a[..|a|] == a;
    AgreedSymmetric(a, b, |a|);
  }

  // ----- the source's loop

  method CollectLabels(a: seq<Label>, b: seq<Label>) returns (labels: seq<Label>)
    ensures Covers(labels, a, b)
  {
    var rest := (set x | x in a) + (set x | x in b);
    labels := [];
    while rest != {}
      invariant Distinct(labels) && forall i :: 0 <= i < |labels| ==> labels[i] !in rest
      invariant forall i :: 0 <= i < |a| ==> a[i] in labels || a[i] in rest
      invariant forall i :: 0 <= i < |b| ==> b[i] in labels || b[i] in rest
    {
      var x :| x in rest;
      labels, rest := labels + [x], rest - {x};
    }
  }

  /** One label's contribution: the product of the two raters' usage rates. */
  function RateProduct(u: nat, v: nat, n: nat): real
    requires n > 0
  {
    (u as real / n as real) * (v as real / n as real)
  }

  lemma RateProductScaled(u: nat, v: nat, n: nat)
    requires n > 0
    ensures (n * n) as real * RateProduct(u, v, n) == (u * v) as real
  {
    var d, x, y := n as real, u as real / n as real, v as real / n as real;
    assert d * x == u as real && d * y == v as real;
    RealProduct(u, v);
    RealProduct(n, n);
    assert (d * d) * (x * y) == (d * x) * (d * y);
  }

  lemma AddScaled(d: real, e: real, t: real, sum: int, product: int)
    requires d * e == sum as real && d * t == product as real
    ensures d * (e + t) == (sum + product) as real
  {
    Distribute(d, e, t);
  }

  /** Multiplying through by n*n turns the source's quotient into Corrected's. */
  lemma QuotientForms(agreed: nat, matches: nat, n: nat, expected: real)
    requires n > 0 && (n * n) as real * expected == matches as real
    ensures 1.0 - expected == 0.0 <==> matches == n * n
    ensures (if 1.0 - expected == 0.0 then 1.0 else (agreed as real / n as real - expected) / (1.0 - expected))
         == Corrected(n, agreed, matches)
  {
    var d, po := (n * n) as real, agreed as real / n as real;
    RealProduct(n, n);
    RealProduct(n, agreed);
    MultiplyThrough(n as real, agreed as real, matches as real, expected, d, po);
    if matches != n * n { SameQuotient(po - expected, 1.0 - expected, d); }
  }

  lemma MultiplyThrough(n: real, agreed: real, matches: real, expected: real, d: real, po: real)
    requires n > 0.0 && d == n * n && d * expected == matches && po == agreed / n
    ensures d > 0.0 && d * (1.0 - expected) == d - matches && d * (po - expected) == n * agreed - matches
    ensures 1.0 - expected == 0.0 <==> d == matches
  {
    ProductPositive(n, n, d);
    Distribute(d, 1.0, expected);
    Distribute(d, po, expected);
    QuotientIs(po, agreed, n);
    Associate(n, n, po);
    ScaleCancel(d, 1.0, expected);
  }

  method CohensKappa(a: seq<Label>, b: seq<Label>) returns (r: Agreement)
    ensures r == UnequalOrEmpty <==> |a| != |b| || |a| == 0
    ensures r.Kappa? ==> r.value == KappaOf(a, b) && (r.trustworthy <==> KappaOf(a, b) >= 0.6)
  {
    if |a| != |b| || |a| == 0 { return UnequalOrEmpty; }
    var agreed := 0;
    for k := 0 to |a|
      invariant agreed == Agreed(a, b, k)
    {
      if a[k] == b[k] { agreed := agreed + 1; }
    }
    var expected := ExpectedOf(a, b, (|a| * |a|) as real);
    QuotientForms(agreed, ChanceMatches(a, b, |a|), |a|, expected);
    var denominator := 1.0 - expected;
    var kappa := if denominator == 0.0 then 1.0 else (agreed as real / |a| as real - expected) / denominator;
    r := Kappa(kappa, kappa >= 0.6);
  }

  function RatesOf(a: seq<Label>, b: seq<Label>): Label -> real
    requires |a| == |b| > 0
  {
    x => RateProduct(Uses(a, |a|, x), Uses(b, |b|, x), |a|)
  }

  ghost predicate Scales(d: real, rate: Label -> real, count: Label -> int) {
    forall x :: d * rate(x) == count(x) as real
  }

  lemma RateScales(a: seq<Label>, b: seq<Label>, x: Label, d: real)
    requires |a| == |b| > 0 && d == (|a| * |a|) as real
    ensures d * RatesOf(a, b)(x) == ProductsOf(a, b, |a|)(x) as real
  {
    RateProductScaled(Uses(a, |a|, x), Uses(b, |b|, x), |a|);
  }

  lemma RatesScale(a: seq<Label>, b: seq<Label>, d: real)
    requires |a| == |b| > 0 && d == (|a| * |a|) as real
    ensures Scales(d, RatesOf(a, b), ProductsOf(a, b, |a|))
  {
    forall x ensures d * RatesOf(a, b)(x) == ProductsOf(a, b, |a|)(x) as real {
      RateScales(a, b, x, d);
    }
  }

  method ExpectedOf(a: seq<Label>, b: seq<Label>, ghost d: real) returns (expected: real)
    requires |a| == |b| > 0 && d == (|a| * |a|) as real
    ensures d * expected == ChanceMatches(a, b, |a|) as real
  {
    var labels := CollectLabels(a, b);
    RatesScale(a, b, d);
    expected := ExpectedAgreement(labels, RatesOf(a, b), ProductsOf(a, b, |a|), d);
    ProductsCountMatches(labels, a, b, |a|);
  }

  /** The loop over the labels, in any order: scaled by d it adds up the counts. */
  method ExpectedAgreement(labels: seq<Label>, rate: Label -> real, ghost count: Label -> int, ghost d: real)
      returns (expected: real)
    requires Scales(d, rate, count)
    ensures d * expected == LabelSum(labels, count) as real
  {
    expected := 0.0;
    for k := 0 to |labels|
      invariant d * expected == LabelSum(labels[..k], count) as real
    {
      AddScaled(d, expected, rate(labels[k]), LabelSum(labels[..k], count), count(labels[k]));
      assert labels[..k + 1][..k] == labels[..k];
      expected := expected + rate(labels[k]);
    }
    assert labels[..|labels|] == labels;
  }
}
