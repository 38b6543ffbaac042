/** The tool-concentration metric: the sorted-index Gini formula and what it measures. */
module Gini {
  import opened Nonlinear
  import opened Wrappers
  import opened Sequences

  predicate Less(a: nat, b: nat) { a < b }

  function Total(counts: seq<nat>): nat {
    if counts == [] then 0 else counts[0] + Total(counts[1..])
  }

  /** sum((i + k) * c for i, c in enumerate(counts)) */
  function Weighted(counts: seq<nat>, k: nat): nat {
    if counts == [] then 0 else k * counts[0] + Weighted(counts[1..], k + 1)
  }

  ghost predicate Positive(counts: seq<nat>) {
    forall i :: 0 <= i < |counts| ==> counts[i] > 0
  }

  ghost predicate AllEqual(counts: seq<nat>) {
    forall i, j :: 0 <= i < |counts| && 0 <= j < |counts| ==> counts[i] == counts[j]
  }

  function MetricGini(counts: seq<nat>): Option<real>
    requires Positive(counts)
  {
    if |counts| < 2 then None
    else
      var sorted := Sort(counts, Less);
      SortPermutes(counts, Less);
      TotalSort(counts);
      TotalPositive(counts);
      Some(Formula(Weighted(sorted, 1), |counts|, Total(sorted)))
  }

  /** (2 * cumsum) / (n * total) - (n + 1) / n */
  function Formula(cumsum: nat, n: nat, total: nat): real
    requires n > 0 && total > 0
  {
    ProductPositive(n as real, total as real, n as real * total as real);
    (2 * cumsum) as real / (n as real * total as real) - (n + 1) as real / n as real
  }

  lemma {:induction false} TotalPositive(counts: seq<nat>)
    requires counts != [] && Positive(counts)
    ensures Total(counts) > 0
  {}

  // ----- the pairwise definition

  function Difference(a: nat, b: nat): nat { if a < b then b - a else a - b }

  /** Sum of |x - c| over all c in counts. */
  function GapTo(x: nat, counts: seq<nat>): nat {
    if counts == [] then 0 else Difference(x, counts[0]) + GapTo(x, counts[1..])
  }

  /** Sum of |x - c| over all x in xs and c in counts. */
  function AllGaps(xs: seq<nat>, counts: seq<nat>): nat {
    if xs == [] then 0 else GapTo(xs[0], counts) + AllGaps(xs[1..], counts)
  }

  /** Sum of |ci - cj| over all ordered pairs. */
  function Pairwise(counts: seq<nat>): nat { AllGaps(counts, counts) }

  lemma {:induction false} AllGapsFirst(xs: seq<nat>, c: nat, rest: seq<nat>)
    ensures AllGaps(xs, [c] + rest) == GapTo(c, xs) + AllGaps(xs, rest)
  {
    if xs != [] {
      AllGapsFirst(xs[1..], c, rest);
      assert ([c] + rest)[1..] == rest;
    }
  }

  lemma PairwiseFirst(c: nat, rest: seq<nat>)
    ensures Pairwise([c] + rest) == Pairwise(rest) + 2 * GapTo(c, rest)
  {
    assert ([c] + rest)[1..] == rest;
    AllGapsFirst(rest, c, rest);
  }

  lemma {:induction false} GapToInsert(x: nat, c: nat, counts: seq<nat>)
    ensures GapTo(x, Insert(c, counts, Less)) == Difference(x, c) + GapTo(x, counts)
  {
    if counts != [] && Less(counts[0], c) {
      GapToInsert(x, c, counts[1..]);
    }
    assert ([c] + counts)[1..] == counts;
  }

  lemma {:induction false} PairwiseInsert(c: nat, counts: seq<nat>)
    ensures Pairwise(Insert(c, counts, Less)) == Pairwise([c] + counts)
  {
    if counts != [] && Less(counts[0], c) {
      PairwiseInsert(c, counts[1..]);
      PairwiseFirst(counts[0], Insert(c, counts[1..], Less));
      PairwiseFirst(c, counts);
      PairwiseFirst(c, counts[1..]);
      PairwiseFirst(counts[0], counts[1..]);
      GapToInsert(counts[0], c, counts[1..]);
      assert counts == [counts[0]] + counts[1..];
    }
  }

  /** The pairwise sum does not depend on the order of the counts. */
  lemma {:induction false} PairwiseSort(counts: seq<nat>)
    ensures Pairwise(Sort(counts, Less)) == Pairwise(counts)
  {
    if counts != [] {
      var rest := Sort(counts[1..], Less);
      PairwiseSort(counts[1..]);
      PairwiseInsert(counts[0], rest);
      PairwiseFirst(counts[0], rest);
      PairwiseFirst(counts[0], counts[1..]);
      GapToSort(counts[0], counts[1..]);
      assert counts == [counts[0]] + counts[1..];
    }
  }

  lemma {:induction false} GapToSort(x: nat, counts: seq<nat>)
    ensures GapTo(x, Sort(counts, Less)) == GapTo(x, counts)
  {
    if counts != [] {
      GapToSort(x, counts[1..]);
      GapToInsert(x, counts[0], Sort(counts[1..], Less));
    }
  }

  lemma {:induction false} TotalInsert(c: nat, counts: seq<nat>)
    ensures Total(Insert(c, counts, Less)) == c + Total(counts)
  {
    if counts != [] && Less(counts[0], c) { TotalInsert(c, counts[1..]); }
    assert ([c] + counts)[1..] == counts;
  }

  lemma {:induction false} TotalSort(counts: seq<nat>)
    ensures Total(Sort(counts, Less)) == Total(counts)
  {
    if counts != [] {
      TotalSort(counts[1..]);
      TotalInsert(counts[0], Sort(counts[1..], Less));
    }
  }

  // ----- the sorted-index formula

  lemma {:induction false} WeightedShift(counts: seq<nat>, k: nat)
    ensures Weighted(counts, k + 1) == Weighted(counts, k) + Total(counts)
  {
    if counts != [] { WeightedShift(counts[1..], k + 1); }
  }

  lemma {:induction false} GapToSmallest(x: nat, counts: seq<nat>)
    requires forall i :: 0 <= i < |counts| ==> x <= counts[i]
    ensures GapTo(x, counts) == Total(counts) - |counts| * x
  {
    if counts != [] {
      GapToSmallest(x, counts[1..]);
    }
  }

  /** On sorted counts the index-weighted sum yields half the pairwise sum. */
  lemma {:induction false} SortedFormula(counts: seq<nat>)
    requires Sorted(counts, Less)
    ensures 2 * (2 * Weighted(counts, 1) - (|counts| + 1) * Total(counts)) == Pairwise(counts)
  {
    if counts != [] {
      var c, rest := counts[0], counts[1..];
      forall i | 0 <= i < |rest| ensures c <= rest[i] {
        assert !Less(counts[i + 1], counts[0]);
      }
      SortedFormula(rest);
      GapToSmallest(c, rest);
      PairwiseFirst(c, rest);
      assert counts == [c] + rest;
      WeightedShift(rest, 1);
      Widened(|rest|, c, Total(rest));
    }
  }

  lemma Widened(n: int, c: int, total: int)
    ensures (n + 2) * (c + total) == (n + 1) * total + total + n * c + 2 * c
  {}

  lemma {:induction false} GapToBelowTotal(x: nat, counts: seq<nat>)
    requires Positive(counts)
    requires counts != [] && x > 0
    ensures GapTo(x, counts) < Total(counts) + (|counts| - 1) * x + x
  {
    if |counts| > 1 { GapToBelowTotal(x, counts[1..]); }
  }

  /** The pairwise sum of positive counts stays below its limit 2*(n-1)*total. */
  lemma {:induction false} PairwiseBelowLimit(counts: seq<nat>)
    requires |counts| >= 2 && Positive(counts)
    ensures Pairwise(counts) < 2 * (|counts| - 1) * Total(counts)
  {
    var c, rest := counts[0], counts[1..];
    assert counts == [c] + rest;
    PairwiseFirst(c, rest);
    GapToBelowTotal(c, rest);
    if |rest| >= 2 {
      PairwiseBelowLimit(rest);
    } else {
      assert rest == [rest[0]] + [];
      PairwiseFirst(rest[0], []);
    }
    LimitStep(|rest|, c, Total(rest));
  }

  lemma LimitStep(m: nat, c: nat, t: nat)
    requires m >= 1
    ensures 2 * (m - 1) * t + 2 * (t + (m - 1) * c + c) == 2 * m * (c + t)
  {}

  lemma {:induction false} GapToZero(x: nat, counts: seq<nat>)
    ensures GapTo(x, counts) == 0 <==> forall i :: 0 <= i < |counts| ==> counts[i] == x
  {
    if counts != [] {
      GapToZero(x, counts[1..]);
      assert forall i :: 0 < i < |counts| ==> counts[i] == counts[1..][i - 1];
    }
  }

  lemma {:induction false} PairwiseZero(counts: seq<nat>)
    ensures Pairwise(counts) == 0 <==> AllEqual(counts)
  {
    if counts != [] {
      assert counts == [counts[0]] + counts[1..];
      PairwiseFirst(counts[0], counts[1..]);
      PairwiseZero(counts[1..]);
      GapToZero(counts[0], counts[1..]);
      assert forall i :: 0 < i < |counts| ==> counts[i] == counts[1..][i - 1];
    }
  }

  // ----- the metric

  /** Clearing the denominators of the source's formula. */
  lemma ClearDenominators(w: nat, n: nat, t: nat)
    requires n > 0 && t > 0
    ensures Formula(w, n, t) * (n * t) as real == (2 * w - (n + 1) * t) as real
  {
    var nr, tr := n as real, t as real;
    RealProduct(n, t);
    RealProduct(n + 1, t);
    ProductPositive(nr, tr, nr * tr);
    ClearReal((2 * w) as real, (n + 1) as real, nr, tr, nr * tr);
  }

  lemma ClearReal(x: real, y: real, n: real, t: real, d: real)
    requires n > 0.0 && d == n * t && d > 0.0
    ensures (x / d - y / n) * d == x - y * t
  {
    var a, b := x / d, y / n;
    assert a * d == x && b * n == y;
    assert b * d == b * n * t;
    assert (a - b) * d == a * d - b * d;
  }

  lemma UnsortedFormula(counts: seq<nat>)
    ensures 2 * (2 * Weighted(Sort(counts, Less), 1) - (|counts| + 1) * Total(counts)) == Pairwise(counts)
  {
    SortPermutes(counts, Less);
    SortSorted(counts, Less);
    TotalSort(counts);
    PairwiseSort(counts);
    SortedFormula(Sort(counts, Less));
  }

  lemma MetricIsFormula(counts: seq<nat>)
    requires |counts| >= 2 && Positive(counts)
    ensures Total(counts) > 0
    ensures MetricGini(counts) == Some(Formula(Weighted(Sort(counts, Less), 1), |counts|, Total(counts)))
  {
    TotalPositive(counts);
    TotalSort(counts);
  }

  /** The source's formula is the textbook definition, sum |ci - cj| / (2 * n * total), and so
      independent of the order in which the counts arrive. */
  lemma GiniIsPairwise(counts: seq<nat>)
    requires |counts| >= 2 && Positive(counts)
    ensures Total(counts) > 0
    ensures MetricGini(counts) == Some(Ratio(Pairwise(counts), 2 * (|counts| * Total(counts))))
  {
    TotalPositive(counts);
    UnsortedFormula(counts);
    MetricIsFormula(counts);
    FormulaIsRatio(Weighted(Sort(counts, Less), 1), |counts|, Total(counts), Pairwise(counts));
  }

  /** For positive counts the metric lies in [0, (n-1)/n), and is 0 only for equal counts. */
  lemma GiniRange(counts: seq<nat>)
    requires |counts| >= 2 && Positive(counts)
    ensures MetricGini(counts).Some?
    ensures 0.0 <= MetricGini(counts).value < (|counts| - 1) as real / |counts| as real
    ensures MetricGini(counts).value == 0.0 <==> AllEqual(counts)
  {
    GiniIsPairwise(counts);
    PairwiseBelowLimit(counts);
    PairwiseZero(counts);
    TotalPositive(counts);
    RangeOfRatio(Pairwise(counts), |counts|, Total(counts));
  }

  lemma FormulaIsRatio(w: nat, n: nat, t: nat, p: nat)
    requires n > 0 && t > 0 && 2 * (2 * w - (n + 1) * t) == p
    ensures n * t > 0
    ensures Formula(w, n, t) == Ratio(p, 2 * (n * t))
  {
    assert n * t > 0;
    var f := 2 * w - (n + 1) * t;
    ClearDenominators(w, n, t);
    DoubleBoth(Formula(w, n, t), n * t, f);
    IsRatio(Formula(w, n, t), p as real, (2 * (n * t)) as real);
  }

  lemma IsRatio(g: real, p: real, d: real)
    requires d > 0.0 && g * d == p
    ensures g == p / d
  {}

  function Ratio(p: nat, d: nat): real
    requires d > 0
  {
    p as real / d as real
  }

  lemma DoubleBoth(g: real, d: nat, f: int)
    requires g * d as real == f as real
    ensures g * (2 * d) as real == (2 * f) as real
  {
    assert (2 * d) as real == 2.0 * d as real;
    assert g * (2.0 * d as real) == 2.0 * (g * d as real);
  }

  lemma RangeOfRatio(p: nat, n: nat, t: nat)
    requires n >= 2 && t > 0 && p < 2 * (n - 1) * t
    ensures n * t > 0
    ensures 0.0 <= Ratio(p, 2 * (n * t)) < (n - 1) as real / n as real
    ensures Ratio(p, 2 * (n * t)) == 0.0 <==> p == 0
  {
    assert n * t > 0;
    var nr, tr, d := n as real, t as real, 2 * (n * t);
    var g := Ratio(p, d);
    SignOfProduct(g, d as real);
    assert 2 * (n - 1) * t == 2 * ((n - 1) * t);
    RealProduct(n - 1, t);
    RealProduct(n, t);
    BelowLimit(g, p as real, nr, tr);
    BelowQuotient(g, nr, (n - 1) as real);
  }

  lemma BelowLimit(g: real, p: real, n: real, t: real)
    requires t > 0.0 && g * (2.0 * (n * t)) == p && p < 2.0 * ((n - 1.0) * t)
    ensures g * n < n - 1.0
  {
    var gap := n - 1.0 - g * n;
    assert g * (2.0 * (n * t)) == 2.0 * (g * n * t);
    assert gap * t == (n - 1.0) * t - g * n * t;
    SignOfProduct(gap, t);
  }

  lemma SignOfProduct(x: real, d: real)
    requires d > 0.0
    ensures x * d >= 0.0 <==> x >= 0.0
    ensures x * d == 0.0 <==> x == 0.0
  {}

  lemma BelowQuotient(g: real, n: real, m: real)
    requires n > 0.0 && g * n < m
    ensures g < m / n
  {
    assert m / n * n == m;
  }

  // ----- the trigger

  const THRESHOLD := 0.75

  /** The tool names logged in the window, grouped: one count per distinct tool. */
  function GroupCounts(log: seq<string>): (counts: seq<nat>)
    ensures |counts| == |Unique(log)|
  {
    var tools := Unique(log);
    seq(|tools|, i requires 0 <= i < |tools| => multiset(log)[tools[i]])
  }

  /** One count for every tool in the log, as often as it occurs there. */
  lemma GroupCountsExactly(log: seq<string>) returns (tools: seq<string>)
    ensures Distinct(tools) && forall tool :: tool in tools <==> tool in log
    ensures |GroupCounts(log)| == |tools|
    ensures forall i :: 0 <= i < |tools| ==> GroupCounts(log)[i] == multiset(log)[tools[i]] > 0
  {
    UniqueElements(log);
    tools := Unique(log);
    forall i | 0 <= i < |tools| ensures multiset(log)[tools[i]] > 0 { assert tools[i] in log; }
  }

  lemma GroupCountsPositive(log: seq<string>)
    ensures Positive(GroupCounts(log))
  {
    UniqueElements(log);
    forall i | 0 <= i < |GroupCounts(log)| ensures GroupCounts(log)[i] > 0 {
      assert Unique(log)[i] in log;
    }
  }

  ghost predicate Concentrated(log: seq<string>) {
    GroupCountsPositive(log);
    var g := MetricGini(GroupCounts(log));
    g.Some? && g.value > THRESHOLD
  }

  /** Usage of fewer than five distinct tools can never breach the threshold. */
  lemma BreachNeedsFiveTools(log: seq<string>)
    requires Concentrated(log)
    ensures |set tool | tool in log| >= 5
  {
    GroupCountsPositive(log);
    var counts := GroupCounts(log);
    GiniRange(counts);
    ShareAtMost(|counts|);
    DistinctTools(log);
  }

  lemma ShareAtMost(n: nat)
    requires n >= 2 && (n - 1) as real / n as real > 0.75
    ensures n >= 5
  {
    var share := (n - 1) as real / n as real;
    ShareBound(share, n as real, (n - 1) as real);
    AboveFour(n, n as real);
  }

  lemma ShareBound(share: real, x: real, y: real)
    requires x > 0.0 && y == x - 1.0 && share == y / x && share > 0.75
    ensures 0.75 * x < x - 1.0
  {
    QuotientIs(share, y, x);
    ScaleStrict(x, 0.75, share);
  }

  lemma AboveFour(n: nat, x: real)
    requires x == n as real
    ensures 0.75 * x < x - 1.0 <==> n >= 5
  {}

  // ----- a log for every number of tools from five on

  function Tool(i: nat): (name: string)
    ensures |name| == i
  {
    seq(i, _ => 't')
  }

  function Copies(tool: string, m: nat): seq<string> {
    if m == 0 then [] else [tool] + Copies(tool, m - 1)
  }

  function Others(k: nat): (tools: seq<string>)
    ensures |tools| == k && forall i :: 0 <= i < k ==> tools[i] == Tool(i)
  {
    seq(k, i requires i >= 0 => Tool(i))
  }

  /** n tools: one used m times, the others once. */
  function DominatedLog(n: nat, m: nat): seq<string>
    requires n > 0
  {
    Copies(Tool(n), m) + Others(n - 1)
  }

  function Ones(k: nat): seq<nat> {
    if k == 0 then [] else [1] + Ones(k - 1)
  }

  lemma {:induction false} UniqueOfDistinct(s: seq<string>)
    requires Distinct(s)
    ensures Unique(s) == s
  {
    if s != [] {
      UniqueOfDistinct(s[1..]);
      assert s[0] !in s[1..];
      assert s == [s[0]] + s[1..];
    }
  }

  lemma {:induction false} UniqueOfCopies(tool: string, m: nat, rest: seq<string>)
    requires m > 0 && Distinct(rest) && tool !in rest
    ensures Unique(Copies(tool, m) + rest) == [tool] + rest
  {
    var log, tail := Copies(tool, m) + rest, Copies(tool, m - 1) + rest;
    assert log == [tool] + tail && log[1..] == tail;
    if m == 1 {
      assert tail == rest;
      UniqueOfDistinct(rest);
    } else {
      UniqueOfCopies(tool, m - 1, rest);
    }
  }

  lemma {:induction false} CopiesCounted(tool: string, m: nat)
    ensures multiset(Copies(tool, m))[tool] == m
    ensures forall x :: x != tool ==> multiset(Copies(tool, m))[x] == 0
  {
    if m > 0 { CopiesCounted(tool, m - 1); }
  }

  lemma UsesInLog(tool: string, m: nat, rest: seq<string>, x: string)
    requires Distinct(rest) && tool !in rest
    ensures multiset(Copies(tool, m) + rest)[tool] == m
    ensures x in rest ==> multiset(Copies(tool, m) + rest)[x] == 1
  {
    CopiesCounted(tool, m);
    DistinctMultiplicity(rest, x);
  }

  lemma OthersDistinct(n: nat)
    requires n > 0
    ensures Distinct(Others(n - 1)) && Tool(n) !in Others(n - 1)
  {
    var rest := Others(n - 1);
    forall i, j | 0 <= i < j < |rest| ensures rest[i] != rest[j] { assert |rest[i]| == i && |rest[j]| == j; }
    forall i | 0 <= i < |rest| ensures rest[i] != Tool(n) { assert |rest[i]| == i; }
  }

  lemma {:induction false} OnesAt(k: nat)
    ensures |Ones(k)| == k && Total(Ones(k)) == k && Pairwise(Ones(k)) == 0
    ensures forall i :: 0 <= i < k ==> Ones(k)[i] == 1
  {
    if k > 0 { OnesAt(k - 1); }
    PairwiseZero(Ones(k));
  }

  lemma DominatedUnique(n: nat, m: nat)
    requires n > 0 && m > 0
    ensures Unique(DominatedLog(n, m)) == [Tool(n)] + Others(n - 1)
    ensures |set tool | tool in DominatedLog(n, m)| == n
  {
    OthersDistinct(n);
    UniqueOfCopies(Tool(n), m, Others(n - 1));
    DistinctTools(DominatedLog(n, m));
  }

  lemma DistinctTools(log: seq<string>)
    ensures |set tool | tool in log| == |Unique(log)|
  {
    UniqueElements(log);
    DistinctSize(Unique(log));
    assert (set tool | tool in Unique(log)) == (set tool | tool in log);
  }

  lemma DominatedCounts(n: nat, m: nat)
    requires n > 0 && m > 0
    ensures GroupCounts(DominatedLog(n, m)) == [m] + Ones(n - 1)
  {
    var log, counts := DominatedLog(n, m), GroupCounts(DominatedLog(n, m));
    DominatedUnique(n, m);
    OnesAt(n - 1);
    forall i | 0 <= i < n ensures counts[i] == if i == 0 then m else 1 {
      assert counts[i] == multiset(log)[Unique(log)[i]];
      DominatedUses(n, m, i);
    }
  }

  lemma DominatedUses(n: nat, m: nat, i: nat)
    requires i < n && m > 0
    ensures multiset(DominatedLog(n, m))[([Tool(n)] + Others(n - 1))[i]] == if i == 0 then m else 1
  {
    var rest := Others(n - 1);
    OthersDistinct(n);
    UsesInLog(Tool(n), m, rest, if i == 0 then Tool(n) else rest[i - 1]);
  }

  lemma {:induction false} GapToOnes(m: nat, k: nat)
    requires m > 0
    ensures GapTo(m, Ones(k)) == k * (m - 1)
  {
    if k > 0 {
      GapToOnes(m, k - 1);
      assert Ones(k)[1..] == Ones(k - 1);
      Added(k - 1, m - 1);
    }
  }

  lemma Added(k: int, x: int)
    ensures (k + 1) * x == k * x + x
  {}

  lemma DominatedPairs(n: nat, m: nat)
    requires n > 0 && m > 0
    ensures Pairwise([m] + Ones(n - 1)) == 2 * ((n - 1) * (m - 1))
    ensures Total([m] + Ones(n - 1)) == m + n - 1
    ensures Positive([m] + Ones(n - 1)) && |[m] + Ones(n - 1)| == n
  {
    OnesAt(n - 1);
    PairwiseFirst(m, Ones(n - 1));
    GapToOnes(m, n - 1);
    assert ([m] + Ones(n - 1))[1..] == Ones(n - 1);
  }

  /** 4*(n-1)*(m-1) exceeds 3*n*(m+n-1) for m = 4*n*n, once n is at least five. */
  lemma EnoughUse(n: nat, s: nat, m: nat)
    requires n >= 5 && s == n * n && m == 4 * s
    ensures 4 * ((n - 1) * (m - 1)) > 3 * (n * (m + n - 1))
  {
    var c := n * s;
    MulMonotone(s, 5, n);
    MulMonotone(n, 5, n);
    assert (n - 1) * (m - 1) == n * m - n - m + 1;
    assert n * m == 4 * c;
    assert n * (m + n - 1) == n * m + s - n;
  }

  lemma RatioAbove(p: nat, d: nat)
    requires d > 0 && 4 * p > 3 * d
    ensures Ratio(p, d) > THRESHOLD
  {
    BelowQuotient(0.75, d as real, p as real);
  }

  lemma GiniOfDominated(n: nat, m: nat, counts: seq<nat>)
    requires n >= 5 && m == 4 * (n * n) && m > 0 && counts == [m] + Ones(n - 1)
    ensures Positive(counts) && MetricGini(counts).Some? && MetricGini(counts).value > THRESHOLD
  {
    DominatedPairs(n, m);
    GiniIsPairwise(counts);
    EnoughUse(n, n * n, m);
    RatioAbove(Pairwise(counts), 2 * (n * Total(counts)));
  }

  lemma DominatedIsConcentrated(n: nat)
    requires n >= 5
    ensures n * n > 0 && Concentrated(DominatedLog(n, 4 * (n * n)))
  {
    MulPositive(n, n);
    var m := 4 * (n * n);
    DominatedCounts(n, m);
    GiniOfDominated(n, m, GroupCounts(DominatedLog(n, m)));
  }

  /** A log of n different tools whose use is concentrated enough to breach. */
  ghost predicate BreachOf(log: seq<string>, n: nat) {
    |set tool | tool in log| == n && Concentrated(log)
  }

  /** For which numbers of tools a breach is possible at all. */
  lemma BreachExactly(n: nat)
    ensures n >= 5 <==> exists log :: BreachOf(log, n)
  {
    if n >= 5 {
      DominatedIsConcentrated(n);
      DominatedUnique(n, 4 * (n * n));
      assert BreachOf(DominatedLog(n, 4 * (n * n)), n);
    }
    if log :| BreachOf(log, n) { BreachNeedsFiveTools(log); }
  }
}
