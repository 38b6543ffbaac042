/** The exact McNemar test in its two forms, and the significance verdict built on it. */
module McNemar {
  import opened Nonlinear
  import opened Sums
  import opened Binomial

  // ----- the p-value as the source sums it

  /** 0.5 ** n */
  function Half(n: nat): real {
    if n == 0 then 1.0 else 0.5 * Half(n - 1)
  }

  function TailTerm(n: nat): int -> real {
    k => if k < 0 then 0.0 else Comb(n, k) as real * Half(n)
  }

  /** math.comb(n, k) * p**k * (1-p)**(n-k) at p = 0.5 */
  function BinomialMass(n: nat): int -> real {
    k => if k < 0 || k > n then 0.0 else Comb(n, k) as real * Half(k) * Half(n - k)
  }

  function Min(a: nat, b: nat): nat { if a < b then a else b }

  function AtMostOne(x: real): real { if x < 1.0 then x else 1.0 }

  /** Twice the lower binomial tail, before rounding and capping. */
  function Doubled(b: nat, c: nat): real {
    2.0 * Sum(TailTerm(b + c), Min(b, c) + 1)
  }

  /** The exact two-sided p-value without the final rounding. */
  function ExactP(b: nat, c: nat): real {
    if b + c == 0 then 1.0 else AtMostOne(Doubled(b, c))
  }

  /** Round half to even at the fourth decimal. */
  function Round4(x: real): real {
    var scaled := x * 10000.0;
    var f := scaled.Floor;
    var rest := scaled - f as real;
    (if rest < 0.5 || (rest == 0.5 && f % 2 == 0) then f else f + 1) as real / 10000.0
  }

  function ComputeMcnemarExact(b: nat, c: nat): real {
    if b + c == 0 then 1.0 else AtMostOne(Round4(Doubled(b, c)))
  }

  /** The p-value of the blind protocol's own test, before it is rounded for the report. */
  function BlindExactP(b: nat, c: nat): real {
    if b + c == 0 then 1.0 else AtMostOne(2.0 * Sum(BinomialMass(b + c), Min(b, c) + 1))
  }

  function BlindProtocolP(b: nat, c: nat): real { Round4(BlindExactP(b, c)) }

  // ----- integers behind the tail

  /** x / 2^n */
  function Chance(x: nat, n: nat): real {
    if n == 0 then x as real else 0.5 * Chance(x, n - 1)
  }

  lemma {:induction false} ChanceIsProduct(x: nat, n: nat)
    ensures Chance(x, n) == x as real * Half(n)
  {
    if n > 0 {
      ChanceIsProduct(x, n - 1);
      Associate(x as real, 0.5, Half(n - 1));
    }
  }

  lemma {:induction false} ChanceAdds(x: nat, y: nat, n: nat)
    ensures Chance(x + y, n) == Chance(x, n) + Chance(y, n)
  {
    if n > 0 { ChanceAdds(x, y, n - 1); }
  }

  lemma {:induction false} ChancePositive(x: nat, n: nat)
    ensures Chance(x, n) >= 0.0
    ensures x > 0 <==> Chance(x, n) > 0.0
  {
    if n > 0 { ChancePositive(x, n - 1); }
  }

  lemma ChanceOrdered(x: nat, y: nat, n: nat)
    ensures x <= y <==> Chance(x, n) <= Chance(y, n)
  {
    if x <= y {
      ChanceAdds(x, y - x, n);
      ChancePositive(y - x, n);
    } else {
      ChanceAdds(y, x - y, n);
      ChancePositive(x - y, n);
    }
  }

  lemma ChanceHalves(x: nat, n: nat)
    ensures Chance(2 * x, n + 1) == Chance(x, n)
  {
    ChanceAdds(x, x, n);
  }

  lemma {:induction false} ChanceWhole(n: nat)
    ensures Chance(Pow2(n), n) == 1.0
  {
    if n > 0 {
      ChanceWhole(n - 1);
      ChanceHalves(Pow2(n - 1), n - 1);
    }
  }

  lemma {:induction false} HalfAdds(a: nat, b: nat)
    ensures Half(a + b) == Half(a) * Half(b)
  {
    if a > 0 {
      HalfAdds(a - 1, b);
      assert Half(a + b) == 0.5 * Half(a - 1 + b);
      Associate(0.5, Half(a - 1), Half(b));
    }
  }

  lemma {:induction false} TailIsChance(n: nat, t: nat)
    ensures Sum(TailTerm(n), t) == Chance(Low(n, t), n)
  {
    if t == 0 {
      ChancePositive(0, n);
    } else {
      TailIsChance(n, t - 1);
      ChanceIsProduct(Comb(n, t - 1), n);
      ChanceAdds(Low(n, t - 1), Comb(n, t - 1), n);
    }
  }

  // ----- shape of the p-value

  lemma Symmetric(b: nat, c: nat)
    ensures ExactP(b, c) == ExactP(c, b) && ComputeMcnemarExact(b, c) == ComputeMcnemarExact(c, b)
  {
    assert b + c == c + b && Min(b, c) == Min(c, b);
  }

  /** One more win on each side never lowers the tail: p(m, m+d) rises with m at fixed d. */
  lemma {:induction false} TailRisesWithTies(m: nat, k: nat, d: nat)
    requires d >= 1
    ensures Doubled(m, m + d) <= Doubled(m + k, m + k + d)
  {
    if k > 0 {
      TailRisesWithTies(m, k - 1, d);
      OneMoreTie(m + k - 1, d);
    }
  }

  lemma OneMoreTie(j: nat, d: nat)
    requires d >= 1
    ensures Doubled(j, j + d) <= Doubled(j + 1, j + 1 + d)
  {
    var n := 2 * j + d;
    var x, y := Low(n, j + 1), Low(n + 2, j + 2);
    TailRises(j, d);
    ChanceHalves(x, n);
    ChanceHalves(2 * x, n + 1);
    ChanceOrdered(4 * x, y, n + 2);
    TailIsChance(n, j + 1);
    TailIsChance(n + 2, j + 2);
    assert j + (j + d) == n && (j + 1) + (j + 1 + d) == n + 2;
  }

  /** More wins on the leading side never raise the tail. */
  lemma {:induction false} TailFallsWithLead(m: nat, d: nat, k: nat)
    ensures Doubled(m, m + d + k) <= Doubled(m, m + d)
  {
    if k > 0 {
      TailFallsWithLead(m, d, k - 1);
      OneMoreWin(m, d + k - 1);
    }
  }

  lemma OneMoreWin(m: nat, d: nat)
    ensures Doubled(m, m + d + 1) <= Doubled(m, m + d)
  {
    var n := m + (m + d);
    var x, y := Low(n + 1, m + 1), Low(n, m + 1);
    TailThins(n, m + 1);
    ChanceOrdered(x, 2 * y, n + 1);
    ChanceHalves(y, n);
    TailIsChance(n, m + 1);
    TailIsChance(n + 1, m + 1);
  }

  // ----- the p-value is the two-sided tail probability

  /** Outcome k of n discordant pairs is at least as lopsided as a lead of d. */
  predicate AtLeastAsExtreme(n: nat, d: nat, k: int) {
    2 * k - n >= d || n - 2 * k >= d
  }

  function ExtremeMass(n: nat, d: nat): int -> real {
    k => if AtLeastAsExtreme(n, d, k) then TailTerm(n)(k) else 0.0
  }

  /** Count form of the extreme mass over the first t outcomes. */
  function Extreme(n: nat, d: nat, t: nat): nat {
    if t == 0 then 0 else Extreme(n, d, t - 1) + ExtremeCount(n, d, t - 1)
  }

  lemma {:induction false} ExtremeIsChance(n: nat, d: nat, t: nat)
    ensures Sum(ExtremeMass(n, d), t) == Chance(Extreme(n, d, t), n)
  {
    if t == 0 {
      ChancePositive(0, n);
    } else {
      ExtremeIsChance(n, d, t - 1);
      ExtremeTerm(n, d, t - 1);
      ChanceAdds(Extreme(n, d, t - 1), ExtremeCount(n, d, t - 1), n);
    }
  }

  function ExtremeCount(n: nat, d: nat, k: nat): nat {
    if AtLeastAsExtreme(n, d, k) then Comb(n, k) else 0
  }

  lemma ExtremeTerm(n: nat, d: nat, k: nat)
    ensures ExtremeMass(n, d)(k) == Chance(ExtremeCount(n, d, k), n)
  {
    ChanceIsProduct(Comb(n, k), n);
    ChancePositive(0, n);
    var all, some := TailTerm(n), ExtremeMass(n, d);
    assert all(k) == Chance(Comb(n, k), n);
    assert some(k) == if AtLeastAsExtreme(n, d, k) then all(k) else 0.0;
  }

  lemma {:induction false} ExtremeLow(m: nat, d: nat, t: nat)
    requires t <= 2 * m + d + 1 && d >= 1
    ensures Extreme(2 * m + d, d, t)
         == if t <= m + 1 then Low(2 * m + d, t)
            else if t <= m + d then Low(2 * m + d, m + 1)
            else Low(2 * m + d, m + 1) + Low(2 * m + d, t) - Low(2 * m + d, m + d)
  {
    if t > 0 { ExtremeLow(m, d, t - 1); }
  }

  lemma {:induction false} ExtremeAll(n: nat, t: nat)
    ensures Extreme(n, 0, t) == Low(n, t)
  {
    if t > 0 { ExtremeAll(n, t - 1); }
  }

  lemma ExtremeWhole(m: nat, d: nat)
    ensures var n := 2 * m + d;
      Extreme(n, d, n + 1) == (if d == 0 then Pow2(n) else 2 * Low(n, m + 1)) <= Pow2(n)
    ensures d == 0 ==> 2 * Low(2 * m, m + 1) >= Pow2(2 * m)
  {
    var n := 2 * m + d;
    LowWholeRow(n);
    LowComplement(n, m + 1);
    if d == 0 {
      ExtremeAll(n, n + 1);
      LowMonotone(n, m, m + 1);
    } else {
      ExtremeLow(m, d, n + 1);
      LowComplement(n, m + d);
      LowMonotone(n, m + 1, m + d);
    }
  }

  /** The p-value is the probability, under fair coin flips, of a split at least as lopsided
      as the observed one. In particular it lies in (0, 1], and is 1 exactly when the counts
      differ by at most one. */
  lemma ExactPIsTwoSidedTail(b: nat, c: nat)
    ensures ExactP(b, c) == Sum(ExtremeMass(b + c, Gap(b, c)), b + c + 1)
    ensures 0.0 < ExactP(b, c) <= 1.0
    ensures ExactP(b, c) == 1.0 <==> Gap(b, c) <= 1
  {
    var m, d, n := Min(b, c), Gap(b, c), b + c;
    assert n == 2 * m + d;
    var low := Low(n, m + 1);
    LowMonotone(n, 1, m + 1);
    assert Low(n, 1) == 1;
    TailIsChance(n, m + 1);
    ChanceHalves(low, n);
    ChanceWhole(n);
    ChanceOrdered(2 * low, Pow2(n), n);
    ChanceOrdered(Pow2(n), 2 * low, n);
    ChanceAdds(low, low, n);
    ExtremeIsChance(n, d, n + 1);
    ExtremeWhole(m, d);
    ChancePositive(Extreme(n, d, n + 1), n);
    if n > 0 { LeadBeyondOne(m, d); }
  }

  function Gap(b: nat, c: nat): nat { if b < c then c - b else b - c }

  lemma LeadBeyondOne(m: nat, d: nat)
    ensures 2 * Low(2 * m + d, m + 1) >= Pow2(2 * m + d) <==> d <= 1
  {
    var n := 2 * m + d;
    if d == 0 {
      ExtremeWhole(m, 0);
    } else if d == 1 {
      LowComplement(n, m + 1);
    } else {
      LowComplement(n, m + 1);
      LowMonotone(n, m + 2, m + d);
      CombPositive(n, m + 1);
    }
  }

  // ----- rounding

  lemma Round4Monotone(x: real, y: real)
    requires x <= y
    ensures Round4(x) <= Round4(y)
  {
    var fx, fy := (x * 10000.0).Floor, (y * 10000.0).Floor;
    assert fx <= fy;
  }

  /** The nearest multiple of a ten-thousandth, the even one of two equally near. */
  lemma Round4Nearest(x: real) returns (m: int)
    ensures Round4(x) == m as real / 10000.0
    ensures m as real - 0.5 <= x * 10000.0 <= m as real + 0.5
    ensures x * 10000.0 == m as real - 0.5 || x * 10000.0 == m as real + 0.5 ==> m % 2 == 0
  {
    var f := (x * 10000.0).Floor;
    var rest := x * 10000.0 - f as real;
    m := if rest < 0.5 || (rest == 0.5 && f % 2 == 0) then f else f + 1;
  }

  lemma Round4OfGrid(k: int)
    ensures Round4(k as real / 10000.0) == k as real / 10000.0
  {
    assert (k as real / 10000.0 * 10000.0) == k as real;
    assert (k as real).Floor == k;
  }

  lemma TermsAgree(n: nat, k: nat)
    requires k <= n
    ensures TailTerm(n)(k) == BinomialMass(n)(k)
  {
    HalfAdds(k, n - k);
    assert Half(k + (n - k)) == Half(n);
    Associate(Comb(n, k) as real, Half(k), Half(n - k));
  }

  lemma SumsAgree(n: nat, t: nat)
    requires t <= n + 1
    ensures Sum(TailTerm(n), t) == Sum(BinomialMass(n), t)
  {
    forall k | 0 <= k < t ensures TailTerm(n)(k) == BinomialMass(n)(k) {
      TermsAgree(n, k);
    }
    SumCongruence(TailTerm(n), BinomialMass(n), t);
  }

  lemma Round4OfOne()
    ensures Round4(1.0) == 1.0
  {
    Round4OfGrid(10000);
    assert 10000 as real / 10000.0 == 1.0;
  }

  /** The two implementations of the test report the same number. */
  lemma FormsAgree(b: nat, c: nat)
    ensures BlindExactP(b, c) == ExactP(b, c)
    ensures ComputeMcnemarExact(b, c) == BlindProtocolP(b, c) == Round4(ExactP(b, c))
  {
    assert BlindExactP(b, c) == ExactP(b, c) by { SumsAgree(b + c, Min(b, c) + 1); }
    if b + c == 0 { Round4OfOne(); } else { CapCommutes(Doubled(b, c)); }
  }

  lemma CapCommutes(x: real)
    ensures AtMostOne(Round4(x)) == Round4(AtMostOne(x))
  {
    Round4OfOne();
    if x <= 1.0 { Round4Monotone(x, 1.0); } else { Round4Monotone(1.0, x); }
  }

  // ----- the verdict

  datatype Verdict = PrimaryEndpointSignificant | InternalPilotDirectional | Inconclusive

  datatype Scorecard =
    | Scorecard(trials: nat, baselineOnly: nat, treatmentOnly: nat, p: real, significant: bool, verdict: Verdict)
    | UnequalOrEmpty

  function Passes(outcomes: seq<bool>, k: nat): nat
    requires k <= |outcomes|
  {
    if k == 0 then 0 else Passes(outcomes, k - 1) + if outcomes[k - 1] then 1 else 0
  }

  /** Pairs where the first arm passed and the second did not. */
  function OnlyFirst(first: seq<bool>, second: seq<bool>, k: nat): nat
    requires k <= |first| == |second|
  {
    if k == 0 then 0 else OnlyFirst(first, second, k - 1) + if first[k - 1] && !second[k - 1] then 1 else 0
  }

  function EvaluateScorecard(baseline: seq<bool>, treatment: seq<bool>): Scorecard {
    var n := |baseline|;
    if n == 0 || |treatment| != n then UnequalOrEmpty
    else
      var baseRate := Passes(baseline, n) as real / n as real;
      var treatRate := Passes(treatment, n) as real / n as real;
      var b, c := OnlyFirst(baseline, treatment, n), OnlyFirst(treatment, baseline, n);
      var p := ComputeMcnemarExact(b, c);
      var significant := p <= 0.05 && treatRate >= baseRate;
      Scorecard(n, b, c, p, significant,
                if significant then PrimaryEndpointSignificant
                else if treatRate > baseRate then InternalPilotDirectional
                else Inconclusive)
  }

  /** Positions among the first k that hold only for the first arm. */
  ghost function Discordant(first: seq<bool>, second: seq<bool>, k: nat): set<nat> {
    set i: nat | i < k && i < |first| && i < |second| && first[i] && !second[i]
  }

  lemma {:induction false} OnlyFirstCounts(first: seq<bool>, second: seq<bool>, k: nat)
    requires k <= |first| == |second|
    ensures OnlyFirst(first, second, k) == |Discordant(first, second, k)|
  {
    if k == 0 {
      assert Discordant(first, second, 0) == {};
    } else {
      OnlyFirstCounts(first, second, k - 1);
      assert Discordant(first, second, k) ==
        Discordant(first, second, k - 1) + if first[k - 1] && !second[k - 1] then {k - 1} else {};
    }
  }

  /** The scorecard counts the discordant pairs of each kind, and reports the rounded p-value of the
      exact test on them. */
  lemma ScorecardCounts(baseline: seq<bool>, treatment: seq<bool>)
    requires |baseline| == |treatment| > 0
    ensures var s := EvaluateScorecard(baseline, treatment);
      && s.Scorecard? && s.trials == |baseline|
      && s.baselineOnly == |Discordant(baseline, treatment, s.trials)|
      && s.treatmentOnly == |Discordant(treatment, baseline, s.trials)|
      && s.p == Round4(ExactP(s.baselineOnly, s.treatmentOnly))
  {
    OnlyFirstCounts(baseline, treatment, |baseline|);
    OnlyFirstCounts(treatment, baseline, |baseline|);
    FormsAgree(OnlyFirst(baseline, treatment, |baseline|), OnlyFirst(treatment, baseline, |baseline|));
  }

  lemma {:induction false} PassesDiffer(baseline: seq<bool>, treatment: seq<bool>, k: nat)
    requires k <= |baseline| == |treatment|
    ensures Passes(treatment, k) - Passes(baseline, k)
         == OnlyFirst(treatment, baseline, k) - OnlyFirst(baseline, treatment, k)
  {
    if k > 0 { PassesDiffer(baseline, treatment, k - 1); }
  }

  lemma RatesCompare(x: nat, y: nat, n: nat)
    requires n > 0
    ensures x as real / n as real >= y as real / n as real <==> x >= y
  {
    var a, b, d := x as real, y as real, n as real;
    assert a / d - b / d == (a - b) / d;
    assert (a - b) / d >= 0.0 <==> a - b >= 0.0;
  }

  lemma SmallLeadTail()
    ensures Doubled(0, 5) == 0.0625 && Doubled(0, 6) == 0.03125
  {
    TailIsChance(5, 1);
    TailIsChance(6, 1);
    assert Low(5, 1) == Low(5, 0) + Comb(5, 0) == 1;
    assert Low(6, 1) == Low(6, 0) + Comb(6, 0) == 1;
    assert Chance(1, 3) == 0.125;
    assert Chance(1, 5) == 0.25 * Chance(1, 3);
    assert Chance(1, 6) == 0.125 * Chance(1, 3);
  }

  /** A lead of at most five never reaches the 5% level, however many pairs there are. */
  lemma SmallLeadInsignificant(b: nat, c: nat)
    requires b <= c <= b + 5
    ensures ComputeMcnemarExact(b, c) > 0.05
  {
    Round4OfGrid(625);
    SmallLeadTail();
    if b + c > 0 {
      if c == b {
        ExactPIsTwoSidedTail(b, c);
        FormsAgree(b, c);
        Round4OfGrid(10000);
      } else {
        TailFallsWithLead(b, c - b, 5 - (c - b));
        TailRisesWithTies(0, b, 5);
        Round4Monotone(0.0625, Doubled(b, c));
      }
    }
  }

  /** With no baseline-only win, the p-value is at most 5% exactly from six wins on. */
  lemma NoLossesNeedSix(c: nat)
    ensures ComputeMcnemarExact(0, c) <= 0.05 <==> c >= 6
  {
    if c <= 5 {
      SmallLeadInsignificant(0, c);
    } else {
      SmallLeadTail();
      TailFallsWithLead(0, 6, c - 6);
      Round4Monotone(Doubled(0, c), 0.05);
      Round4OfGrid(500);
    }
  }

  /** A significant scorecard has at least six more treatment-only than baseline-only wins, and
      without any baseline-only win six are also enough. */
  lemma SignificanceNeedsSix(baseline: seq<bool>, treatment: seq<bool>)
    requires |baseline| == |treatment| > 0
    ensures var s := EvaluateScorecard(baseline, treatment);
      && s.Scorecard?
      && (s.significant ==> s.treatmentOnly >= s.baselineOnly + 6)
      && (s.baselineOnly == 0 ==> (s.significant <==> s.treatmentOnly >= 6))
  {
    var n := |baseline|;
    var b, c := OnlyFirst(baseline, treatment, n), OnlyFirst(treatment, baseline, n);
    PassesDiffer(baseline, treatment, n);
    RatesCompare(Passes(treatment, n), Passes(baseline, n), n);
    if b <= c <= b + 5 { SmallLeadInsignificant(b, c); }
    if b == 0 { NoLossesNeedSix(c); }
  }

  /** The verdict in terms of the discordant pairs: significant means a significant test won by
      the treatment, directional a lead without significance, and all else is inconclusive. */
  lemma VerdictMeaning(baseline: seq<bool>, treatment: seq<bool>)
    requires |baseline| == |treatment| > 0
    ensures var s := EvaluateScorecard(baseline, treatment);
      && s.Scorecard?
      && (s.significant <==> s.p <= 0.05 && s.treatmentOnly > s.baselineOnly)
      && (s.verdict == PrimaryEndpointSignificant <==> s.significant)
      && (s.verdict == Inconclusive <==> s.treatmentOnly <= s.baselineOnly)
  {
    var n := |baseline|;
    PassesDiffer(baseline, treatment, n);
    RatesCompare(Passes(treatment, n), Passes(baseline, n), n);
    RatesCompare(Passes(baseline, n), Passes(treatment, n), n);
    SignificanceNeedsSix(baseline, treatment);
  }

  /** Winning one more pair never takes significance away. */
  lemma SignificanceKeptByWins(b: nat, c: nat, extra: nat)
    requires b <= c && ComputeMcnemarExact(b, c) <= 0.05
    ensures ComputeMcnemarExact(b, c + extra) <= 0.05
  {
    if b + c > 0 {
      TailFallsWithLead(b, c - b, extra);
      Round4Monotone(Doubled(b, c + extra), Doubled(b, c));
    }
  }
}
