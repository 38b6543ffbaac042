/** The trigger-effectiveness table and the trigger choice learned from it. */
module TriggerLearner {
  import opened Sequences
  import opened Wilson

  /** One reported firing of a trigger for a detection type. */
  datatype Firing = Firing(detection: string, trigger: string, improved: bool, degraded: bool, prevented: bool)

  datatype Row = Row(detection: string, trigger: string, fired: nat, improved: nat, degraded: nat, prevented: nat)

  datatype Suggestion =
    | Learned(trigger: string, score: real, samples: nat)
    | Default(trigger: string)

  const MIN_SAMPLES := 10

  const DEFAULT_TRIGGER_MAP: map<string, string> := map[
    "security" := "phase.before:code_change",
    "performance" := "phase.before:commit",
    "quality" := "prompt.received",
    "reliability" := "tool.after:*",
    "architecture" := "phase.before:design"
  ]

  // ----- the table

  /** How many firings in the log satisfy p. */
  function Count(log: seq<Firing>, p: Firing -> bool): nat {
    if log == [] then 0 else Count(log[..|log| - 1], p) + if p(log[|log| - 1]) then 1 else 0
  }

  lemma {:induction false} CountImplies(log: seq<Firing>, p: Firing -> bool, q: Firing -> bool)
    requires forall f :: p(f) ==> q(f)
    ensures Count(log, p) <= Count(log, q)
  {
    if log != [] { CountImplies(log[..|log| - 1], p, q); }
  }

  function SamePair(detection: string, trigger: string): Firing -> bool {
    (f: Firing) => f.detection == detection && f.trigger == trigger
  }

  /** The row that a log of firings should have produced for one pair. */
  function Tally(log: seq<Firing>, detection: string, trigger: string): Row {
    var of := SamePair(detection, trigger);
    Row(detection, trigger, Count(log, of), Count(log, (f: Firing) => of(f) && f.improved),
        Count(log, (f: Firing) => of(f) && f.degraded), Count(log, (f: Firing) => of(f) && f.prevented))
  }

  lemma TallyNext(log: seq<Firing>, f: Firing, detection: string, trigger: string)
    ensures Tally(log + [f], detection, trigger) ==
      if SamePair(detection, trigger)(f) then Bump(Tally(log, detection, trigger), f)
      else Tally(log, detection, trigger)
  {
    assert (log + [f])[..|log|] == log;
  }

  function Bump(r: Row, f: Firing): Row {
    r.(fired := r.fired + 1,
       improved := r.improved + if f.improved then 1 else 0,
       degraded := r.degraded + if f.degraded then 1 else 0,
       prevented := r.prevented + if f.prevented then 1 else 0)
  }

  /** No counter ever exceeds the number of firings, so every score is defined. */
  lemma TallyBounded(log: seq<Firing>, detection: string, trigger: string)
    ensures var r := Tally(log, detection, trigger);
      r.improved <= r.fired && r.degraded <= r.fired && r.prevented <= r.fired
  {
    var of := SamePair(detection, trigger);
    CountImplies(log, (f: Firing) => of(f) && f.improved, of);
    CountImplies(log, (f: Firing) => of(f) && f.degraded, of);
    CountImplies(log, (f: Firing) => of(f) && f.prevented, of);
  }

  predicate Pair(r: Row, detection: string, trigger: string) {
    r.detection == detection && r.trigger == trigger
  }

  /** One row per pair that ever fired, holding exactly that pair's tally. */
  ghost predicate Tallied(rows: seq<Row>, log: seq<Firing>) {
    && (forall i, j :: 0 <= i < j < |rows| ==> !Pair(rows[i], rows[j].detection, rows[j].trigger))
    && (forall i :: 0 <= i < |rows| ==> rows[i] == Tally(log, rows[i].detection, rows[i].trigger))
    && (forall d, t :: Tally(log, d, t).fired > 0 ==> Tally(log, d, t) in rows)
  }

  lemma TalliedGrows(rows: seq<Row>, log: seq<Firing>, f: Firing, i: nat, rows': seq<Row>, log': seq<Firing>)
    requires Tallied(rows, log) && i <= |rows| && log' == log + [f]
    requires forall j :: 0 <= j < i ==> !Pair(rows[j], f.detection, f.trigger)
    requires i < |rows| ==> Pair(rows[i], f.detection, f.trigger) && rows' == rows[i := Bump(rows[i], f)]
    requires i == |rows| ==> rows' == rows + [Bump(Row(f.detection, f.trigger, 0, 0, 0, 0), f)]
    ensures Tallied(rows', log')
  {
    if i == |rows| { NeverFired(log, rows, f.detection, f.trigger); }
    forall j | 0 <= j < |rows'| ensures rows'[j] == Tally(log', rows'[j].detection, rows'[j].trigger) {
      TallyNext(log, f, rows'[j].detection, rows'[j].trigger);
    }
    forall d, t | Tally(log', d, t).fired > 0 ensures Tally(log', d, t) in rows' {
      TallyNext(log, f, d, t);
      if d == f.detection && t == f.trigger {
        assert rows'[i] == Tally(log', d, t);
      } else {
        var j :| 0 <= j < |rows| && rows[j] == Tally(log, d, t);
        assert rows'[j] == rows[j];
      }
    }
  }

  /** Row i is the firing's own, a new last row if there was none, and counts it; no other changed. */
  ghost predicate Upserted(rows: seq<Row>, rows': seq<Row>, f: Firing, i: int) {
    && 0 <= i <= |rows| && i < |rows'| && |rows'| == (if i == |rows| then |rows| + 1 else |rows|)
    && (i == |rows| ==> forall j :: 0 <= j < |rows| ==> !(rows[j].detection == f.detection && rows[j].trigger == f.trigger))
    && (forall j :: 0 <= j < |rows| && j != i ==> rows'[j] == rows[j])
    && rows'[i].detection == f.detection && rows'[i].trigger == f.trigger
    && var r := if i < |rows| then rows[i] else Row(f.detection, f.trigger, 0, 0, 0, 0);
       && r.detection == f.detection && r.trigger == f.trigger && rows'[i].fired == r.fired + 1
       && rows'[i].improved == r.improved + (if f.improved then 1 else 0)
       && rows'[i].degraded == r.degraded + (if f.degraded then 1 else 0)
       && rows'[i].prevented == r.prevented + (if f.prevented then 1 else 0)
  }

  class EffectivenessTable {
    var rows: seq<Row>
    ghost var log: seq<Firing>   // every firing ever recorded

    ghost predicate Valid()
      reads this
    {
      Tallied(rows, log)
    }

    constructor ()
      ensures Valid() && rows == [] && log == []
    {
      rows, log := [], [];
    }

    method RecordTriggerEffectiveness(f: Firing)
      requires Valid()
      modifies this
      ensures Valid() && log == old(log) + [f]
      ensures exists i :: Upserted(old(rows), rows, f, i)
    {
      var i := 0;
      while i < |rows| && !Pair(rows[i], f.detection, f.trigger)
        invariant 0 <= i <= |rows|
        invariant forall j :: 0 <= j < i ==> !Pair(rows[j], f.detection, f.trigger)
      {
        i := i + 1;
      }
      ghost var before, recorded := rows, log;
      if i < |rows| {
        rows := rows[i := Bump(rows[i], f)];
      } else {
        rows := rows + [Bump(Row(f.detection, f.trigger, 0, 0, 0, 0), f)];
      }
      log := log + [f];
      TalliedGrows(before, recorded, f, i, rows, log);
      assert Upserted(before, rows, f, i);
    }
  }

  lemma NeverFired(log: seq<Firing>, rows: seq<Row>, detection: string, trigger: string)
    requires Tally(log, detection, trigger).fired > 0 ==> Tally(log, detection, trigger) in rows
    requires forall r :: r in rows ==> !(r.detection == detection && r.trigger == trigger)
    ensures Tally(log, detection, trigger) == Row(detection, trigger, 0, 0, 0, 0)
  {
    TallyBounded(log, detection, trigger);
  }

  // ----- the choice

  function WilsonScore(sqrt: real -> real): Row -> real {
    (r: Row) => WilsonLowerBound(r.improved, r.fired, Z, sqrt)
  }

  function Candidates(rows: seq<Row>, detection: string): seq<Row> {
    Filter(rows, (r: Row) => r.detection == detection && r.fired >= MIN_SAMPLES)
  }

  /** The first candidate of maximal score. */
  function BestRow(candidates: seq<Row>, score: Row -> real): Row
    requires candidates != []
  {
    var last := candidates[|candidates| - 1];
    if |candidates| == 1 then last
    else
      var best := BestRow(candidates[..|candidates| - 1], score);
      if score(last) > score(best) then last else best
  }

  lemma {:induction false} BestRowIsFirstMaximum(candidates: seq<Row>, score: Row -> real)
    requires candidates != []
    ensures exists i :: FirstMaximum(candidates, score, i) && BestRow(candidates, score) == candidates[i]
  {
    var n := |candidates|;
    if n > 1 {
      BestRowIsFirstMaximum(candidates[..n - 1], score);
      var init := candidates[..n - 1];
      var i :| FirstMaximum(init, score, i) && BestRow(init, score) == init[i];
      assert forall j :: 0 <= j < n - 1 ==> init[j] == candidates[j];
      var k := if score(candidates[n - 1]) > score(candidates[i]) then n - 1 else i;
      assert FirstMaximum(candidates, score, k) && BestRow(candidates, score) == candidates[k];
    } else {
      assert FirstMaximum(candidates, score, 0);
    }
  }

  /** candidates[i] beats everything before it and is at least as good as everything after. */
  ghost predicate FirstMaximum(candidates: seq<Row>, score: Row -> real, i: int) {
    && 0 <= i < |candidates|
    && (forall j :: 0 <= j < i ==> score(candidates[j]) < score(candidates[i]))
    && (forall j :: i <= j < |candidates| ==> score(candidates[j]) <= score(candidates[i]))
  }

  function LearnedFrom(candidates: seq<Row>, score: Row -> real): Suggestion
    requires candidates != []
  {
    var best := BestRow(candidates, score);
    Learned(best.trigger, score(best), best.fired)
  }

  /** What the learner says for a detection type: a measured choice once a pair has enough
      samples, else the built-in default. */
  function Advice(rows: seq<Row>, detection: string, sqrt: real -> real): Suggestion {
    var candidates := Candidates(rows, detection);
    if candidates != [] then LearnedFrom(candidates, WilsonScore(sqrt))
    else if detection in DEFAULT_TRIGGER_MAP then Default(DEFAULT_TRIGGER_MAP[detection])
    else Default("prompt.received")
  }

  /** Advice is learned exactly when some trigger has enough samples for the type; otherwise it is the
      built-in trigger of the type, or the prompt event for a type without one. */
  lemma AdviceExactly(rows: seq<Row>, detection: string, sqrt: real -> real)
    ensures var advice := Advice(rows, detection, sqrt);
      if advice.Learned? then exists r :: Measured(rows, detection, r) && Backs(r, advice, sqrt)
      else
        && (forall r :: !Measured(rows, detection, r))
        && advice.trigger == if detection in DEFAULT_TRIGGER_MAP then DEFAULT_TRIGGER_MAP[detection] else "prompt.received"
  {
    var candidates := Candidates(rows, detection);
    CandidatesMeasured(rows, detection);
    if candidates != [] {
      BestRowIsFirstMaximum(candidates, WilsonScore(sqrt));
      var best := BestRow(candidates, WilsonScore(sqrt));
      assert Measured(rows, detection, best) && Backs(best, Advice(rows, detection, sqrt), sqrt);
    }
  }

  ghost predicate Backs(r: Row, advice: Suggestion, sqrt: real -> real) {
    advice == Learned(r.trigger, WilsonLowerBound(r.improved, r.fired, Z, sqrt), r.fired)
  }

  lemma CandidatesMeasured(rows: seq<Row>, detection: string)
    ensures forall r :: r in Candidates(rows, detection) <==> Measured(rows, detection, r)
  {
    FilterSubsequence(rows, (r: Row) => r.detection == detection && r.fired >= MIN_SAMPLES);
  }

  ghost predicate Measured(rows: seq<Row>, detection: string, r: Row) {
    r in rows && r.detection == detection && r.fired >= 10
  }

  /** A learned choice is never dominated: no measured pair of the same detection type has at least
      as many firings and improved quality at least as often, unless it ties in both or neither
      ever improved anything. */
  lemma AdviceNotDominated(rows: seq<Row>, detection: string, sqrt: real -> real, rival: Row)
    requires IsSquareRoot(sqrt)
    requires forall r :: r in rows ==> r.improved <= r.fired
    requires rival in Candidates(rows, detection)
    ensures var best := BestRow(Candidates(rows, detection), WilsonScore(sqrt));
      && best in Candidates(rows, detection)
      && Advice(rows, detection, sqrt) == Learned(best.trigger, WilsonScore(sqrt)(best), best.fired)
      && rival.fired > 0 && best.fired > 0
      && (rival.fired >= best.fired && Rate(rival.improved, rival.fired) >= Rate(best.improved, best.fired) ==>
            && Rate(rival.improved, rival.fired) == Rate(best.improved, best.fired)
            && (rival.fired == best.fired || rival.improved == best.improved == 0))
      && (rival.fired == best.fired ==> rival.improved <= best.improved)
  {
    var candidates := Candidates(rows, detection);
    BestRowIsFirstMaximum(candidates, WilsonScore(sqrt));
    var best := BestRow(candidates, WilsonScore(sqrt));
    FilterSubsequence(rows, (r: Row) => r.detection == detection && r.fired >= MIN_SAMPLES);
    assert best in candidates && WilsonScore(sqrt)(rival) <= WilsonScore(sqrt)(best);
    NotBetter(best, rival, sqrt);
  }

  lemma NotBetter(best: Row, rival: Row, sqrt: real -> real)
    requires IsSquareRoot(sqrt) && WilsonScore(sqrt)(rival) <= WilsonScore(sqrt)(best)
    requires 0 < best.fired && best.improved <= best.fired && 0 < rival.fired && rival.improved <= rival.fired
    ensures rival.fired >= best.fired && Rate(rival.improved, rival.fired) >= Rate(best.improved, best.fired) ==>
      && Rate(rival.improved, rival.fired) == Rate(best.improved, best.fired)
      && (rival.fired == best.fired || rival.improved == best.improved == 0)
    ensures rival.fired == best.fired ==> rival.improved <= best.improved
  {
    var p, q := Rate(best.improved, best.fired), Rate(rival.improved, rival.fired);
    RateInRange(best.improved, best.fired);
    RateInRange(rival.improved, rival.fired);
    if rival.fired >= best.fired && (p < q || (p == q > 0.0 && best.fired < rival.fired)) {
      RisesWithBoth(best.improved, best.fired, rival.improved, rival.fired, Z, sqrt);
    }
    if rival.fired == best.fired && rival.improved > best.improved {
      RisesWithSuccesses(best.improved, rival.improved, best.fired, Z, sqrt);
    }
  }

  method PickBest(candidates: seq<Row>, score: Row -> real) returns (best: Row)
    requires candidates != []
    ensures best == BestRow(candidates, score)
  {
    best := candidates[0];
    assert candidates[..1] == [candidates[0]];
    for k := 1 to |candidates|
      invariant best == BestRow(candidates[..k], score)
    {
      assert candidates[..k + 1][..k] == candidates[..k];
      if score(candidates[k]) > score(best) { best := candidates[k]; }
    }
    assert candidates[..|candidates|] == candidates;
  }

  method SuggestTrigger(rows: seq<Row>, detection: string, sqrt: real -> real) returns (trigger: string)
    ensures trigger == Advice(rows, detection, sqrt).trigger
  {
    var candidates := Candidates(rows, detection);
    if candidates == [] {
      trigger := if detection in DEFAULT_TRIGGER_MAP then DEFAULT_TRIGGER_MAP[detection] else "prompt.received";
    } else {
      var best := PickBest(candidates, WilsonScore(sqrt));
      trigger := best.trigger;
    }
  }

  method GroupByType(rows: seq<Row>) returns (byType: map<string, seq<Row>>)
    ensures forall d :: d in byType <==> Candidates(rows, d) != []
    ensures forall d :: d in byType ==> byType[d] == Candidates(rows, d)
  {
    byType := map[];
    for k := 0 to |rows|
      invariant forall d :: d in byType <==> Candidates(rows[..k], d) != []
      invariant forall d :: d in byType ==> byType[d] == Candidates(rows[..k], d)
    {
      var r := rows[k];
      assert rows[..k + 1] == rows[..k] + [r];
      forall d ensures Candidates(rows[..k + 1], d) == Candidates(rows[..k], d)
          + if r.detection == d && r.fired >= MIN_SAMPLES then [r] else []
      {
        FilterAppend(rows[..k], [r], (r: Row) => r.detection == d && r.fired >= MIN_SAMPLES);
      }
      if r.fired >= MIN_SAMPLES {
        byType := byType[r.detection := (if r.detection in byType then byType[r.detection] else []) + [r]];
      }
    }
    assert rows[..|rows|] == rows;
  }

  method LearnMeasured(byType: map<string, seq<Row>>, score: Row -> real) returns (best: map<string, Suggestion>)
    requires forall d :: d in byType ==> byType[d] != []
    ensures best.Keys == byType.Keys
    ensures forall d :: d in best ==> best[d] == LearnedFrom(byType[d], score)
  {
    best := map[];
    var todo := byType.Keys;
    while todo != {}
      invariant todo <= byType.Keys && best.Keys == byType.Keys - todo
      invariant forall d :: d in best ==> best[d] == LearnedFrom(byType[d], score)
    {
      var d :| d in todo;
      var row := PickBest(byType[d], score);
      best := best[d := Learned(row.trigger, score(row), row.fired)];
      todo := todo - {d};
    }
  }

  /** The learning pass covers every measured detection type and every built-in one, and says
      of each exactly what SuggestTrigger would say. */
  method Learn(rows: seq<Row>, sqrt: real -> real) returns (best: map<string, Suggestion>)
    ensures forall d :: d in best <==> Candidates(rows, d) != [] || d in DEFAULT_TRIGGER_MAP
    ensures forall d :: d in best ==> best[d] == Advice(rows, d, sqrt)
  {
    var byType := GroupByType(rows);
    var learned := LearnMeasured(byType, WilsonScore(sqrt));
    best := learned;
    var todo := DEFAULT_TRIGGER_MAP.Keys;
    while todo != {}
      invariant todo <= DEFAULT_TRIGGER_MAP.Keys
      invariant best.Keys == learned.Keys + (DEFAULT_TRIGGER_MAP.Keys - todo)
      invariant forall d :: d in best ==>
        best[d] == if d in learned then learned[d] else Default(DEFAULT_TRIGGER_MAP[d])
    {
      var d :| d in todo;
      if d !in best { best := best[d := Default(DEFAULT_TRIGGER_MAP[d])]; }
      todo := todo - {d};
    }
  }
}
