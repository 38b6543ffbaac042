/** The lifecycle of prevention rules: transitions from measured effectiveness. */
module RuleLifecycle {
  import opened Wrappers
  import opened Sequences
  import opened RuleStore
  import Nonlinear

  const PROBATION_MIN_EVALS := 50
  const PROBATION_PROMOTION_FIRE_RATE := 0.05
  const RETIREMENT_EVALS := 1000
  const TRUSTED_MIN_EVALS := 200
  const TRUSTED_MAX_FP_RATE := 0.10
  const TRUSTED_DEMOTION_FP_RATE := 0.20
  const DORMANT_THRESHOLD_DAYS := 30.0
  const DORMANT_RETIREMENT_DAYS := 60.0
  const FP_RATE_FOR_DEMOTION := 0.70

  // ----- the transition function

  function FireRate(timesTriggered: nat, evaluationCount: nat): real {
    timesTriggered as real / (if evaluationCount < 1 then 1 else evaluationCount) as real
  }

  function FpRate(falsePositives: nat, truePositives: nat): real
    requires truePositives + falsePositives > 0
  {
    falsePositives as real / (truePositives + falsePositives) as real
  }

  function DaysSince(last: real, now: real): real { (now - last) / 86400.0 }

  /** A time stamp of zero counts as none. */
  predicate EverTriggered(last: Option<real>) { last.Some? && last.value != 0.0 }

  function FromProbation(r: Rule): Option<State> {
    if r.evaluationCount >= PROBATION_MIN_EVALS then
      if FireRate(r.timesTriggered, r.evaluationCount) >= PROBATION_PROMOTION_FIRE_RATE then Some(Active)
      else if r.evaluationCount >= RETIREMENT_EVALS then Some(Retired)
      else None
    else None
  }

  function FromActive(r: Rule, now: real): Option<State> {
    if EverTriggered(r.lastTriggeredAt) && DaysSince(r.lastTriggeredAt.value, now) > DORMANT_THRESHOLD_DAYS then
      Some(Dormant)
    else if !EverTriggered(r.lastTriggeredAt) && r.evaluationCount > PROBATION_MIN_EVALS then Some(Dormant)
    else
      var total := r.truePositives + r.falsePositives;
      if total > 0 && FpRate(r.falsePositives, r.truePositives) > FP_RATE_FOR_DEMOTION then Some(Probation)
      else if r.evaluationCount >= TRUSTED_MIN_EVALS && total > 0 &&
              FpRate(r.falsePositives, r.truePositives) < TRUSTED_MAX_FP_RATE then Some(Trusted)
      else None
  }

  function FromTrusted(r: Rule): Option<State> {
    if r.truePositives + r.falsePositives > 10 &&
       FpRate(r.falsePositives, r.truePositives) > TRUSTED_DEMOTION_FP_RATE then Some(Active)
    else None
  }

  function FromDormant(r: Rule, now: real): Option<State> {
    if EverTriggered(r.lastTriggeredAt) then
      var days := DaysSince(r.lastTriggeredAt.value, now);
      if days < DORMANT_THRESHOLD_DAYS then Some(Active)
      else if days > DORMANT_RETIREMENT_DAYS then Some(Retired)
      else None
    else None
  }

  /** An empty state text counts as probation. */
  predicate OnProbation(state: State) { state == Probation || state == Other("") }

  function NextState(r: Rule, now: real): Option<State> {
    if OnProbation(r.state) then FromProbation(r)
    else match r.state
      case Active => FromActive(r, now)
      case Trusted => FromTrusted(r)
      case Dormant => FromDormant(r, now)
      case _ => None
  }

  // ----- ticks

  /** The clock when a rule is looked at and when its row is written, and whether writing fails. */
  datatype Moment = Moment(now: real, stamp: real, fails: bool)

  /** What one tick makes of one row. */
  function Ticked(r: Rule, m: Moment): Rule {
    var next := NextState(r, m.now);
    if r.state != Retired && next.Some? && next.value != r.state && !m.fails then Moved(r, next.value, m.stamp)
    else r
  }

  function TickedAll(rules: seq<Rule>, moments: int -> Moment): (after: seq<Rule>)
    ensures |after| == |rules|
    ensures forall i :: 0 <= i < |rules| ==> after[i] == Ticked(rules[i], moments(rules[i].id))
  {
    seq(|rules|, i requires 0 <= i < |rules| => Ticked(rules[i], moments(rules[i].id)))
  }

  datatype Transition = Transition(id: int, from: State, to: State)

  predicate Changes(r: Rule, now: real) {
    NextState(r, now).Some? && NextState(r, now).value != r.state
  }

  /** The changes a tick reports, written or not. */
  function Report(rules: seq<Rule>, moments: int -> Moment): seq<Transition> {
    if rules == [] then []
    else
      var r := rules[|rules| - 1];
      var now := moments(r.id).now;
      Report(rules[..|rules| - 1], moments) +
      if Changes(r, now) then [Transition(r.id, r.state, NextState(r, now).value)] else []
  }

  predicate NotRetired(r: Rule) { r.state != Retired }

  /** The entry of a rule that is to change: the state it leaves and the one it gets. */
  ghost predicate EntryOf(r: Rule, now: real, entry: Transition) {
    entry.id == r.id && entry.from == r.state && entry.to != r.state && Documented(r, entry.to, now)
  }

  /** No arrow leads to another state. */
  ghost predicate Stays(r: Rule, now: real) {
    forall to :: to != r.state ==> !Documented(r, to, now)
  }

  lemma ChangesExactly(r: Rule, now: real)
    ensures if Changes(r, now) then EntryOf(r, now, Transition(r.id, r.state, NextState(r, now).value)) else Stays(r, now)
  {
    forall to ensures NextState(r, now) == Some(to) <==> Documented(r, to, now) { MovesExactly(r, now, to); }
  }

  /** What a report lists of the first k rules: one entry for each that is to change, in their order;
      `at` holds their positions. */
  ghost predicate Reports(rules: seq<Rule>, k: nat, moments: int -> Moment, report: seq<Transition>, at: seq<nat>) {
    && |at| == |report| && (forall i, j :: 0 <= i < j < |at| ==> at[i] < at[j])
    && (forall i :: 0 <= i < |at| ==>
          at[i] < k && at[i] < |rules| && EntryOf(rules[at[i]], moments(rules[at[i]].id).now, report[i]))
    && (forall n :: 0 <= n < k && n < |rules| && n !in at ==> Stays(rules[n], moments(rules[n].id).now))
  }

  lemma {:induction false} ReportExactly(rules: seq<Rule>, k: nat, moments: int -> Moment) returns (at: seq<nat>)
    requires k <= |rules|
    ensures Reports(rules, k, moments, Report(rules[..k], moments), at)
  {
    at := [];
    if k > 0 {
      var r := rules[k - 1];
      var now := moments(r.id).now;
      assert rules[..k][..k - 1] == rules[..k - 1];
      at := ReportExactly(rules, k - 1, moments);
      ChangesExactly(r, now);
      if Changes(r, now) {
        var entry := Transition(r.id, r.state, NextState(r, now).value);
        ReportNext(rules, k, moments, Report(rules[..k - 1], moments), at, entry);
        at := at + [k - 1];
      }
    }
  }

  lemma ReportNext(rules: seq<Rule>, k: nat, moments: int -> Moment, report: seq<Transition>, at: seq<nat>, entry: Transition)
    requires 0 < k <= |rules| && Reports(rules, k - 1, moments, report, at)
    requires EntryOf(rules[k - 1], moments(rules[k - 1].id).now, entry)
    ensures Reports(rules, k, moments, report + [entry], at + [k - 1])
  {
    assert forall n :: n in at ==> n in at + [k - 1];
    assert (at + [k - 1])[|at|] == k - 1;
  }

  /** What a tick makes of a row: if an arrow leads from it to another state and the write succeeds,
      the row in that state; else the row as it was. */
  ghost predicate MovedAsDocumented(r: Rule, r': Rule, m: Moment) {
    if m.fails || Stays(r, m.now) then r' == r
    else exists to :: to != r.state && Documented(r, to, m.now) && Transitioned(r, r', to, m.stamp)
  }

  lemma TickedAsDocumented(r: Rule, m: Moment)
    ensures MovedAsDocumented(r, Ticked(r, m), m)
  {
    ChangesExactly(r, m.now);
    if Changes(r, m.now) && !m.fails {
      assert Transitioned(r, Ticked(r, m), NextState(r, m.now).value, m.stamp);
    }
  }

  /** Moves one rule of the snapshot, if it is to be moved and the write succeeds. */
  method TickOne(store: Store, r: Rule, m: Moment) returns (reported: seq<Transition>)
    modifies store
    ensures store.table == old(store.table).(rules := RowsAfter(old(store.table.rules), r, m))
    ensures reported == if Changes(r, m.now) then [Transition(r.id, r.state, NextState(r, m.now).value)] else []
  {
    reported := [];
    if Changes(r, m.now) {
      var next := NextState(r, m.now).value;
      if !m.fails {
        store.MoveRule(r.id, next, m.stamp);
      }
      reported := [Transition(r.id, r.state, next)];
    }
  }

  function RowsAfter(rules: seq<Rule>, r: Rule, m: Moment): seq<Rule> {
    if Changes(r, m.now) && !m.fails then OnRows(rules, Move(r.id, NextState(r, m.now).value, m.stamp)) else rules
  }

  /** Evaluates a snapshot of the rules not yet retired and moves them one at a time. */
  method Tick(store: Store, moments: int -> Moment) returns (transitions: seq<Transition>)
    requires WellFormed(store.table)
    modifies store
    ensures store.table == old(store.table).(rules := TickedAll(old(store.table.rules), moments))
    ensures forall i :: 0 <= i < |store.table.rules| ==>
      MovedAsDocumented(old(store.table.rules)[i], store.table.rules[i], moments(old(store.table.rules)[i].id))
    ensures transitions == Report(Filter(old(store.table.rules), NotRetired), moments)
    ensures var snapshot := Filter(old(store.table.rules), NotRetired);
      exists at :: Reports(snapshot, |snapshot|, moments, transitions, at)
  {
    ghost var start := store.table;
    var rules := Filter(store.table.rules, NotRetired);
    transitions := [];
    NothingTicked(start.rules, rules, moments);
    for i := 0 to |rules|
      invariant store.table == start.(rules := store.table.rules)
      invariant PartlyTicked(start.rules, store.table.rules, rules, i, moments)
      invariant transitions == Report(rules[..i], moments)
    {
      ghost var before := store.table.rules;
      var reported := TickOne(store, rules[i], moments(rules[i].id));
      transitions := transitions + reported;
      OneTicked(start, before, store.table.rules, rules, i, moments);
      assert rules[..i + 1][..i] == rules[..i];
    }
    AllTicked(start.rules, store.table.rules, rules, moments);
    forall i | 0 <= i < |start.rules|
      ensures MovedAsDocumented(start.rules[i], store.table.rules[i], moments(start.rules[i].id))
    {
      TickedAsDocumented(start.rules[i], moments(start.rules[i].id));
    }
    assert rules[..|rules|] == rules;
    ghost var at := ReportExactly(rules, |rules|, moments);
  }

  /** The rows of the first k rules of the snapshot were ticked, the others not yet. */
  ghost predicate PartlyTicked(before: seq<Rule>, now: seq<Rule>, snapshot: seq<Rule>, k: nat, moments: int -> Moment)
    requires k <= |snapshot|
  {
    |now| == |before| && forall i :: 0 <= i < |before| ==>
      now[i] == if before[i] in snapshot[..k] then Ticked(before[i], moments(before[i].id)) else before[i]
  }

  lemma NothingTicked(before: seq<Rule>, snapshot: seq<Rule>, moments: int -> Moment)
    ensures PartlyTicked(before, before, snapshot, 0, moments)
  {}

  lemma OneTicked(start: Table, before: seq<Rule>, after: seq<Rule>, snapshot: seq<Rule>, k: nat, moments: int -> Moment)
    requires WellFormed(start) && snapshot == Filter(start.rules, NotRetired) && k < |snapshot|
    requires PartlyTicked(start.rules, before, snapshot, k, moments)
    requires after == RowsAfter(before, snapshot[k], moments(snapshot[k].id))
    ensures PartlyTicked(start.rules, after, snapshot, k + 1, moments)
  {
    FilterSubsequence(start.rules, NotRetired);
    var r := snapshot[k];
    assert r in snapshot;
    assert snapshot[..k + 1] == snapshot[..k] + [r];
    assert snapshot[k] !in snapshot[..k];
    var j :| 0 <= j < |start.rules| && start.rules[j] == r;
    forall i | 0 <= i < |start.rules|
      ensures after[i] == if start.rules[i] in snapshot[..k + 1]
                          then Ticked(start.rules[i], moments(start.rules[i].id)) else start.rules[i]
    {
      TickedKeepsId(start.rules[i], moments(start.rules[i].id));
      if i != j {
        assert start.rules[i].id != r.id;
        assert before[i].id == start.rules[i].id;
        assert after[i] == before[i];
      }
    }
  }

  lemma TickedKeepsId(r: Rule, m: Moment)
    ensures Ticked(r, m).id == r.id
  {}

  lemma AllTicked(before: seq<Rule>, now: seq<Rule>, snapshot: seq<Rule>, moments: int -> Moment)
    requires snapshot == Filter(before, NotRetired) && PartlyTicked(before, now, snapshot, |snapshot|, moments)
    ensures now == TickedAll(before, moments)
  {
    FilterSubsequence(before, NotRetired);
    assert snapshot[..|snapshot|] == snapshot;
    forall i | 0 <= i < |before| ensures now[i] == Ticked(before[i], moments(before[i].id)) {
      assert before[i] in before;
    }
  }

  // ----- the arrows of the state machine

  /** The arrows and what lies behind each, in whole numbers and seconds. */
  predicate Documented(r: Rule, to: State, now: real) {
    var total := r.truePositives + r.falsePositives;
    var probation := r.state == Probation || r.state == Other("");
    var fired := r.lastTriggeredAt.Some? && r.lastTriggeredAt.value != 0.0;
    var since := if fired then now - r.lastTriggeredAt.value else 0.0;
    var sleepy := if fired then since > 30.0 * 86400.0 else r.evaluationCount > 50;
    match to
    case Active =>
      || (probation && r.evaluationCount >= 50 && 20 * r.timesTriggered >= r.evaluationCount)
      || (r.state == Trusted && total > 10 && 5 * r.falsePositives > total)
      || (r.state == Dormant && fired && since < 30.0 * 86400.0)
    case Trusted =>
      r.state == Active && r.evaluationCount >= 200 && total > 0 && 10 * r.falsePositives < total && !sleepy
    case Probation =>
      r.state == Active && total > 0 && 10 * r.falsePositives > 7 * total && !sleepy
    case Dormant =>
      r.state == Active && sleepy
    case Retired =>
      || (probation && r.evaluationCount >= 1000 && 20 * r.timesTriggered < r.evaluationCount)
      || (r.state == Dormant && fired && since > 60.0 * 86400.0)
    case Other(_) => false
  }

  /** num/den against a rational bound, in whole numbers. */
  lemma RateAgainst(num: nat, den: nat, p: nat, q: nat, bound: real)
    requires den > 0 && q > 0 && bound * q as real == p as real
    ensures num as real / den as real >= bound <==> q * num >= p * den
    ensures num as real / den as real > bound <==> q * num > p * den
  {
    var rate, d, s := num as real / den as real, den as real, q as real;
    Nonlinear.QuotientIs(rate, num as real, d);
    Nonlinear.ProductPositive(s, d, s * d);
    Nonlinear.ScaleCancel(s * d, bound, rate);
    ClearedSides(s, d, rate, bound, num as real, p as real);
    Nonlinear.RealProduct(q, num);
    Nonlinear.RealProduct(p, den);
  }

  lemma ClearedSides(s: real, d: real, rate: real, bound: real, num: real, p: real)
    requires d * rate == num && bound * s == p
    ensures (s * d) * rate == s * num && (s * d) * bound == p * d
  {}

  lemma DaysAgainst(last: real, now: real, days: real)
    ensures DaysSince(last, now) < days <==> now - last < days * 86400.0
    ensures DaysSince(last, now) > days <==> now - last > days * 86400.0
  {}

  lemma FpAgainst(r: Rule, p: nat, q: nat, bound: real)
    requires q > 0 && bound * q as real == p as real && r.truePositives + r.falsePositives > 0
    ensures var total := r.truePositives + r.falsePositives;
      && (FpRate(r.falsePositives, r.truePositives) >= bound <==> q * r.falsePositives >= p * total)
      && (FpRate(r.falsePositives, r.truePositives) > bound <==> q * r.falsePositives > p * total)
  {
    RateAgainst(r.falsePositives, r.truePositives + r.falsePositives, p, q, bound);
  }

  /** The next state is reached exactly when its arrow's condition holds, an active rule going
      dormant before it can lose or gain trust. */
  lemma MovesExactly(r: Rule, now: real, to: State)
    ensures NextState(r, now) == Some(to) <==> Documented(r, to, now)
  {
    if r.evaluationCount >= 1 { RateAgainst(r.timesTriggered, r.evaluationCount, 1, 20, 0.05); }
    if r.truePositives + r.falsePositives > 0 {
      FpAgainst(r, 7, 10, 0.70);
      FpAgainst(r, 1, 10, 0.10);
      FpAgainst(r, 1, 5, 0.20);
    }
    if EverTriggered(r.lastTriggeredAt) {
      DaysAgainst(r.lastTriggeredAt.value, now, 30.0);
      DaysAgainst(r.lastTriggeredAt.value, now, 60.0);
    }
  }

  predicate GoesDormant(r: Rule, now: real) {
    if EverTriggered(r.lastTriggeredAt) then DaysSince(r.lastTriggeredAt.value, now) > DORMANT_THRESHOLD_DAYS
    else r.evaluationCount > PROBATION_MIN_EVALS
  }

  /** Retirement from probation does not wait for a rule that never fires: 49 firings in 1000
      evaluations are retired too. */
  lemma RetiredDespiteFirings(now: real)
    ensures var r := Fresh(1, "", "", "").(timesTriggered := 49, evaluationCount := 1000);
      NextState(r, now) == Some(Retired)
  {
    MovesExactly(Fresh(1, "", "", "").(timesTriggered := 49, evaluationCount := 1000), now, Retired);
  }

  // ----- a rule left alone settles, or swings between probation and active for ever

  /** The rule after n ticks at one moment of the clock, its counters unchanged. */
  function Frozen(r: Rule, now: real, stamp: real, n: nat): Rule {
    if n == 0 then r else Ticked(Frozen(r, now, stamp, n - 1), Moment(now, stamp, false))
  }

  predicate MostlyFalse(r: Rule) {
    r.truePositives + r.falsePositives > 0 && FpRate(r.falsePositives, r.truePositives) > FP_RATE_FOR_DEMOTION
  }

  predicate Promotable(r: Rule) {
    r.evaluationCount >= PROBATION_MIN_EVALS &&
    FireRate(r.timesTriggered, r.evaluationCount) >= PROBATION_PROMOTION_FIRE_RATE
  }

  /** Mostly false, and yet firing often enough to be promoted each time; the state, if it is not
      one of the two, must lead to active. */
  predicate Churns(r: Rule, now: real) {
    && MostlyFalse(r) && Promotable(r) && !GoesDormant(r, now)
    && (OnProbation(r.state) || match r.state
        case Active => true
        case Trusted => r.truePositives + r.falsePositives > 10
        case Dormant => EverTriggered(r.lastTriggeredAt) && DaysSince(r.lastTriggeredAt.value, now) < DORMANT_THRESHOLD_DAYS
        case _ => false)
  }

  /** A move changes the state and nothing a decision looks at. */
  lemma MovedKeeps(r: Rule, state: State, stamp: real, now: real)
    ensures var m := Moved(r, state, stamp);
      && m.state == state && FromProbation(m) == FromProbation(r) && FromActive(m, now) == FromActive(r, now)
      && FromTrusted(m) == FromTrusted(r) && FromDormant(m, now) == FromDormant(r, now)
      && (MostlyFalse(m) <==> MostlyFalse(r)) && (Promotable(m) <==> Promotable(r))
      && (GoesDormant(m, now) <==> GoesDormant(r, now))
  {}

  /** Which moves contradict one another, and what the two that do not depend on. */
  lemma Choices(r: Rule, now: real)
    ensures FromActive(r, now) == Some(Dormant) <==> GoesDormant(r, now)
    ensures FromActive(r, now) == Some(Probation) <==> !GoesDormant(r, now) && MostlyFalse(r)
    ensures FromActive(r, now) == Some(Trusted) ==> FromTrusted(r) == None
    ensures FromActive(r, now) == Some(Dormant) ==> FromDormant(r, now) in {None, Some(Retired)}
    ensures FromProbation(r) == Some(Active) <==> Promotable(r)
    ensures FromProbation(r) in {None, Some(Active), Some(Retired)}
    ensures FromActive(r, now) in {None, Some(Dormant), Some(Probation), Some(Trusted)}
    ensures FromTrusted(r) in {None, Some(Active)} && FromDormant(r, now) in {None, Some(Active), Some(Retired)}
    ensures r.truePositives + r.falsePositives > 10 && MostlyFalse(r) ==> FromTrusted(r) == Some(Active)
    ensures FromTrusted(r) == Some(Active) ==> r.truePositives + r.falsePositives > 10
    ensures FromDormant(r, now) == Some(Active) <==>
      EverTriggered(r.lastTriggeredAt) && DaysSince(r.lastTriggeredAt.value, now) < DORMANT_THRESHOLD_DAYS
  {}

  /** The four decisions of one rule at one moment; they do not depend on its state. */
  datatype Decisions = Decisions(probation: Option<State>, active: Option<State>,
                                 trusted: Option<State>, dormant: Option<State>)

  function DecisionsOf(r: Rule, now: real): Decisions {
    Decisions(FromProbation(r), FromActive(r, now), FromTrusted(r), FromDormant(r, now))
  }

  function Pick(state: State, d: Decisions): Option<State> {
    if OnProbation(state) then d.probation
    else match state
      case Active => d.active
      case Trusted => d.trusted
      case Dormant => d.dormant
      case _ => None
  }

  function After(state: State, d: Decisions): State {
    if Pick(state, d).Some? then Pick(state, d).value else state
  }

  function Path(state: State, d: Decisions, n: nat): State {
    if n == 0 then state else After(Path(state, d, n - 1), d)
  }

  /** The decisions a rule can have. */
  predicate Possible(d: Decisions) {
    && d.probation in {None, Some(Active), Some(Retired)}
    && d.active in {None, Some(Dormant), Some(Probation), Some(Trusted)}
    && d.trusted in {None, Some(Active)}
    && d.dormant in {None, Some(Active), Some(Retired)}
    && !(d.active == Some(Trusted) && d.trusted == Some(Active))
    && !(d.active == Some(Dormant) && d.dormant == Some(Active))
  }

  predicate Swings(state: State, d: Decisions) {
    && d.probation == Some(Active) && d.active == Some(Probation)
    && (OnProbation(state) || state == Active || (state == Trusted && d.trusted == Some(Active)) ||
        (state == Dormant && d.dormant == Some(Active)))
  }

  lemma PathStops(state: State, d: Decisions)
    requires Possible(d) && !Swings(state, d)
    ensures After(Path(state, d, 3), d) == Path(state, d, 3)
  {
    var s1 := After(state, d);
    var s2 := After(s1, d);
    var s3 := After(s2, d);
    assert Path(state, d, 1) == s1;
    assert Path(state, d, 2) == s2;
    assert Path(state, d, 3) == s3;
  }

  lemma {:induction false} PathSwings(state: State, d: Decisions, n: nat)
    requires Possible(d) && Swings(state, d) && n >= 1
    ensures {Path(state, d, n), Path(state, d, n + 1)} == {Probation, Active}
  {
    if n > 1 { PathSwings(state, d, n - 1); }
  }

  /** A tick moves the state as the decisions say and leaves the decisions as they are. */
  lemma TickedDecisions(r: Rule, now: real, stamp: real)
    ensures var r' := Ticked(r, Moment(now, stamp, false));
      r'.state == After(r.state, DecisionsOf(r, now)) && DecisionsOf(r', now) == DecisionsOf(r, now)
  {
    if NextState(r, now).Some? { MovedKeeps(r, NextState(r, now).value, stamp, now); }
  }

  lemma {:induction false} FrozenPath(r: Rule, now: real, stamp: real, n: nat)
    ensures var f := Frozen(r, now, stamp, n);
      f.state == Path(r.state, DecisionsOf(r, now), n) && DecisionsOf(f, now) == DecisionsOf(r, now)
  {
    if n > 0 {
      FrozenPath(r, now, stamp, n - 1);
      TickedDecisions(Frozen(r, now, stamp, n - 1), now, stamp);
    }
  }

  lemma {:induction false} FrozenFrom(r: Rule, now: real, stamp: real, k: nat, n: nat)
    requires n >= k
    requires After(Path(r.state, DecisionsOf(r, now), k), DecisionsOf(r, now)) == Path(r.state, DecisionsOf(r, now), k)
    ensures Frozen(r, now, stamp, n) == Frozen(r, now, stamp, k)
  {
    if n > k {
      FrozenFrom(r, now, stamp, k, n - 1);
      FrozenPath(r, now, stamp, k);
      TickedStays(Frozen(r, now, stamp, k), now, stamp);
    }
  }

  lemma TickedStays(r: Rule, now: real, stamp: real)
    requires After(r.state, DecisionsOf(r, now)) == r.state
    ensures Ticked(r, Moment(now, stamp, false)) == r
  {}

  lemma ChurnsSwings(r: Rule, now: real)
    ensures Possible(DecisionsOf(r, now))
    ensures Churns(r, now) <==> Swings(r.state, DecisionsOf(r, now))
  {
    Choices(r, now);
  }

  /** With counters and clock standing still every rule settles within three ticks, except the
      ones that churn. */
  lemma SettlesExactly(r: Rule, now: real, stamp: real)
    ensures !Churns(r, now) <==> forall n :: n >= 3 ==> Frozen(r, now, stamp, n) == Frozen(r, now, stamp, 3)
  {
    ChurnsSwings(r, now);
    var d := DecisionsOf(r, now);
    if Churns(r, now) {
      PathSwings(r.state, d, 3);
      FrozenPath(r, now, stamp, 3);
      FrozenPath(r, now, stamp, 4);
      assert Frozen(r, now, stamp, 4).state != Frozen(r, now, stamp, 3).state;
    } else {
      PathStops(r.state, d);
      forall n | n >= 3 ensures Frozen(r, now, stamp, n) == Frozen(r, now, stamp, 3) {
        FrozenFrom(r, now, stamp, 3, n);
      }
    }
  }

  /** A churning rule goes back and forth between probation and active at every tick. */
  lemma ChurnsForever(r: Rule, now: real, stamp: real, n: nat)
    requires Churns(r, now) && n >= 1
    ensures {Frozen(r, now, stamp, n).state, Frozen(r, now, stamp, n + 1).state} == {Probation, Active}
  {
    ChurnsSwings(r, now);
    PathSwings(r.state, DecisionsOf(r, now), n);
    FrozenPath(r, now, stamp, n);
    FrozenPath(r, now, stamp, n + 1);
  }

  /** An arbitrary row; no run reaches it. */
  function Example(): Rule {
    Rule(1, "", "", "", true, 60, 600, 8, 4, Some(1.0), Trusted, None, None)
  }

  /** For an arbitrary row three ticks can be needed: trusted, active, dormant, retired. */
  lemma TwoTicksAreNotEnough(stamp: real)
    ensures var now := 6000000.0;
      && !Churns(Example(), now)
      && Frozen(Example(), now, stamp, 1).state == Active && Frozen(Example(), now, stamp, 2).state == Dormant
      && Frozen(Example(), now, stamp, 3).state == Retired
  {
    var now, r := 6000000.0, Example();
    var d := DecisionsOf(r, now);
    assert FpRate(8, 4) == 8.0 / 12.0;
    assert d.trusted == Some(Active) && d.active == Some(Dormant) && d.dormant == Some(Retired);
    FrozenPath(r, now, stamp, 1);
    FrozenPath(r, now, stamp, 2);
    FrozenPath(r, now, stamp, 3);
    assert Path(Trusted, d, 1) == Active && Path(Trusted, d, 2) == Dormant && Path(Trusted, d, 3) == Retired;
  }

  // ----- whole runs

  /** What can happen to the table: an evaluation counts the firing, if any, and itself. */
  datatype Event =
    | Registered(name: string, trigger: string, check: string)
    | Removed(name: string)
    | Evaluation(id: int, fired: bool)
    | Outcome(id: int, useful: bool)
    | Ticks(moments: int -> Moment)

  function Happens(t: Table, e: Event): Table {
    match e
    case Registered(name, trigger, check) => Apply(t, Register(name, trigger, check))
    case Removed(name) => Apply(t, Delete(name))
    case Evaluation(id, fired) => Apply(if fired then Apply(t, Trigger(id)) else t, Evaluate(id))
    case Outcome(id, useful) => Apply(t, Judge(id, useful))
    case Ticks(moments) => t.(rules := TickedAll(t.rules, moments))
  }

  function Run(t: Table, events: seq<Event>): Table {
    if events == [] then t else Happens(Run(t, events[..|events| - 1]), events[|events| - 1])
  }

  /** How an event may change a row. */
  ghost predicate RowStep(r: Rule, r': Rule, e: Event) {
    && r'.id == r.id && r'.lastTriggeredAt == r.lastTriggeredAt
    && (r'.timesTriggered - r.timesTriggered <= r'.evaluationCount - r.evaluationCount)
    && ((r'.state == r.state && r'.enabled == r.enabled) ||
        (e.Ticks? && r' == Ticked(r, e.moments(r.id))))
  }

  ghost predicate NewRow(t: Table, r': Rule) {
    r'.id == t.nextId && r'.timesTriggered == 0 && r'.state == Probation && r'.lastTriggeredAt == None
  }

  lemma TickedStep(r: Rule, m: Moment)
    ensures var r' := Ticked(r, m);
      && r'.id == r.id && r'.lastTriggeredAt == r.lastTriggeredAt
      && r'.timesTriggered == r.timesTriggered && r'.evaluationCount == r.evaluationCount
  {}

  /** Every row after an event is a new row or comes from an old one. */
  lemma RowAfter(t: Table, e: Event, k: nat)
    requires k < |Happens(t, e).rules|
    ensures var r' := Happens(t, e).rules[k];
      NewRow(t, r') || exists i :: 0 <= i < |t.rules| && RowStep(t.rules[i], r', e)
  {
    var r' := Happens(t, e).rules[k];
    match e
    case Ticks(moments) =>
      TickedStep(t.rules[k], moments(t.rules[k].id));
      assert RowStep(t.rules[k], r', e);
    case Registered(name, trigger, check) => FromOp(t, Register(name, trigger, check), k, e);
    case Removed(name) => FromOp(t, Delete(name), k, e);
    case Outcome(id, useful) => FromOp(t, Judge(id, useful), k, e);
    case Evaluation(id, fired) =>
      assert Some(r') == OnRow((if fired then Apply(t, Trigger(id)) else t).rules[k], Evaluate(id));
      assert RowStep(t.rules[k], r', e);
  }

  lemma FromOp(t: Table, op: Op, k: nat, e: Event)
    requires k < |Apply(t, op).rules| && !op.Trigger? && !op.Move?
    ensures var r' := Apply(t, op).rules[k];
      NewRow(t, r') || exists i :: 0 <= i < |t.rules| && RowStep(t.rules[i], r', e)
  {
    var r' := Apply(t, op).rules[k];
    RowOrigin(t, op, k);
    if i :| 0 <= i < |t.rules| && OnRow(t.rules[i], op) == Some(r') {
      assert RowStep(t.rules[i], r', e);
    }
  }

  ghost predicate Sound(t: Table) {
    && WellFormed(t)
    && (forall i :: 0 <= i < |t.rules| ==> t.rules[i].timesTriggered <= t.rules[i].evaluationCount)
    && (forall i :: 0 <= i < |t.rules| ==> t.rules[i].state == Retired ==> !t.rules[i].enabled)
  }

  lemma HappensWellFormed(t: Table, e: Event)
    requires WellFormed(t)
    ensures WellFormed(Happens(t, e)) && Happens(t, e).nextId >= t.nextId
  {
    match e
    case Registered(name, trigger, check) => ApplyWellFormed(t, Register(name, trigger, check));
    case Removed(name) => ApplyWellFormed(t, Delete(name));
    case Outcome(id, useful) => ApplyWellFormed(t, Judge(id, useful));
    case Evaluation(id, fired) =>
      ApplyWellFormed(t, Trigger(id));
      ApplyWellFormed(if fired then Apply(t, Trigger(id)) else t, Evaluate(id));
    case Ticks(moments) =>
      forall i | 0 <= i < |t.rules| ensures TickedAll(t.rules, moments)[i].id == t.rules[i].id {
        TickedKeepsId(t.rules[i], moments(t.rules[i].id));
      }
  }

  lemma SoundStays(t: Table, e: Event)
    requires Sound(t)
    ensures Sound(Happens(t, e))
  {
    var after := Happens(t, e);
    HappensWellFormed(t, e);
    forall k | 0 <= k < |after.rules|
      ensures after.rules[k].timesTriggered <= after.rules[k].evaluationCount
      ensures after.rules[k].state == Retired ==> !after.rules[k].enabled
    {
      RowAfter(t, e, k);
    }
  }

  /** Over every run the lifecycle's fire rate is a rate: it lies in [0, 1]. */
  lemma {:induction false} RunSound(events: seq<Event>)
    ensures var t := Run(Table([], 1), events);
      Sound(t) && forall i :: 0 <= i < |t.rules| ==> 0.0 <= FireRate(t.rules[i].timesTriggered, t.rules[i].evaluationCount) <= 1.0
  {
    var t := Run(Table([], 1), events);
    if events != [] {
      RunSound(events[..|events| - 1]);
      SoundStays(Run(Table([], 1), events[..|events| - 1]), events[|events| - 1]);
    }
    forall i | 0 <= i < |t.rules|
      ensures 0.0 <= FireRate(t.rules[i].timesTriggered, t.rules[i].evaluationCount) <= 1.0
    {
      RateInUnit(t.rules[i].timesTriggered, t.rules[i].evaluationCount);
    }
  }

  lemma RateInUnit(fired: nat, evaluated: nat)
    requires fired <= evaluated
    ensures 0.0 <= FireRate(fired, evaluated) <= 1.0
  {
    var d := (if evaluated < 1 then 1 else evaluated) as real;
    Nonlinear.QuotientOrder(0.0, fired as real, d);
    Nonlinear.QuotientOrder(fired as real, d, d);
    Nonlinear.QuotientOfWhole(d);
  }

  // ----- retired for good, trusted for a reason

  /** The identifier is taken, and no row in another state than retired carries it. */
  ghost predicate RetiredId(t: Table, id: int) {
    id < t.nextId && forall i :: 0 <= i < |t.rules| && t.rules[i].id == id ==> t.rules[i].state == Retired && !t.rules[i].enabled
  }

  lemma RetiredStays(t: Table, e: Event, id: int)
    requires WellFormed(t) && RetiredId(t, id)
    ensures RetiredId(Happens(t, e), id)
  {
    var after := Happens(t, e);
    HappensWellFormed(t, e);
    forall k | 0 <= k < |after.rules| && after.rules[k].id == id
      ensures after.rules[k].state == Retired && !after.rules[k].enabled
    {
      RowAfter(t, e, k);
    }
  }

  /** Under any run a retired rule stays retired and disabled. */
  lemma {:induction false} RetiredForGood(t: Table, events: seq<Event>, id: int)
    requires WellFormed(t) && RetiredId(t, id)
    ensures WellFormed(Run(t, events)) && RetiredId(Run(t, events), id)
  {
    if events != [] {
      var init := events[..|events| - 1];
      RetiredForGood(t, init, id);
      HappensWellFormed(Run(t, init), events[|events| - 1]);
      RetiredStays(Run(t, init), events[|events| - 1], id);
    }
  }

  /** A rule becomes trusted only by a tick, only from active, and only with 200 evaluations and
      fewer than one false positive in ten. */
  lemma TrustedOnlyFromActive(t: Table, e: Event, i: nat, k: nat)
    requires WellFormed(t) && i < |t.rules| && k < |Happens(t, e).rules|
    requires t.rules[i].id == Happens(t, e).rules[k].id
    requires t.rules[i].state != Trusted && Happens(t, e).rules[k].state == Trusted
    ensures var r := t.rules[i];
      && e.Ticks? && r.state == Active && r.evaluationCount >= TRUSTED_MIN_EVALS
      && r.truePositives + r.falsePositives > 0
      && FpRate(r.falsePositives, r.truePositives) < TRUSTED_MAX_FP_RATE
  {
    RowAfter(t, e, k);
    var r' := Happens(t, e).rules[k];
    assert t.rules[i].id < t.nextId;
    var j :| 0 <= j < |t.rules| && RowStep(t.rules[j], r', e);
    assert j == i;
    Choices(t.rules[i], e.moments(t.rules[i].id).now);
  }

  // ----- what no run reaches

  /** No statement ever writes last_triggered_at, so every rule looks as if it had never fired. */
  ghost predicate NeverStamped(t: Table) {
    forall i :: 0 <= i < |t.rules| ==>
      t.rules[i].lastTriggeredAt == None && t.rules[i].state in {Probation, Active, Dormant, Retired}
  }

  lemma UnstampedTick(r: Rule, m: Moment)
    requires r.lastTriggeredAt == None && r.state in {Probation, Active, Dormant, Retired}
    ensures Ticked(r, m).state in {Probation, Active, Dormant, Retired}
    ensures r.state == Dormant ==> Ticked(r, m) == r
    ensures r.state == Active && r.evaluationCount > PROBATION_MIN_EVALS && !m.fails ==> Ticked(r, m).state == Dormant
  {}

  /** Over every run no rule ever becomes trusted: an active rule with more than fifty
      evaluations goes dormant before it can. */
  lemma {:induction false} NeverTrusted(events: seq<Event>)
    ensures NeverStamped(Run(Table([], 1), events))
  {
    if events != [] {
      var init, e := events[..|events| - 1], events[|events| - 1];
      var t := Run(Table([], 1), init);
      NeverTrusted(init);
      var after := Happens(t, e);
      forall k | 0 <= k < |after.rules|
        ensures after.rules[k].lastTriggeredAt == None && after.rules[k].state in {Probation, Active, Dormant, Retired}
      {
        UnstampedAfter(t, e, k);
      }
    }
  }

  lemma UnstampedAfter(t: Table, e: Event, k: nat)
    requires NeverStamped(t) && k < |Happens(t, e).rules|
    ensures var r := Happens(t, e).rules[k];
      r.lastTriggeredAt == None && r.state in {Probation, Active, Dormant, Retired}
  {
    RowAfter(t, e, k);
    var r' := Happens(t, e).rules[k];
    if !NewRow(t, r') {
      var i :| 0 <= i < |t.rules| && RowStep(t.rules[i], r', e);
      if e.Ticks? { UnstampedTick(t.rules[i], e.moments(t.rules[i].id)); }
    }
  }

  /** Nor does a dormant rule ever wake up or retire. */
  ghost predicate DormantId(t: Table, id: int) {
    id < t.nextId && forall i :: 0 <= i < |t.rules| && t.rules[i].id == id ==> t.rules[i].state == Dormant
  }

  lemma {:induction false} DormantForGood(before: seq<Event>, events: seq<Event>, id: int)
    requires DormantId(Run(Table([], 1), before), id)
    ensures DormantId(Run(Table([], 1), before + events), id)
  {
    if events == [] {
      assert before + events == before;
    } else {
      var init, e := events[..|events| - 1], events[|events| - 1];
      DormantForGood(before, init, id);
      var all := before + init;
      assert before + events == all + [e] && (all + [e])[..|all|] == all;
      DormantStays(Run(Table([], 1), all), e, id, all);
    }
  }

  lemma DormantStays(t: Table, e: Event, id: int, events: seq<Event>)
    requires t == Run(Table([], 1), events) && DormantId(t, id)
    ensures DormantId(Happens(t, e), id)
  {
    RunSound(events);
    NeverTrusted(events);
    HappensWellFormed(t, e);
    var after := Happens(t, e);
    forall k | 0 <= k < |after.rules| && after.rules[k].id == id ensures after.rules[k].state == Dormant {
      RowAfter(t, e, k);
      var i :| 0 <= i < |t.rules| && RowStep(t.rules[i], after.rules[k], e);
      if e.Ticks? { UnstampedTick(t.rules[i], e.moments(t.rules[i].id)); }
    }
  }

  // ----- settling and churning of the rules that runs reach

  /** A rule as runs produce them. */
  ghost predicate Unstamped(r: Rule) {
    r.lastTriggeredAt == None && r.state in {Probation, Active, Dormant, Retired}
  }

  lemma RowsUnstamped(events: seq<Event>, i: nat)
    requires i < |Run(Table([], 1), events).rules|
    ensures Unstamped(Run(Table([], 1), events).rules[i])
  {
    NeverTrusted(events);
  }

  /** The churning rules of a run, in whole numbers: on probation or active, at exactly fifty
      evaluations, at least three of which fired, with more than seven in ten judged false. */
  lemma ChurnsInRuns(events: seq<Event>, i: nat, now: real)
    requires i < |Run(Table([], 1), events).rules|
    ensures var r := Run(Table([], 1), events).rules[i];
      Churns(r, now) <==>
        && r.state in {Probation, Active} && r.evaluationCount == 50 && r.timesTriggered >= 3
        && 10 * r.falsePositives > 7 * (r.truePositives + r.falsePositives)
  {
    RowsUnstamped(events, i);
    UnstampedChurns(Run(Table([], 1), events).rules[i], now);
  }

  lemma UnstampedChurns(r: Rule, now: real)
    requires Unstamped(r)
    ensures Churns(r, now) <==>
      && r.state in {Probation, Active} && r.evaluationCount == 50 && r.timesTriggered >= 3
      && 10 * r.falsePositives > 7 * (r.truePositives + r.falsePositives)
  {
    if r.evaluationCount >= 1 { RateAgainst(r.timesTriggered, r.evaluationCount, 1, 20, 0.05); }
    if r.truePositives + r.falsePositives > 0 { FpAgainst(r, 7, 10, 0.70); }
  }

  /** The decisions of such a rule: it never leaves dormant, and is not trusted. */
  lemma UnstampedDecisions(r: Rule, now: real)
    requires Unstamped(r)
    ensures var d := DecisionsOf(r, now);
      && Possible(d) && d.dormant == None && d.active != Some(Trusted)
      && (d.active == Some(Probation) ==> r.evaluationCount <= PROBATION_MIN_EVALS)
      && (d.probation == Some(Active) ==> r.evaluationCount >= PROBATION_MIN_EVALS)
      && (d.probation == Some(Retired) ==> r.evaluationCount >= RETIREMENT_EVALS)
  {
    Choices(r, now);
  }

  lemma UnstampedPath(r: Rule, now: real)
    requires Unstamped(r) && !Swings(r.state, DecisionsOf(r, now))
    ensures After(Path(r.state, DecisionsOf(r, now), 2), DecisionsOf(r, now)) == Path(r.state, DecisionsOf(r, now), 2)
  {
    var d := DecisionsOf(r, now);
    UnstampedDecisions(r, now);
    var s1 := After(r.state, d);
    assert Path(r.state, d, 1) == s1;
    assert Path(r.state, d, 2) == After(s1, d);
  }

  /** Over the rules of a run two ticks are enough, unless the rule churns. */
  lemma SettlesInRuns(events: seq<Event>, i: nat, now: real, stamp: real)
    requires i < |Run(Table([], 1), events).rules|
    ensures var r := Run(Table([], 1), events).rules[i];
      !Churns(r, now) <==> forall n :: n >= 2 ==> Frozen(r, now, stamp, n) == Frozen(r, now, stamp, 2)
  {
    RowsUnstamped(events, i);
    UnstampedSettles(Run(Table([], 1), events).rules[i], now, stamp);
  }

  lemma UnstampedSettles(r: Rule, now: real, stamp: real)
    requires Unstamped(r)
    ensures !Churns(r, now) <==> forall n :: n >= 2 ==> Frozen(r, now, stamp, n) == Frozen(r, now, stamp, 2)
  {
    ChurnsSwings(r, now);
    if Churns(r, now) {
      ChurnsForever(r, now, stamp, 2);
      assert Frozen(r, now, stamp, 3).state != Frozen(r, now, stamp, 2).state;
    } else {
      UnstampedPath(r, now);
      forall n | n >= 2 ensures Frozen(r, now, stamp, n) == Frozen(r, now, stamp, 2) {
        FrozenFrom(r, now, stamp, 2, n);
      }
    }
  }

  lemma RunLast(t: Table, events: seq<Event>, e: Event)
    ensures Run(t, events + [e]) == Happens(Run(t, events), e)
  {
    assert (events + [e])[..|events|] == events;
  }

  /** A rule judged false once and evaluated n times, firing each time. */
  function HarassedRule(n: nat): Rule {
    Fresh(1, "r", "", "").(timesTriggered := n, evaluationCount := n, falsePositives := 1)
  }

  lemma OnOnlyRow(r: Rule, op: Op, nextId: int, r': Rule)
    requires !op.Register? && OnRow(r, op) == Some(r')
    ensures Apply(Table([r], nextId), op) == Table([r'], nextId)
  {
    assert [r][..0] == [] && OnRows([], op) == [];
  }

  lemma HarassedAgain(n: nat)
    requires n > 0
    ensures Happens(Table([HarassedRule(n - 1)], 2), Evaluation(1, true)) == Table([HarassedRule(n)], 2)
  {
    var counted := Triggered(HarassedRule(n - 1));
    OnOnlyRow(HarassedRule(n - 1), Trigger(1), 2, counted);
    OnOnlyRow(counted, Evaluate(1), 2, HarassedRule(n));
  }

  lemma RunGoesOn(events: seq<Event>, e: Event, t: Table)
    requires Run(Table([], 1), events) == t
    ensures Run(Table([], 1), events + [e]) == Happens(t, e)
  {
    RunLast(Table([], 1), events, e);
  }

  lemma FirstRule(name: string)
    ensures Happens(Table([], 1), Registered(name, "", "")) == Table([Fresh(1, name, "", "")], 2)
  {}

  lemma RegisteredRun(name: string) returns (events: seq<Event>)
    ensures Run(Table([], 1), events) == Table([Fresh(1, name, "", "")], 2)
  {
    FirstRule(name);
    RunGoesOn([], Registered(name, "", ""), Table([], 1));
    events := [] + [Registered(name, "", "")];
  }

  lemma JudgedOnce()
    ensures Happens(Table([Fresh(1, "r", "", "")], 2), Outcome(1, false)) == Table([HarassedRule(0)], 2)
  {
    OnOnlyRow(Fresh(1, "r", "", ""), Judge(1, false), 2, HarassedRule(0));
  }

  lemma HarassedStart() returns (events: seq<Event>)
    ensures Run(Table([], 1), events) == Table([HarassedRule(0)], 2)
  {
    var before := RegisteredRun("r");
    JudgedOnce();
    RunGoesOn(before, Outcome(1, false), Table([Fresh(1, "r", "", "")], 2));
    events := before + [Outcome(1, false)];
  }

  lemma HarassedStep(events: seq<Event>, n: nat)
    requires n > 0 && Run(Table([], 1), events) == Table([HarassedRule(n - 1)], 2)
    ensures Run(Table([], 1), events + [Evaluation(1, true)]) == Table([HarassedRule(n)], 2)
  {
    HarassedAgain(n);
    RunGoesOn(events, Evaluation(1, true), Table([HarassedRule(n - 1)], 2));
  }

  lemma HarassedRun(n: nat) returns (events: seq<Event>)
    ensures Run(Table([], 1), events) == Table([HarassedRule(n)], 2)
  {
    if n == 0 {
      events := HarassedStart();
    } else {
      var before := HarassedRun(n - 1);
      HarassedStep(before, n);
      events := before + [Evaluation(1, true)];
    }
  }

  /** The only rule after a run churns at this time. */
  ghost predicate EndsChurning(events: seq<Event>, now: real) {
    |Run(Table([], 1), events).rules| == 1 && Churns(Run(Table([], 1), events).rules[0], now)
  }

  /** Runs do reach churning rules. */
  lemma ChurningRun(now: real)
    ensures exists events :: EndsChurning(events, now)
  {
    var events := HarassedRun(50);
    ChurnsInRuns(events, 0, now);
    assert EndsChurning(events, now);
  }
}
