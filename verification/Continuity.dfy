/** The continuation protocol: which checkpoint a host must pass next, computed from the
    newest-first evidence window of its run. */
module Continuity {
  import opened Wrappers
  import opened Sequences
  import opened EvidenceLog

  /** What the stored task contract says: its constraint kinds, and whether its deliverable
      reads like code. */
  datatype Contract = Contract(kinds: set<string>, codeDeliverable: bool) {
    predicate IsCode() { "run_tests" in kinds || "scope_files" in kinds || codeDeliverable }
    predicate NeedsScope() { "scope_files" in kinds }
    predicate NeedsTests() { "run_tests" in kinds }
  }

  datatype Checkpoint = Recover | VerifyChangedCode | VerifyRepositoryScope | RunTests | VerifyOutcomes | Done

  datatype Directive = Directive(checkpoint: Checkpoint, phase: string, check: Option<Kind>, stopFinalResponse: bool)

  predicate PassOf(r: Row, kind: Kind) { r.kind == kind && r.status == Pass }

  /** Position of the first matching row, or the length of the list. */
  function FirstIndex(evidence: seq<Row>, p: Row -> bool): (i: nat)
    ensures i <= |evidence| && (i < |evidence| ==> p(evidence[i]))
    ensures forall j :: 0 <= j < i ==> !p(evidence[j])
  {
    if evidence == [] || p(evidence[0]) then 0 else 1 + FirstIndex(evidence[1..], p)
  }

  function FirstPass(evidence: seq<Row>, kind: Kind): (i: nat)
    ensures i <= |evidence| && (i < |evidence| ==> PassOf(evidence[i], kind))
    ensures forall j :: 0 <= j < i ==> !PassOf(evidence[j], kind)
  {
    FirstIndex(evidence, (r: Row) => PassOf(r, kind))
  }

  function LatestOutcome(evidence: seq<Row>): (i: nat)
    ensures i <= |evidence| && (i < |evidence| ==> evidence[i].kind == Outcomes)
    ensures forall j :: 0 <= j < i ==> evidence[j].kind != Outcomes
  {
    FirstIndex(evidence, (r: Row) => r.kind == Outcomes)
  }

  /** Unmet items named by the newest outcome record, when that record is a FAIL. */
  function FailedUnmet(evidence: seq<Row>): seq<string> {
    var i := LatestOutcome(evidence);
    if i < |evidence| && evidence[i].status == Fail then evidence[i].unmet else []
  }

  predicate Names(unmet: seq<string>, prefix: string) {
    exists i :: 0 <= i < |unmet| && prefix <= unmet[i]
  }

  predicate Stale(evidence: seq<Row>, kind: Kind, prefix: string) {
    Names(FailedUnmet(evidence), prefix) && FirstPass(evidence, kind) > LatestOutcome(evidence)
  }

  /** The check has to be performed (again). */
  predicate Missing(evidence: seq<Row>, kind: Kind, prefix: string) {
    FirstPass(evidence, kind) == |evidence| || Stale(evidence, kind, prefix)
  }

  const RECOVER := Directive(Recover, "UNKNOWN", None, true)
  const VERIFY_CODE := Directive(VerifyChangedCode, "MID_WORK", Some(Syntax), true)
  const VERIFY_SCOPE := Directive(VerifyRepositoryScope, "MID_WORK", Some(Diff), true)
  const RUN_TESTS := Directive(RunTests, "POST_WORK", Some(Tests), true)
  const VERIFY_OUTCOMES := Directive(VerifyOutcomes, "FINAL_GATE", Some(Outcomes), true)
  const DONE := Directive(Done, "COMPLETE", None, false)

  function NextContinuation(run: Option<Contract>, evidence: seq<Row>): Directive {
    if run.None? then RECOVER
    else
      var contract := run.value;
      if contract.IsCode() && Missing(evidence, Syntax, "syntax:") then VERIFY_CODE
      else if contract.NeedsScope() && Missing(evidence, Diff, "scope_files:") then VERIFY_SCOPE
      else if contract.NeedsTests() && Missing(evidence, Tests, "run_tests:") then RUN_TESTS
      else if FirstPass(evidence, Outcomes) == |evidence| then VERIFY_OUTCOMES
      else DONE
  }

  // ----- when the final response may be delivered

  /** Row j is the newest outcome record. */
  ghost predicate NewestOutcome(evidence: seq<Row>, j: int) {
    0 <= j < |evidence| && evidence[j].kind == Outcomes && forall i :: 0 <= i < j ==> evidence[i].kind != Outcomes
  }

  /** A PASS of the kind is listed; and while the newest outcome is a FAIL naming the check, a
      PASS newer than that failure. */
  ghost predicate FreshPass(evidence: seq<Row>, kind: Kind, prefix: string) {
    exists i :: FreshAt(evidence, kind, prefix, i)
  }

  ghost predicate FreshAt(evidence: seq<Row>, kind: Kind, prefix: string, i: int) {
    && 0 <= i < |evidence| && evidence[i].kind == kind && evidence[i].status == Pass
    && (forall j :: NewestOutcome(evidence, j) && evidence[j].status == Fail && Mentioned(evidence[j].unmet, prefix) ==> i < j)
  }

  ghost predicate Mentioned(unmet: seq<string>, prefix: string) {
    exists item :: item in unmet && prefix <= item
  }

  lemma NamesMeansMentioned(unmet: seq<string>, prefix: string)
    ensures Names(unmet, prefix) <==> Mentioned(unmet, prefix)
  {
    if i :| 0 <= i < |unmet| && prefix <= unmet[i] { assert unmet[i] in unmet; }
  }

  lemma MissingIsNotFresh(evidence: seq<Row>, kind: Kind, prefix: string)
    requires kind != Outcomes
    ensures Missing(evidence, kind, prefix) <==> !FreshPass(evidence, kind, prefix)
  {
    var p, o := FirstPass(evidence, kind), LatestOutcome(evidence);
    assert o < |evidence| ==> NewestOutcome(evidence, o);
    if o < |evidence| { NamesMeansMentioned(evidence[o].unmet, prefix); }
    if !Missing(evidence, kind, prefix) {
      assert FreshAt(evidence, kind, prefix, p);
    }
  }

  /** `done` is issued exactly when every contract-required check is fresh and the window holds
      a passing outcome gate; nothing else lifts the stop on the final response. */
  lemma DoneExactly(run: Option<Contract>, evidence: seq<Row>)
    ensures NextContinuation(run, evidence) == DONE <==>
      && run.Some?
      && (run.value.IsCode() ==> FreshPass(evidence, Syntax, "syntax:"))
      && (run.value.NeedsScope() ==> FreshPass(evidence, Diff, "scope_files:"))
      && (run.value.NeedsTests() ==> FreshPass(evidence, Tests, "run_tests:"))
      && (exists i :: 0 <= i < |evidence| && PassOf(evidence[i], Outcomes))
    ensures NextContinuation(run, evidence).stopFinalResponse <==> NextContinuation(run, evidence) != DONE
  {
    MissingIsNotFresh(evidence, Syntax, "syntax:");
    MissingIsNotFresh(evidence, Diff, "scope_files:");
    MissingIsNotFresh(evidence, Tests, "run_tests:");
    var p := FirstPass(evidence, Outcomes);
    assert p < |evidence| ==> PassOf(evidence[p], Outcomes);
  }

  // ----- which check is asked for next

  /** What the contract requires, in its own terms, and which of that is not fresh. */
  ghost predicate Wants(contract: Contract, evidence: seq<Row>, check: Kind) {
    match check
    case Syntax =>
      && ("run_tests" in contract.kinds || "scope_files" in contract.kinds || contract.codeDeliverable)
      && !FreshPass(evidence, Syntax, "syntax:")
    case Diff => "scope_files" in contract.kinds && !FreshPass(evidence, Diff, "scope_files:")
    case Tests => "run_tests" in contract.kinds && !FreshPass(evidence, Tests, "run_tests:")
    case Outcomes => forall r :: r in evidence ==> !(r.kind == Outcomes && r.status == Pass)
    case OtherKind(_) => false
  }

  /** Syntax before scope, scope before tests, tests before the final gate; recovery is for a
      missing run alone. */
  lemma AskedInOrder(run: Option<Contract>, evidence: seq<Row>)
    ensures NextContinuation(run, evidence).checkpoint == Recover <==> run.None?
    ensures run.Some? ==>
      var check := NextContinuation(run, evidence).check;
      var syntax, scope, tests, gate := Wants(run.value, evidence, Syntax), Wants(run.value, evidence, Diff),
                                        Wants(run.value, evidence, Tests), Wants(run.value, evidence, Outcomes);
      && (check == Some(Syntax) <==> syntax)
      && (check == Some(Diff) <==> scope && !syntax)
      && (check == Some(Tests) <==> tests && !syntax && !scope)
      && (check == Some(Outcomes) <==> gate && !syntax && !scope && !tests)
      && (check == None <==> !gate && !syntax && !scope && !tests)
  {
    if run.Some? { WantsExactly(run.value, evidence); }
  }

  lemma WantsExactly(contract: Contract, evidence: seq<Row>)
    ensures Wants(contract, evidence, Syntax) <==> contract.IsCode() && Missing(evidence, Syntax, "syntax:")
    ensures Wants(contract, evidence, Diff) <==> contract.NeedsScope() && Missing(evidence, Diff, "scope_files:")
    ensures Wants(contract, evidence, Tests) <==> contract.NeedsTests() && Missing(evidence, Tests, "run_tests:")
    ensures Wants(contract, evidence, Outcomes) <==> FirstPass(evidence, Outcomes) == |evidence|
  {
    MissingIsNotFresh(evidence, Syntax, "syntax:");
    MissingIsNotFresh(evidence, Diff, "scope_files:");
    MissingIsNotFresh(evidence, Tests, "run_tests:");
    var p := FirstPass(evidence, Outcomes);
    assert p < |evidence| ==> evidence[p] in evidence;
  }

  /** The checkpoint and the phase that go with each check. */
  lemma DirectiveOfCheck(run: Option<Contract>, evidence: seq<Row>)
    ensures var d := NextContinuation(run, evidence);
      match d.check
      case Some(Syntax) => d == Directive(VerifyChangedCode, "MID_WORK", d.check, true)
      case Some(Diff) => d == Directive(VerifyRepositoryScope, "MID_WORK", d.check, true)
      case Some(Tests) => d == Directive(RunTests, "POST_WORK", d.check, true)
      case Some(Outcomes) => d == Directive(VerifyOutcomes, "FINAL_GATE", d.check, true)
      case None => d == if run.None? then Directive(Recover, "UNKNOWN", None, true) else Directive(Done, "COMPLETE", None, false)
      case Some(OtherKind(_)) => false
  {}

  // ----- the same in terms of the evidence log

  /** Row b is stored and was recorded after row a. */
  predicate RecordedAfter(a: Row, b: Row) { a.rowid < b.rowid }

  /** The newest outcome record of the run in the log. */
  ghost predicate LastOutcomeOf(rows: seq<Row>, run: string, o: Row) {
    && o in rows && o.run == run && o.kind == Outcomes
    && (forall r :: r in rows && r.run == run && r.kind == Outcomes ==> r.rowid <= o.rowid)
  }

  function FromEnd<T>(s: seq<T>, i: nat): T
    requires i < |s|
  {
    s[|s| - 1 - i]
  }

  /** The window, row by row: the run's log read backwards. */
  lemma WindowAt(rows: seq<Row>, run: string)
    requires Recorded(rows)
    ensures Recorded(OfRun(rows, run))
    ensures forall r :: r in OfRun(rows, run) <==> r in rows && r.run == run
    ensures |Evidence(rows, run)| == if |OfRun(rows, run)| < WINDOW then |OfRun(rows, run)| else WINDOW
    ensures forall i :: 0 <= i < |Evidence(rows, run)| ==> Evidence(rows, run)[i] == FromEnd(OfRun(rows, run), i)
  {
    OfRunRecorded(rows, run);
    EvidenceIsReversedLog(rows, run);
    ReverseAt(OfRun(rows, run));
  }

  lemma OfRunRecorded(rows: seq<Row>, run: string)
    requires Recorded(rows)
    ensures Recorded(OfRun(rows, run))
    ensures forall r :: r in OfRun(rows, run) <==> r in rows && r.run == run
  {
    FilterPairwise(rows, (r: Row) => r.run == run, Before);
    FilterSubsequence(rows, (r: Row) => r.run == run);
  }

  lemma RowidOrder(rows: seq<Row>, a: nat, b: nat)
    requires Recorded(rows) && a < |rows| && b < |rows|
    ensures a < b <==> rows[a].rowid < rows[b].rowid
  {
    if a < b { assert Before(rows[a], rows[b]); }
    if b < a { assert Before(rows[b], rows[a]); }
  }

  /** Safety over every log that recording can produce: when `done` is issued, each required
      check has a recorded PASS, and while the newest outcome of the run is a FAIL naming that
      check, a PASS recorded after it. */
  lemma DoneIsSafe(rows: seq<Row>, run: string, contract: Contract)
    requires Recorded(rows) && NextContinuation(Some(contract), Evidence(rows, run)) == DONE
    ensures contract.IsCode() ==> PassedSince(rows, run, Syntax, "syntax:")
    ensures contract.NeedsScope() ==> PassedSince(rows, run, Diff, "scope_files:")
    ensures contract.NeedsTests() ==> PassedSince(rows, run, Tests, "run_tests:")
    ensures exists r :: r in rows && r.run == run && PassOf(r, Outcomes)
  {
    DoneExactly(Some(contract), Evidence(rows, run));
    EvidenceIsReversedLog(rows, run);
    if contract.IsCode() { FreshMeansSince(rows, run, Syntax, "syntax:"); }
    if contract.NeedsScope() { FreshMeansSince(rows, run, Diff, "scope_files:"); }
    if contract.NeedsTests() { FreshMeansSince(rows, run, Tests, "run_tests:"); }
    var i :| 0 <= i < |Evidence(rows, run)| && PassOf(Evidence(rows, run)[i], Outcomes);
    assert Evidence(rows, run)[i] in Evidence(rows, run);
  }

  ghost predicate PassedSince(rows: seq<Row>, run: string, kind: Kind, prefix: string) {
    exists r :: && r in rows && r.run == run && r.kind == kind && r.status == Pass
                && (forall o :: LastOutcomeOf(rows, run, o) && o.status == Fail && Mentioned(o.unmet, prefix) ==> RecordedAfter(o, r))
  }

  lemma FreshMeansSince(rows: seq<Row>, run: string, kind: Kind, prefix: string)
    requires Recorded(rows) && FreshPass(Evidence(rows, run), kind, prefix)
    requires exists i :: 0 <= i < |Evidence(rows, run)| && PassOf(Evidence(rows, run)[i], Outcomes)
    ensures PassedSince(rows, run, kind, prefix)
  {
    var evidence, mine := Evidence(rows, run), OfRun(rows, run);
    WindowAt(rows, run);
    var i :| FreshAt(evidence, kind, prefix, i);
    var j := LatestOutcome(evidence);
    assert NewestOutcome(evidence, j);
    assert evidence[i] in mine;
    forall o | LastOutcomeOf(rows, run, o) && o.status == Fail && Mentioned(o.unmet, prefix)
      ensures RecordedAfter(o, evidence[i])
    {
      LastIsNewest(rows, run, o, j);
      RowidOrder(mine, |mine| - 1 - j, |mine| - 1 - i);
    }
  }

  /** The window's newest outcome is the log's last outcome. */
  lemma LastIsNewest(rows: seq<Row>, run: string, o: Row, j: nat)
    requires Recorded(rows) && LastOutcomeOf(rows, run, o) && NewestOutcome(Evidence(rows, run), j)
    ensures Evidence(rows, run)[j] == o
  {
    var evidence, mine := Evidence(rows, run), OfRun(rows, run);
    WindowAt(rows, run);
    assert o in mine;
    var m :| 0 <= m < |mine| && mine[m] == o;
    var here := |mine| - 1 - j;
    assert mine[here] in mine;
    RowidOrder(mine, m, here);
    var at := |mine| - 1 - m;
    assert evidence[at] == FromEnd(mine, at) == o;
    NoneBefore(evidence, j, at);
  }

  lemma NoneBefore(evidence: seq<Row>, j: int, at: int)
    requires NewestOutcome(evidence, j) && 0 <= at < |evidence| && evidence[at].kind == Outcomes
    ensures j <= at
  {}

  // ----- progress

  /** A host that performs the requested check and gets it recorded as PASS. The record's id is
      a digest of material that includes the check kind. */
  function HostStep(rows: seq<Row>, run: string, contract: Contract, id: string, now: int, rowid: nat): seq<Row> {
    var directive := NextContinuation(Some(contract), Evidence(rows, run));
    if directive.check.None? then rows
    else Replace(rows, Row(run, id, directive.check.value, Pass, [], now, rowid))
  }

  /** The id, clock reading and row id of each of the host's records. */
  datatype Stamp = Stamp(id: string, now: int, rowid: nat)

  function HostRun(rows: seq<Row>, run: string, contract: Contract, stamps: seq<Stamp>, n: nat): seq<Row>
    requires n <= |stamps|
  {
    if n == 0 then rows
    else
      var s := stamps[n - 1];
      HostStep(HostRun(rows, run, contract, stamps, n - 1), run, contract, s.id, s.now, s.rowid)
  }

  /** Ids determine kinds, in the log and for each record the host will make; clock and row id
      of every new record are at least as late as everything before. */
  ghost predicate Addressed(rows: seq<Row>, run: string, kindOf: string -> Kind) {
    forall r :: r in rows && r.run == run ==> kindOf(r.id) == r.kind
  }

  ghost predicate Later(rows: seq<Row>, s: Stamp) {
    forall i :: 0 <= i < |rows| ==> rows[i].createdAt <= s.now && rows[i].rowid < s.rowid
  }

  ghost predicate HonestHost(rows: seq<Row>, run: string, contract: Contract, stamps: seq<Stamp>, kindOf: string -> Kind) {
    forall n :: 0 <= n < |stamps| ==>
      var before := HostRun(rows, run, contract, stamps, n);
      var check := NextContinuation(Some(contract), Evidence(before, run)).check;
      Later(before, stamps[n]) && (check.Some? ==> kindOf(stamps[n].id) == check.value)
  }

  /** The newest n records of the run are passes of n different protocol checks. */
  ghost predicate PassedLately(evidence: seq<Row>, n: nat) {
    && n <= |evidence|
    && (forall i :: 0 <= i < n ==> evidence[i].status == Pass && evidence[i].kind in {Syntax, Diff, Tests, Outcomes})
    && (forall i, j :: 0 <= i < j < n ==> evidence[i].kind != evidence[j].kind)
  }

  /** A check passed among the newest n records is not asked for again. */
  lemma NotAskedAgain(contract: Contract, evidence: seq<Row>, n: nat, i: nat)
    requires PassedLately(evidence, n) && i < n
    ensures NextContinuation(Some(contract), evidence).check != Some(evidence[i].kind)
  {
    var kind := evidence[i].kind;
    assert PassOf(evidence[i], kind);
    assert FirstPass(evidence, kind) <= i;
    var o := LatestOutcome(evidence);
    if o < n { assert evidence[o].status == Pass; }
  }

  lemma {:induction false} FilterAll<T>(s: seq<T>, keep: T -> bool)
    requires forall i :: 0 <= i < |s| ==> keep(s[i])
    ensures Filter(s, keep) == s
  {
    if s != [] { FilterAll(s[1..], keep); }
  }

  /** Filtering keeps a tail that satisfies the filter. */
  lemma FilterTail<T>(s: seq<T>, k: nat, keep: T -> bool)
    requires k <= |s| && forall i :: |s| - k <= i < |s| ==> keep(s[i])
    ensures |Filter(s, keep)| >= k
    ensures forall i :: 0 <= i < k ==> FromEnd(Filter(s, keep), i) == FromEnd(s, i)
  {
    var front, back := s[..|s| - k], s[|s| - k..];
    assert s == front + back;
    FilterAppend(front, back, keep);
    FilterAll(back, keep);
  }

  /** The window after a recording: the new row first, then the n newest old rows, provided
      none of those is being replaced. */
  lemma WindowAfter(rows: seq<Row>, row: Row, n: nat)
    requires Recorded(rows) && Recorded(Replace(rows, row)) && n < WINDOW && n <= |Evidence(rows, row.run)|
    requires forall i :: 0 <= i < n ==> Evidence(rows, row.run)[i].id != row.id
    ensures |Evidence(Replace(rows, row), row.run)| > n
    ensures Evidence(Replace(rows, row), row.run)[0] == row
    ensures forall i :: 0 <= i < n ==> Evidence(Replace(rows, row), row.run)[i + 1] == Evidence(rows, row.run)[i]
  {
    var run, others := row.run, (r: Row) => !(r.run == row.run && r.id == row.id);
    var mine := OfRun(rows, run);
    WindowAt(rows, run);
    forall i | |mine| - n <= i < |mine| ensures others(mine[i]) {
      assert Evidence(rows, run)[|mine| - 1 - i] == FromEnd(mine, |mine| - 1 - i);
    }
    FilterTail(mine, n, others);
    OfRunReplace(rows, row);
    WindowAt(Replace(rows, row), run);
    ShiftedByOne(Filter(mine, others), row);
  }

  lemma ShiftedByOne<T>(s: seq<T>, x: T)
    ensures FromEnd(s + [x], 0) == x
    ensures forall i :: 0 <= i < |s| ==> FromEnd(s + [x], i + 1) == FromEnd(s, i)
  {}

  /** Recording a pass of a new kind puts it in front of the window and keeps the n newest. */
  lemma RecordPass(rows: seq<Row>, row: Row, n: nat, kindOf: string -> Kind)
    requires Recorded(rows) && Addressed(rows, row.run, kindOf) && kindOf(row.id) == row.kind
    requires forall i :: 0 <= i < |rows| ==> rows[i].createdAt <= row.createdAt && rows[i].rowid < row.rowid
    requires row.status == Pass && row.kind in {Syntax, Diff, Tests, Outcomes} && n < 4
    requires PassedLately(Evidence(rows, row.run), n)
    requires forall i :: 0 <= i < n ==> Evidence(rows, row.run)[i].kind != row.kind
    ensures Recorded(Replace(rows, row)) && Addressed(Replace(rows, row), row.run, kindOf)
    ensures PassedLately(Evidence(Replace(rows, row), row.run), n + 1)
  {
    ReplaceKeepsRecorded(rows, row);
    FilterSubsequence(rows, (r: Row) => !(r.run == row.run && r.id == row.id));
    WindowAt(rows, row.run);
    var evidence := Evidence(rows, row.run);
    forall i | 0 <= i < n ensures evidence[i].id != row.id {
      assert evidence[i] in OfRun(rows, row.run);
    }
    WindowAfter(rows, row, n);
    var after := Evidence(Replace(rows, row), row.run);
    forall i | 0 < i < n + 1
      ensures after[i].status == Pass && after[i].kind in {Syntax, Diff, Tests, Outcomes} && after[i].kind != row.kind
    {
      assert after[i - 1 + 1] == evidence[i - 1];
    }
    forall i, j | 0 < i < j < n + 1 ensures after[i].kind != after[j].kind {
      assert after[i - 1 + 1] == evidence[i - 1] && after[j - 1 + 1] == evidence[j - 1];
    }
  }

  lemma {:induction false} HostProgress(rows: seq<Row>, run: string, contract: Contract, stamps: seq<Stamp>,
                                        kindOf: string -> Kind, n: nat)
    requires Recorded(rows) && Addressed(rows, run, kindOf) && HonestHost(rows, run, contract, stamps, kindOf)
    requires n <= |stamps| && n <= 4
    ensures var after := HostRun(rows, run, contract, stamps, n);
      && Recorded(after) && Addressed(after, run, kindOf)
      && (NextContinuation(Some(contract), Evidence(after, run)) == DONE || PassedLately(Evidence(after, run), n))
  {
    if n > 0 {
      HostProgress(rows, run, contract, stamps, kindOf, n - 1);
      StepProgress(HostRun(rows, run, contract, stamps, n - 1), run, contract, stamps[n - 1], kindOf, n - 1);
    }
  }

  lemma StepProgress(before: seq<Row>, run: string, contract: Contract, s: Stamp, kindOf: string -> Kind, n: nat)
    requires Recorded(before) && Addressed(before, run, kindOf) && Later(before, s) && n < 4
    requires var check := NextContinuation(Some(contract), Evidence(before, run)).check;
      check.Some? ==> kindOf(s.id) == check.value && PassedLately(Evidence(before, run), n)
    ensures var after := HostStep(before, run, contract, s.id, s.now, s.rowid);
      && Recorded(after) && Addressed(after, run, kindOf)
      && (NextContinuation(Some(contract), Evidence(after, run)) == DONE || PassedLately(Evidence(after, run), n + 1))
  {
    var directive := NextContinuation(Some(contract), Evidence(before, run));
    if directive != DONE {
      var row := Row(run, s.id, directive.check.value, Pass, [], s.now, s.rowid);
      forall i | 0 <= i < n ensures Evidence(before, run)[i].kind != row.kind {
        NotAskedAgain(contract, Evidence(before, run), n, i);
      }
      RecordPass(before, row, n, kindOf);
    }
  }

  /** Four passes of different protocol checks are passes of all four. */
  lemma AllFourPassed(evidence: seq<Row>, k: Kind) returns (i: nat)
    requires PassedLately(evidence, 4) && k in {Syntax, Diff, Tests, Outcomes}
    ensures i < 4 && evidence[i].kind == k
  {
    i := if evidence[0].kind == k then 0 else if evidence[1].kind == k then 1 else if evidence[2].kind == k then 2 else 3;
    assert evidence[0].kind != evidence[1].kind && evidence[0].kind != evidence[2].kind && evidence[1].kind != evidence[2].kind;
    assert evidence[0].kind != evidence[3].kind && evidence[1].kind != evidence[3].kind && evidence[2].kind != evidence[3].kind;
  }

  /** Bounded progress: from any log of an existing run, four recorded passes are enough,
      even while older passes slide out of the 200-row window. */
  lemma DoneWithinFour(rows: seq<Row>, run: string, contract: Contract, stamps: seq<Stamp>, kindOf: string -> Kind)
    requires Recorded(rows) && Addressed(rows, run, kindOf) && HonestHost(rows, run, contract, stamps, kindOf)
    requires |stamps| >= 4
    ensures NextContinuation(Some(contract), Evidence(HostRun(rows, run, contract, stamps, 4), run)) == DONE
  {
    HostProgress(rows, run, contract, stamps, kindOf, 4);
    NothingLeft(contract, Evidence(HostRun(rows, run, contract, stamps, 4), run));
  }

  lemma NothingLeft(contract: Contract, evidence: seq<Row>)
    ensures PassedLately(evidence, 4) ==> NextContinuation(Some(contract), evidence) == DONE
  {
    var directive := NextContinuation(Some(contract), evidence);
    if PassedLately(evidence, 4) && directive != DONE {
      var i := AllFourPassed(evidence, directive.check.value);
      NotAskedAgain(contract, evidence, 4, i);
    }
  }

  lemma {:induction false} HostAddsOneRow(rows: seq<Row>, run: string, contract: Contract, stamps: seq<Stamp>, n: nat)
    requires n <= |stamps|
    ensures |HostRun(rows, run, contract, stamps, n)| <= |rows| + n
  {
    if n > 0 {
      HostAddsOneRow(rows, run, contract, stamps, n - 1);
      var s := stamps[n - 1];
      HostStepSize(HostRun(rows, run, contract, stamps, n - 1), run, contract, s.id, s.now, s.rowid);
    }
  }

  lemma HostStepSize(rows: seq<Row>, run: string, contract: Contract, id: string, now: int, rowid: nat)
    ensures |HostStep(rows, run, contract, id, now, rowid)| <= |rows| + 1
  {
    FilterSubsequence(rows, (r: Row) => !(r.run == run && r.id == id));
  }

  /** Four are also necessary: a fresh run whose contract asks for scope and tests is not
      done after three records, whatever the host does. */
  lemma ThreeAreNotEnough(run: string, stamps: seq<Stamp>)
    requires |stamps| >= 3
    ensures var contract := Contract({"scope_files", "run_tests"}, false);
      NextContinuation(Some(contract), Evidence(HostRun([], run, contract, stamps, 3), run)) != DONE
  {
    var contract := Contract({"scope_files", "run_tests"}, false);
    var rows := HostRun([], run, contract, stamps, 3);
    HostAddsOneRow([], run, contract, stamps, 3);
    var evidence := Evidence(rows, run);
    FilterSubsequence(rows, (r: Row) => r.run == run);
    SortPermutes(OfRun(rows, run), Newer);
    DoneExactly(Some(contract), evidence);
    FourRowsNeeded(evidence);
  }

  lemma FourRowsNeeded(evidence: seq<Row>)
    requires |evidence| <= 3
    ensures FirstPass(evidence, Syntax) == |evidence| || FirstPass(evidence, Diff) == |evidence|
      || FirstPass(evidence, Tests) == |evidence| || FirstPass(evidence, Outcomes) == |evidence|
  {}

  // ----- done although the newest outcome gate did not pass

  /** Each check that the contract requires is fresh. */
  ghost predicate RequiredFresh(contract: Contract, evidence: seq<Row>) {
    && (contract.IsCode() ==> FreshPass(evidence, Syntax, "syntax:"))
    && (contract.NeedsScope() ==> FreshPass(evidence, Diff, "scope_files:"))
    && (contract.NeedsTests() ==> FreshPass(evidence, Tests, "run_tests:"))
  }

  ghost predicate OlderOutcomePassed(evidence: seq<Row>, j: int) {
    exists i :: 0 <= j < i < |evidence| && PassOf(evidence[i], Outcomes)
  }

  /** `done` does not mean that the newest outcome gate passed. When it did not, `done` is issued
      exactly if the window lists an older pass of the gate and every required check is fresh,
      that is, was passed again since, in case the failure names it. */
  lemma DoneDespiteFailureExactly(contract: Contract, evidence: seq<Row>, j: int)
    requires NewestOutcome(evidence, j) && evidence[j].status != Pass
    ensures NextContinuation(Some(contract), evidence) == DONE <==>
      OlderOutcomePassed(evidence, j) && RequiredFresh(contract, evidence)
  {
    DoneExactly(Some(contract), evidence);
    if i :| 0 <= i < |evidence| && PassOf(evidence[i], Outcomes) {
      assert i > j;
    }
  }

  /** So `done` vouches for the newest gate exactly in the other windows. */
  lemma DoneVouchesExactly(contract: Contract, evidence: seq<Row>)
    ensures (NextContinuation(Some(contract), evidence) == DONE ==>
               exists j :: NewestOutcome(evidence, j) && evidence[j].status == Pass) <==>
      !(RequiredFresh(contract, evidence) &&
        exists j :: NewestOutcome(evidence, j) && evidence[j].status != Pass && OlderOutcomePassed(evidence, j))
  {
    var j := LatestOutcome(evidence);
    DoneExactly(Some(contract), evidence);
    if j < |evidence| {
      assert NewestOutcome(evidence, j);
      if evidence[j].status != Pass { DoneDespiteFailureExactly(contract, evidence, j); }
    }
  }

  /** It happens: with a failure that names no required check, and with one that does. */
  lemma DoneDespiteNewerFailure()
    ensures var evidence := [Row("r", "b", Outcomes, Fail, ["tone: too terse"], 2, 2), Row("r", "a", Outcomes, Pass, [], 1, 1)];
      NextContinuation(Some(Contract({}, false)), evidence) == DONE && NewestOutcome(evidence, 0) && evidence[0].status == Fail
    ensures var evidence := [Row("r", "c", Syntax, Pass, [], 3, 3), Row("r", "b", Outcomes, Fail, ["syntax: broken"], 2, 2),
                             Row("r", "a", Outcomes, Pass, [], 1, 1)];
      NextContinuation(Some(Contract({}, true)), evidence) == DONE && NewestOutcome(evidence, 1) && evidence[1].status == Fail
  {
    var mild := [Row("r", "b", Outcomes, Fail, ["tone: too terse"], 2, 2), Row("r", "a", Outcomes, Pass, [], 1, 1)];
    assert PassOf(mild[1], Outcomes);
    DoneDespiteFailureExactly(Contract({}, false), mild, 0);
    var named := [Row("r", "c", Syntax, Pass, [], 3, 3), Row("r", "b", Outcomes, Fail, ["syntax: broken"], 2, 2),
                  Row("r", "a", Outcomes, Pass, [], 1, 1)];
    assert FreshAt(named, Syntax, "syntax:", 0) && PassOf(named[2], Outcomes);
    DoneDespiteFailureExactly(Contract({}, true), named, 1);
  }
}
