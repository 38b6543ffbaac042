/** The event index over the prevention rules, and the middleware that feeds it. */
module EventBus {
  import opened Wrappers
  import opened Sequences
  import opened RuleStore
  import Lifecycle = RuleLifecycle

  /** Old trigger names and the events they stand for. */
  const TRIGGER_MIGRATION: map<string, string> := map[
    "on_prompt" := "prompt.received",
    "prompt_received" := "prompt.received",
    "on_startup" := "session.start",
    "after_tool_call" := "tool.after:*",
    "before_design" := "phase.before:design",
    "before_code_change" := "phase.before:code_change",
    "after_code_change" := "phase.after:code_change",
    "pre_commit" := "phase.before:commit",
    "after_audit" := "phase.after:audit"]

  function Migrated(trigger: string): string {
    if trigger in TRIGGER_MIGRATION then TRIGGER_MIGRATION[trigger] else trigger
  }

  /** Migrated names are final: none of them is an old name again. */
  lemma MigrationIsFinal(trigger: string)
    ensures Migrated(trigger) !in TRIGGER_MIGRATION && Migrated(Migrated(trigger)) == Migrated(trigger)
  {}

  function BeforeColon(event: string): string {
    if event == "" || event[0] == ':' then "" else [event[0]] + BeforeColon(event[1..])
  }

  /** The pattern that also hears an event: what stands before its first colon, then ":*". */
  function Wildcard(event: string): string { BeforeColon(event) + ":*" }

  /** The pattern over an event is what stands before the first colon, then a colon and a star. */
  lemma {:induction false} WildcardOf(head: string, rest: string)
    requires ':' !in head
    ensures Wildcard(head + ":" + rest) == head + ":*"
  {
    if head == "" {
      assert (head + ":" + rest)[0] == ':';
    } else {
      WildcardOf(head[1..], rest);
      assert (head + ":" + rest)[0] == head[0] && (head + ":" + rest)[1..] == head[1..] + ":" + rest;
      assert head == [head[0]] + head[1..];
      assert BeforeColon(head[1..] + ":" + rest) + ":*" == head[1..] + ":*";
      assert [head[0]] + BeforeColon(head[1..] + ":" + rest) + ":*" == [head[0]] + (BeforeColon(head[1..] + ":" + rest) + ":*");
    }
  }

  // ----- the linear scan

  /** The rule listens to this event by name, or to the pattern over it. */
  predicate Hears(r: Rule, event: string) {
    Migrated(r.trigger) == event || (':' in event && Migrated(r.trigger) == Wildcard(event))
  }

  function Listens(event: string): Rule -> bool {
    (r: Rule) => Migrated(r.trigger) == event
  }

  /** First the rules for the event itself, then those for the pattern over it. */
  function Scan(snapshot: seq<Rule>, event: string): seq<Rule> {
    Filter(snapshot, Listens(event)) + if ':' in event then Filter(snapshot, Listens(Wildcard(event))) else []
  }

  /** The scan finds exactly the rules that hear the event. */
  lemma ScanFindsExactly(snapshot: seq<Rule>, event: string)
    ensures forall r :: r in Scan(snapshot, event) <==> r in snapshot && Hears(r, event)
  {
    FilterSubsequence(snapshot, Listens(event));
    FilterSubsequence(snapshot, Listens(Wildcard(event)));
  }

  /** In full: a colon brings in, behind the rules for the name, those for everything of that family;
      without one only the name counts. */
  lemma ScanInFull(snapshot: seq<Rule>, head: string, rest: string, r: Rule)
    requires ':' !in head
    ensures Scan(snapshot, head + ":" + rest) == Filter(snapshot, Listens(head + ":" + rest)) + Filter(snapshot, Listens(head + ":*"))
    ensures r in Scan(snapshot, head + ":" + rest) <==>
      r in snapshot && (Migrated(r.trigger) == head + ":" + rest || Migrated(r.trigger) == head + ":*")
    ensures r in Scan(snapshot, head) <==> r in snapshot && Migrated(r.trigger) == head
  {
    ScanFindsExactly(snapshot, head + ":" + rest);
    ScanFindsExactly(snapshot, head);
    WildcardOf(head, rest);
    assert (head + ":" + rest)[|head|] == ':';
  }

  lemma DistinctConcat(s: seq<Rule>, t: seq<Rule>)
    requires Distinct(s) && Distinct(t) && forall r :: r in s ==> r !in t
    ensures Distinct(s + t) && Distinct(s + [])
  {
    assert s + [] == s;
    forall i, j | 0 <= i < j < |s + t| ensures (s + t)[i] != (s + t)[j] {
      if i < |s| <= j { assert s[i] in s && t[j - |s|] in t; }
    }
  }

  /** Each of them once, unless the event is its own pattern: then each of them twice. */
  lemma ScanFindsOnce(snapshot: seq<Rule>, event: string)
    requires Distinct(snapshot)
    ensures event != Wildcard(event) ==> Distinct(Scan(snapshot, event))
    ensures event == Wildcard(event) ==>
      Scan(snapshot, event) == Filter(snapshot, Listens(event)) + Filter(snapshot, Listens(event))
  {
    FilterSubsequence(snapshot, Listens(event));
    FilterSubsequence(snapshot, Listens(Wildcard(event)));
    if event == Wildcard(event) {
      assert event[|BeforeColon(event)|] == ':';
    } else {
      DistinctConcat(Filter(snapshot, Listens(event)), Filter(snapshot, Listens(Wildcard(event))));
    }
  }

  // ----- the index

  function Bucket(index: map<string, seq<Rule>>, event: string): seq<Rule> {
    if event in index then index[event] else []
  }

  ghost predicate Indexes(index: map<string, seq<Rule>>, snapshot: seq<Rule>) {
    forall event :: Bucket(index, event) == Filter(snapshot, Listens(event))
  }

  lemma FilterLast(s: seq<Rule>, r: Rule, keep: Rule -> bool)
    ensures Filter(s + [r], keep) == Filter(s, keep) + if keep(r) then [r] else []
  {
    FilterAppend(s, [r], keep);
    assert [r][1..] == [];
  }

  method BuildIndex(rules: seq<Rule>) returns (index: map<string, seq<Rule>>)
    ensures Indexes(index, rules)
  {
    index := map[];
    for i := 0 to |rules|
      invariant Indexes(index, rules[..i])
    {
      var r := rules[i];
      var trigger, before := Migrated(r.trigger), index;
      index := index[trigger := Bucket(index, trigger) + [r]];
      assert rules[..i + 1] == rules[..i] + [r];
      forall event ensures Bucket(index, event) == Filter(rules[..i + 1], Listens(event)) {
        FilterLast(rules[..i], r, Listens(event));
        assert Bucket(before, event) == Filter(rules[..i], Listens(event));
      }
    }
    assert rules[..|rules|] == rules;
  }

  // ----- evaluating what was found

  /** Which of the two store calls for one matched rule fail. */
  datatype Fault = Fault(increment: bool, update: bool)

  /** Phase events fire their rules without looking at the text. */
  predicate Fires(r: Rule, event: string, keyword: (string, Rule) -> bool) {
    "phase." <= event || keyword(event, r)
  }

  /** One matched rule: a firing is counted when its call succeeds, the evaluation is counted in
      any case unless its own call fails. */
  function Evaluation(t: Table, id: int, fires: bool, fault: Fault): Table {
    var counted := if fires && !fault.increment then Apply(t, Trigger(id)) else t;
    if fault.update then counted else Apply(counted, Evaluate(id))
  }

  function Evaluations(t: Table, matched: seq<Rule>, event: string, keyword: (string, Rule) -> bool,
      faults: nat -> Fault): Table
  {
    if matched == [] then t
    else
      var n := |matched| - 1;
      Evaluation(Evaluations(t, matched[..n], event, keyword, faults), matched[n].id,
                Fires(matched[n], event, keyword), faults(n))
  }

  function Warned(matched: seq<Rule>, event: string, keyword: (string, Rule) -> bool, faults: nat -> Fault): seq<Rule> {
    if matched == [] then []
    else
      var n := |matched| - 1;
      Warned(matched[..n], event, keyword, faults) +
      if Fires(matched[n], event, keyword) && !faults(n).increment then [matched[n]] else []
  }

  // ----- who is warned, and what is counted

  /** A phase event fires every rule that hears it; any other event only a rule whose text is found. */
  ghost predicate Triggers(event: string, found: bool) {
    (exists rest :: event == "phase." + rest) || found
  }

  lemma FiresExactly(r: Rule, event: string, keyword: (string, Rule) -> bool)
    ensures Fires(r, event, keyword) <==> Triggers(event, keyword(event, r))
  {
    if "phase." <= event { assert event == "phase." + event[6..]; }
    if rest :| event == "phase." + rest { assert "phase." <= event; }
  }

  /** The n-th rule found fires, and its firing is counted. */
  ghost predicate WarnsAt(matched: seq<Rule>, event: string, keyword: (string, Rule) -> bool, faults: nat -> Fault, n: int) {
    0 <= n < |matched| && Triggers(event, keyword(event, matched[n])) && !faults(n).increment
  }

  /** The warnings are those of the firings counted among the first k rules found, in that order:
      `at` lists their positions. */
  ghost predicate WarningsAt(matched: seq<Rule>, k: nat, event: string, keyword: (string, Rule) -> bool,
      faults: nat -> Fault, warnings: seq<Rule>, at: seq<nat>)
  {
    && |at| == |warnings| && (forall i, j :: 0 <= i < j < |at| ==> at[i] < at[j])
    && (forall n :: n in at <==> n < k && WarnsAt(matched, event, keyword, faults, n))
    && (forall i :: 0 <= i < |at| ==> at[i] < |matched| && warnings[i] == matched[at[i]])
  }

  lemma {:induction false} WarningsExactly(matched: seq<Rule>, k: nat, event: string, keyword: (string, Rule) -> bool,
      faults: nat -> Fault) returns (at: seq<nat>)
    requires k <= |matched|
    ensures WarningsAt(matched, k, event, keyword, faults, Warned(matched[..k], event, keyword, faults), at)
  {
    at := [];
    if k > 0 {
      assert matched[..k][..k - 1] == matched[..k - 1];
      var before := WarningsExactly(matched, k - 1, event, keyword, faults);
      FiresExactly(matched[k - 1], event, keyword);
      at := before;
      if WarnsAt(matched, event, keyword, faults, k - 1) {
        at := before + [k - 1];
        PositionLast(matched, k - 1, event, keyword, faults, Warned(matched[..k - 1], event, keyword, faults), before);
      }
    }
  }

  lemma PositionLast(matched: seq<Rule>, k: nat, event: string, keyword: (string, Rule) -> bool, faults: nat -> Fault,
      warnings: seq<Rule>, at: seq<nat>)
    requires WarnsAt(matched, event, keyword, faults, k) && WarningsAt(matched, k, event, keyword, faults, warnings, at)
    ensures WarningsAt(matched, k + 1, event, keyword, faults, warnings + [matched[k]], at + [k])
  {
    forall i | 0 <= i < |at| ensures at[i] < k { assert at[i] in at; }
  }

  ghost function Positions(k: nat, hit: nat -> bool): set<nat> {
    set n: nat | n < k && hit(n)
  }

  lemma PositionsNext(k: nat, hit: nat -> bool)
    ensures |Positions(k + 1, hit)| == |Positions(k, hit)| + if hit(k) then 1 else 0
  {
    assert Positions(k + 1, hit) == Positions(k, hit) + if hit(k) then {k} else {};
  }

  /** Positions at which the firing, and the evaluation, of the rule with this identifier is counted. */
  ghost function FiringOf(matched: seq<Rule>, event: string, keyword: (string, Rule) -> bool, faults: nat -> Fault,
      id: int): nat -> bool
  {
    (n: nat) => n < |matched| && matched[n].id == id && WarnsAt(matched, event, keyword, faults, n)
  }

  ghost function EvaluationOf(matched: seq<Rule>, faults: nat -> Fault, id: int): nat -> bool {
    (n: nat) => n < |matched| && matched[n].id == id && !faults(n).update
  }

  /** The table after the first k evaluations of an emission: the same rows, each with its firings
      and its evaluations counted. */
  ghost predicate CountsEmission(t: Table, t': Table, matched: seq<Rule>, k: nat, event: string,
      keyword: (string, Rule) -> bool, faults: nat -> Fault)
  {
    && |t'.rules| == |t.rules| && t'.nextId == t.nextId
    && forall i :: 0 <= i < |t.rules| ==>
      Counted(t.rules[i], t'.rules[i], |Positions(k, FiringOf(matched, event, keyword, faults, t.rules[i].id))|,
              |Positions(k, EvaluationOf(matched, faults, t.rules[i].id))|, 0, 0)
  }

  lemma {:induction false} EmissionCounts(t: Table, matched: seq<Rule>, k: nat, event: string,
      keyword: (string, Rule) -> bool, faults: nat -> Fault)
    requires k <= |matched|
    ensures CountsEmission(t, Evaluations(t, matched[..k], event, keyword, faults), matched, k, event, keyword, faults)
  {
    if k == 0 {
      forall i | 0 <= i < |t.rules|
        ensures Positions(0, FiringOf(matched, event, keyword, faults, t.rules[i].id)) == {}
        ensures Positions(0, EvaluationOf(matched, faults, t.rules[i].id)) == {}
      {}
    } else {
      assert matched[..k][..k - 1] == matched[..k - 1];
      EmissionCounts(t, matched, k - 1, event, keyword, faults);
      var before := Evaluations(t, matched[..k - 1], event, keyword, faults);
      var fires := Fires(matched[k - 1], event, keyword);
      OneEvaluationKeeps(before, matched[k - 1].id, fires, faults(k - 1));
      FiresExactly(matched[k - 1], event, keyword);
      forall i | 0 <= i < |t.rules|
        ensures Counted(t.rules[i], Evaluations(t, matched[..k], event, keyword, faults).rules[i],
                        |Positions(k, FiringOf(matched, event, keyword, faults, t.rules[i].id))|,
                        |Positions(k, EvaluationOf(matched, faults, t.rules[i].id))|, 0, 0)
      {
        PositionsNext(k - 1, FiringOf(matched, event, keyword, faults, t.rules[i].id));
        PositionsNext(k - 1, EvaluationOf(matched, faults, t.rules[i].id));
        OneEvaluationCounts(before, matched[k - 1].id, fires, faults(k - 1), i);
      }
    }
  }

  lemma OneEvaluationKeeps(t: Table, id: int, fires: bool, fault: Fault)
    ensures |Evaluation(t, id, fires, fault).rules| == |t.rules| && Evaluation(t, id, fires, fault).nextId == t.nextId
  {}

  lemma OneEvaluationCounts(t: Table, id: int, fires: bool, fault: Fault, i: nat)
    requires i < |t.rules|
    ensures |Evaluation(t, id, fires, fault).rules| == |t.rules|
    ensures var mine := t.rules[i].id == id;
      Counted(t.rules[i], Evaluation(t, id, fires, fault).rules[i], if mine && fires && !fault.increment then 1 else 0,
              if mine && !fault.update then 1 else 0, 0, 0)
  {
    var counted := if fires && !fault.increment then Apply(t, Trigger(id)) else t;
    assert !fault.update ==> Some(Apply(counted, Evaluate(id)).rules[i]) == OnRow(counted.rules[i], Evaluate(id));
  }

  /** Phase events warn of every rule that hears them, whatever the text says. */
  lemma PhaseWarnsAll(snapshot: seq<Rule>, event: string, phase: string, keyword: (string, Rule) -> bool,
      faults: nat -> Fault, n: nat)
    requires event == "phase.before:" + phase && n < |Scan(snapshot, event)|
    ensures WarnsAt(Scan(snapshot, event), event, keyword, faults, n) <==> !faults(n).increment
  {
    PhaseTriggers(phase, keyword(event, Scan(snapshot, event)[n]));
  }

  lemma PhaseTriggers(phase: string, found: bool)
    ensures Triggers("phase.before:" + phase, found)
  {
    assert "phase.before:" + phase == "phase." + ("before:" + phase);
  }

  /** Tool and prompt events warn of a rule that hears them exactly when its text is found. */
  lemma TextDecides(snapshot: seq<Rule>, event: string, keyword: (string, Rule) -> bool, faults: nat -> Fault, n: nat)
    requires (exists tool :: event == "tool.before:" + tool || event == "tool.after:" + tool) || event == "prompt.received"
    requires n < |Scan(snapshot, event)|
    ensures WarnsAt(Scan(snapshot, event), event, keyword, faults, n) <==>
      keyword(event, Scan(snapshot, event)[n]) && !faults(n).increment
  {
    assert event[1] == 'o' || event[1] == 'r';
    assert "phase."[1] == 'h';
    forall rest: string ensures ("phase." + rest)[1] == 'h' {}
  }

  class EventBus {
    const store: Store
    var index: map<string, seq<Rule>>
    ghost var snapshot: seq<Rule>   // the rules at the last reload; none if it failed

    ghost predicate Valid()
      reads this
    {
      Indexes(index, snapshot)
    }

    constructor (store: Store, loadFails: bool)
      ensures Valid() && this.store == store
      ensures snapshot == Loaded(store.table, loadFails)
    {
      this.store, index, snapshot := store, map[], [];
      new;
      Reload(loadFails);
    }

    method Reload(loadFails: bool)
      modifies this
      ensures Valid() && snapshot == Loaded(store.table, loadFails)
      ensures IsReload(store.table, loadFails, snapshot)
    {
      if loadFails {
        index, snapshot := map[], [];
      } else {
        var rules := store.GetActivePreventionRules();
        index := BuildIndex(rules);
        snapshot := rules;
      }
    }

    /** The index finds what the linear scan finds, and every rule found is evaluated. */
    method Emit(event: string, keyword: (string, Rule) -> bool, faults: nat -> Fault) returns (warnings: seq<Rule>)
      requires Valid()
      modifies store
      ensures Valid()
      ensures store.table == Evaluations(old(store.table), Scan(snapshot, event), event, keyword, faults)
      ensures warnings == Warned(Scan(snapshot, event), event, keyword, faults)
      ensures CountsEmission(old(store.table), store.table, Scan(snapshot, event), |Scan(snapshot, event)|, event, keyword,
                             faults)
      ensures exists at :: WarningsAt(Scan(snapshot, event), |Scan(snapshot, event)|, event, keyword, faults, warnings,
                                       at)
    {
      ghost var found := Scan(snapshot, event);
      assert found[..|found|] == found;
      EmissionCounts(store.table, found, |found|, event, keyword, faults);
      ghost var at := WarningsExactly(found, |found|, event, keyword, faults);
      var matched := Bucket(index, event);
      if ':' in event {
        matched := matched + Bucket(index, Wildcard(event));
      }
      assert matched == Scan(snapshot, event);
      warnings := EvaluateRules(matched, event, keyword, faults);
    }

    method EvaluateRules(matched: seq<Rule>, event: string, keyword: (string, Rule) -> bool, faults: nat -> Fault)
        returns (warnings: seq<Rule>)
      modifies store
      ensures store.table == Evaluations(old(store.table), matched, event, keyword, faults)
      ensures warnings == Warned(matched, event, keyword, faults)
    {
      ghost var start := store.table;
      warnings := [];
      for n := 0 to |matched|
        invariant store.table == Evaluations(start, matched[..n], event, keyword, faults)
        invariant warnings == Warned(matched[..n], event, keyword, faults)
      {
        assert matched[..n + 1][..n] == matched[..n];
        var fires := Fires(matched[n], event, keyword);
        var warned := EvaluateRule(matched[n], fires, faults(n));
        if warned { warnings := warnings + [matched[n]]; }
      }
      assert matched[..|matched|] == matched;
    }

    method EvaluateRule(r: Rule, fires: bool, fault: Fault) returns (warned: bool)
      modifies store
      ensures store.table == Evaluation(old(store.table), r.id, fires, fault)
      ensures warned <==> fires && !fault.increment
    {
      warned := false;
      if fires && !fault.increment {
        store.IncrementRuleTrigger(r.id);
        warned := true;
      }
      if !fault.update {
        store.UpdateRuleEvaluation(r.id);
      }
    }
  }

  function Loaded(t: Table, loadFails: bool): seq<Rule> {
    if loadFails then [] else Filter(t.rules, Enabled)
  }

  // ----- the middleware

  const RELOAD_INTERVAL := 50
  const EXEMPT_TOOLS := {"get_user_profile", "update_user_config"}
  const PROMPT_TOOLS := {"elite_prepare", "orchestrate_request_tool", "workflow_run"}

  /** The events of a call before the tool runs; phase is what its prompt is about, if anything. */
  function EventsBefore(tool: string, phase: Option<string>): seq<string> {
    if tool in EXEMPT_TOOLS then []
    else
      ["tool.before:" + tool] +
      if tool in PROMPT_TOOLS then
        ["prompt.received"] + if phase.Some? then ["phase.before:" + phase.value] else []
      else []
  }

  /** The events of a call, in the caller's terms. */
  ghost predicate CallEvent(tool: string, phase: Option<string>, event: string) {
    && tool != "get_user_profile" && tool != "update_user_config"
    && (event == "tool.before:" + tool ||
        (tool in ["elite_prepare", "orchestrate_request_tool", "workflow_run"] &&
         (event == "prompt.received" || exists p :: phase == Some(p) && event == "phase.before:" + p)))
  }

  /** Exactly those, the tool's event before the prompt's and that before the phase's. */
  lemma CallEvents(tool: string, phase: Option<string>)
    ensures forall event :: event in EventsBefore(tool, phase) <==> CallEvent(tool, phase, event)
    ensures var events := EventsBefore(tool, phase);
      && (|events| > 0 ==> events[0] == "tool.before:" + tool)
      && (|events| > 1 ==> events[1] == "prompt.received")
      && (|events| > 2 ==> phase.Some? && events[2] == "phase.before:" + phase.value) && |events| <= 3
  {
    var events := EventsBefore(tool, phase);
    forall event | CallEvent(tool, phase, event) ensures event in events {
      if event == "tool.before:" + tool { assert events[0] == event; }
    }
  }

  function FaultsOf(faults: (string, nat) -> Fault, event: string): nat -> Fault {
    (n: nat) => faults(event, n)
  }

  /** The table after these events were emitted one after the other. */
  function Emitted(t: Table, snapshot: seq<Rule>, events: seq<string>, keyword: (string, Rule) -> bool,
      faults: (string, nat) -> Fault): Table
  {
    if events == [] then t
    else
      var event := events[|events| - 1];
      Evaluations(Emitted(t, snapshot, events[..|events| - 1], keyword, faults), Scan(snapshot, event), event,
                  keyword, FaultsOf(faults, event))
  }

  function EmittedWarnings(snapshot: seq<Rule>, events: seq<string>, keyword: (string, Rule) -> bool,
      faults: (string, nat) -> Fault): seq<Rule>
  {
    if events == [] then []
    else
      var event := events[|events| - 1];
      EmittedWarnings(snapshot, events[..|events| - 1], keyword, faults) +
      Warned(Scan(snapshot, event), event, keyword, FaultsOf(faults, event))
  }

  /** The event warns of the rule, which hears it. */
  ghost predicate Warns(snapshot: seq<Rule>, event: string, keyword: (string, Rule) -> bool,
      faults: (string, nat) -> Fault, r: Rule)
  {
    exists n :: WarnsOf(snapshot, event, keyword, faults, r, n)
  }

  ghost predicate WarnsOf(snapshot: seq<Rule>, event: string, keyword: (string, Rule) -> bool,
      faults: (string, nat) -> Fault, r: Rule, n: int)
  {
    WarnsAt(Scan(snapshot, event), event, keyword, FaultsOf(faults, event), n) && Scan(snapshot, event)[n] == r
  }

  lemma WarnedMembers(snapshot: seq<Rule>, event: string, keyword: (string, Rule) -> bool,
      faults: (string, nat) -> Fault, r: Rule)
    ensures r in Warned(Scan(snapshot, event), event, keyword, FaultsOf(faults, event)) <==>
      Warns(snapshot, event, keyword, faults, r)
  {
    var matched := Scan(snapshot, event);
    assert matched[..|matched|] == matched;
    var at := WarningsExactly(matched, |matched|, event, keyword, FaultsOf(faults, event));
    var warnings := Warned(matched, event, keyword, FaultsOf(faults, event));
    if n :| WarnsOf(snapshot, event, keyword, faults, r, n) {
      assert n in at;
      var i :| 0 <= i < |at| && at[i] == n;
      assert warnings[i] == r;
    }
    if r in warnings {
      var i :| 0 <= i < |warnings| && warnings[i] == r;
      assert at[i] in at;
      assert WarnsOf(snapshot, event, keyword, faults, r, at[i]);
    }
  }

  /** Who is warned by a list of events. */
  lemma {:induction false} EmittedMembers(snapshot: seq<Rule>, events: seq<string>, keyword: (string, Rule) -> bool,
      faults: (string, nat) -> Fault, r: Rule)
    ensures r in EmittedWarnings(snapshot, events, keyword, faults) <==>
      exists event :: event in events && Warns(snapshot, event, keyword, faults, r)
  {
    if events != [] {
      var init, event := events[..|events| - 1], events[|events| - 1];
      EmittedMembers(snapshot, init, keyword, faults, r);
      WarnedMembers(snapshot, event, keyword, faults, r);
      EventsSplit(events, (e: string) => Warns(snapshot, e, keyword, faults, r));
    }
  }

  lemma EventsSplit(events: seq<string>, p: string -> bool)
    requires events != []
    ensures (exists event :: event in events && p(event)) <==>
      p(events[|events| - 1]) || exists event :: event in events[..|events| - 1] && p(event)
  {
    assert events == events[..|events| - 1] + [events[|events| - 1]];
  }

  /** Who is warned before a call: the rules that one of the call's events warns of. */
  lemma CallWarnsExactly(snapshot: seq<Rule>, tool: string, phase: Option<string>, keyword: (string, Rule) -> bool,
      faults: (string, nat) -> Fault, r: Rule)
    ensures r in EmittedWarnings(snapshot, EventsBefore(tool, phase), keyword, faults) <==>
      exists event :: CallEvent(tool, phase, event) && Warns(snapshot, event, keyword, faults, r)
  {
    CallEvents(tool, phase);
    EmittedMembers(snapshot, EventsBefore(tool, phase), keyword, faults, r);
  }

  lemma CallWarnings(snapshot: seq<Rule>, tool: string, phase: Option<string>, keyword: (string, Rule) -> bool,
      faults: (string, nat) -> Fault)
    ensures forall r :: r in EmittedWarnings(snapshot, EventsBefore(tool, phase), keyword, faults) <==>
      exists event :: CallEvent(tool, phase, event) && Warns(snapshot, event, keyword, faults, r)
  {
    forall r ensures r in EmittedWarnings(snapshot, EventsBefore(tool, phase), keyword, faults) <==>
      exists event :: CallEvent(tool, phase, event) && Warns(snapshot, event, keyword, faults, r)
    {
      CallWarnsExactly(snapshot, tool, phase, keyword, faults, r);
    }
  }

  /** The table, the rules at the last reload, and the calls seen so far. */
  datatype Session = Session(table: Table, snapshot: seq<Rule>, calls: nat)

  datatype Step =
    | Before(tool: string, phase: Option<string>, loadFails: bool,
             keyword: (string, Rule) -> bool, faults: (string, nat) -> Fault)
    | After(tool: string, keyword: (string, Rule) -> bool, faults: (string, nat) -> Fault)
    | Meanwhile(e: Lifecycle.Event)

  function Reloaded(s: Session, loadFails: bool): Session {
    if (s.calls + 1) % RELOAD_INTERVAL == 0 then Session(s.table, Loaded(s.table, loadFails), s.calls + 1)
    else s.(calls := s.calls + 1)
  }

  function Next(s: Session, step: Step): Session {
    match step
    case Before(tool, phase, loadFails, keyword, faults) =>
      var c := Reloaded(s, loadFails);
      c.(table := Emitted(c.table, c.snapshot, EventsBefore(tool, phase), keyword, faults))
    case After(tool, keyword, faults) =>
      s.(table := Emitted(s.table, s.snapshot, ["tool.after:" + tool], keyword, faults))
    case Meanwhile(e) =>
      s.(table := Lifecycle.Happens(s.table, e))
  }

  /** Each fiftieth call reloads: it works with the rules enabled at that time, or none if loading
      fails. */
  lemma ReloadsExactly(s: Session, loadFails: bool)
    ensures Reloaded(s, loadFails).calls == s.calls + 1
    ensures (s.calls + 1) % 50 == 0 ==> IsReload(s.table, loadFails, Reloaded(s, loadFails).snapshot)
    ensures (s.calls + 1) % 50 != 0 ==> Reloaded(s, loadFails).snapshot == s.snapshot
  {
    LoadedIsReload(s.table, loadFails);
  }

  /** Nothing else changes the rules that are listened to, or counts a call. */
  lemma OnlyCallsReload(s: Session, step: Step)
    ensures step.Before? ==> Next(s, step).snapshot == Reloaded(s, step.loadFails).snapshot
    ensures step.Before? ==> Next(s, step).calls == Reloaded(s, step.loadFails).calls
    ensures !step.Before? ==> Next(s, step).snapshot == s.snapshot && Next(s, step).calls == s.calls
  {}

  ghost predicate IsReload(t: Table, loadFails: bool, snapshot: seq<Rule>) {
    if loadFails then snapshot == [] else forall r :: r in snapshot <==> r in t.rules && r.enabled
  }

  lemma LoadedIsReload(t: Table, loadFails: bool)
    ensures IsReload(t, loadFails, Loaded(t, loadFails))
  {
    FilterSubsequence(t.rules, Enabled);
  }

  function RunSession(s: Session, steps: seq<Step>): Session {
    if steps == [] then s else Next(RunSession(s, steps[..|steps| - 1]), steps[|steps| - 1])
  }

  class PreventionRuleMiddleware {
    const bus: EventBus
    var evalCount: nat

    constructor (bus: EventBus)
      ensures this.bus == bus && evalCount == 0
    {
      this.bus, evalCount := bus, 0;
    }

    ghost function State(): Session
      reads this, bus, bus.store
    {
      Session(bus.store.table, bus.snapshot, evalCount)
    }

    method EmitEach(events: seq<string>, keyword: (string, Rule) -> bool, faults: (string, nat) -> Fault)
        returns (warnings: seq<Rule>)
      requires bus.Valid()
      modifies bus.store
      ensures bus.Valid()
      ensures bus.store.table == Emitted(old(bus.store.table), bus.snapshot, events, keyword, faults)
      ensures warnings == EmittedWarnings(bus.snapshot, events, keyword, faults)
    {
      ghost var start := bus.store.table;
      warnings := [];
      for i := 0 to |events|
        invariant bus.Valid()
        invariant bus.store.table == Emitted(start, bus.snapshot, events[..i], keyword, faults)
        invariant warnings == EmittedWarnings(bus.snapshot, events[..i], keyword, faults)
      {
        assert events[..i + 1][..i] == events[..i];
        var more := bus.Emit(events[i], keyword, FaultsOf(faults, events[i]));
        warnings := warnings + more;
      }
      assert events[..|events|] == events;
    }

    method CountCall(loadFails: bool)
      requires bus.Valid()
      modifies this, bus
      ensures bus.Valid() && State() == Reloaded(old(State()), loadFails)
    {
      evalCount := evalCount + 1;
      if evalCount % RELOAD_INTERVAL == 0 {
        bus.Reload(loadFails);
      }
    }

    method BeforeCall(tool: string, phase: Option<string>, loadFails: bool,
        keyword: (string, Rule) -> bool, faults: (string, nat) -> Fault) returns (warnings: seq<Rule>)
      requires bus.Valid()
      modifies this, bus, bus.store
      ensures bus.Valid() && State() == Next(old(State()), Before(tool, phase, loadFails, keyword, faults))
      ensures warnings == EmittedWarnings(bus.snapshot, EventsBefore(tool, phase), keyword, faults)
      ensures forall r :: r in warnings <==>
        exists event :: CallEvent(tool, phase, event) && Warns(bus.snapshot, event, keyword, faults, r)
    {
      CountCall(loadFails);
      warnings := EmitEach(EventsBefore(tool, phase), keyword, faults);
      CallWarnings(bus.snapshot, tool, phase, keyword, faults);
    }

    /** Also for the tools that are exempt before the call. */
    method AfterCall(tool: string, keyword: (string, Rule) -> bool, faults: (string, nat) -> Fault)
        returns (warnings: seq<Rule>)
      requires bus.Valid()
      modifies bus.store
      ensures bus.Valid() && State() == Next(old(State()), After(tool, keyword, faults))
      ensures forall r :: r in warnings <==> Warns(bus.snapshot, "tool.after:" + tool, keyword, faults, r)
    {
      var event := "tool.after:" + tool;
      warnings := EmitEach([event], keyword, faults);
      AloneMembers(bus.snapshot, event, keyword, faults);
    }
  }

  lemma AloneMembers(snapshot: seq<Rule>, event: string, keyword: (string, Rule) -> bool,
      faults: (string, nat) -> Fault)
    ensures forall r :: r in EmittedWarnings(snapshot, [event], keyword, faults) <==> Warns(snapshot, event, keyword, faults, r)
  {
    forall r ensures r in EmittedWarnings(snapshot, [event], keyword, faults) <==> Warns(snapshot, event, keyword, faults, r) {
      EmittedMembers(snapshot, [event], keyword, faults, r);
      assert event in [event];
    }
  }

  // ----- counters over a whole session

  ghost predicate SameRow(r: Rule, r': Rule) {
    r'.id == r.id && r'.state == r.state && r'.enabled == r.enabled
  }

  /** The table kept its rows and their states. */
  ghost predicate SameRows(t: Table, t': Table) {
    |t'.rules| == |t.rules| && t'.nextId == t.nextId && forall i :: 0 <= i < |t.rules| ==> SameRow(t.rules[i], t'.rules[i])
  }

  /** The other rows did not change at all. */
  ghost predicate OnlyCounts(t: Table, t': Table, id: int) {
    SameRows(t, t') && forall i :: 0 <= i < |t.rules| && t.rules[i].id != id ==> t'.rules[i] == t.rules[i]
  }

  lemma EvaluationCounts(t: Table, id: int, fires: bool, fault: Fault)
    ensures OnlyCounts(t, Evaluation(t, id, fires, fault), id)
    ensures !fault.update ==>
      Evaluation(t, id, fires, fault) == Lifecycle.Happens(t, Lifecycle.Evaluation(id, fires && !fault.increment))
  {
    var counted := if fires && !fault.increment then Apply(t, Trigger(id)) else t;
    assert OnlyCounts(t, counted, id);
  }

  /** The firing was counted and its evaluation was not. */
  predicate Lost(fires: bool, fault: Fault) { fires && !fault.increment && fault.update }

  /** Such a loss where the row of the rule has no evaluation to spare. */
  ghost predicate TightLoss(t: Table, id: int, fires: bool, fault: Fault) {
    Lost(fires, fault) && exists i :: Tight(t, id, i)
  }

  ghost predicate Tight(t: Table, id: int, i: int) {
    0 <= i < |t.rules| && t.rules[i].id == id && t.rules[i].timesTriggered == t.rules[i].evaluationCount
  }

  /** One evaluation breaks the bound on the firings exactly when it is a tight loss. */
  lemma EvaluationSoundExactly(t: Table, id: int, fires: bool, fault: Fault)
    requires Lifecycle.Sound(t)
    ensures Lifecycle.Sound(Evaluation(t, id, fires, fault)) <==> !TightLoss(t, id, fires, fault)
  {
    EvaluationCounts(t, id, fires, fault);
    if Lost(fires, fault) {
      LossSoundExactly(t, id);
    } else if !fault.update {
      Lifecycle.SoundStays(t, Lifecycle.Evaluation(id, fires && !fault.increment));
    }
  }

  lemma LossSoundExactly(t: Table, id: int)
    requires Lifecycle.Sound(t)
    ensures Lifecycle.Sound(Apply(t, Trigger(id))) <==> !exists i :: Tight(t, id, i)
  {
    var after := Apply(t, Trigger(id));
    ApplyWellFormed(t, Trigger(id));
    assert forall i :: 0 <= i < |t.rules| ==> Some(after.rules[i]) == OnRow(t.rules[i], Trigger(id));
    if i :| Tight(t, id, i) {
      assert after.rules[i].timesTriggered > after.rules[i].evaluationCount;
    } else {
      forall i | 0 <= i < |t.rules| ensures after.rules[i].timesTriggered <= after.rules[i].evaluationCount {
        assert !Tight(t, id, i);
      }
    }
  }

  /** A whole emission keeps the bound at every evaluation exactly when none is a tight loss. */
  lemma {:induction false} EmissionSoundExactly(t: Table, matched: seq<Rule>, event: string,
      keyword: (string, Rule) -> bool, faults: nat -> Fault)
    requires Lifecycle.Sound(t)
    ensures AlwaysSound(t, matched, event, keyword, faults) <==> NeverTight(t, matched, event, keyword, faults)
  {
    if matched != [] {
      var n := |matched| - 1;
      EmissionSoundExactly(t, matched[..n], event, keyword, faults);
      var before := Evaluations(t, matched[..n], event, keyword, faults);
      if AlwaysSound(t, matched[..n], event, keyword, faults) {
        AlwaysSoundEnds(t, matched[..n], event, keyword, faults);
        EvaluationSoundExactly(before, matched[n].id, Fires(matched[n], event, keyword), faults(n));
      }
    }
  }

  ghost predicate AlwaysSound(t: Table, matched: seq<Rule>, event: string, keyword: (string, Rule) -> bool,
      faults: nat -> Fault)
  {
    if matched == [] then Lifecycle.Sound(t)
    else
      && AlwaysSound(t, matched[..|matched| - 1], event, keyword, faults)
      && Lifecycle.Sound(Evaluations(t, matched, event, keyword, faults))
  }

  ghost predicate NeverTight(t: Table, matched: seq<Rule>, event: string, keyword: (string, Rule) -> bool,
      faults: nat -> Fault)
  {
    matched == [] ||
    var n := |matched| - 1;
    && NeverTight(t, matched[..n], event, keyword, faults)
    && !TightLoss(Evaluations(t, matched[..n], event, keyword, faults), matched[n].id,
                  Fires(matched[n], event, keyword), faults(n))
  }

  lemma AlwaysSoundEnds(t: Table, matched: seq<Rule>, event: string, keyword: (string, Rule) -> bool,
      faults: nat -> Fault)
    requires AlwaysSound(t, matched, event, keyword, faults)
    ensures Lifecycle.Sound(Evaluations(t, matched, event, keyword, faults))
  {}

  /** No evaluation of a counted firing is lost; other store calls may fail. */
  ghost predicate NoneLost(matched: seq<Rule>, event: string, keyword: (string, Rule) -> bool, faults: nat -> Fault) {
    forall n :: 0 <= n < |matched| ==> !Lost(Fires(matched[n], event, keyword), faults(n))
  }

  lemma {:induction false} EvaluationsSound(t: Table, matched: seq<Rule>, event: string,
      keyword: (string, Rule) -> bool, faults: nat -> Fault)
    requires Lifecycle.Sound(t) && NoneLost(matched, event, keyword, faults)
    ensures Lifecycle.Sound(Evaluations(t, matched, event, keyword, faults))
  {
    if matched != [] {
      var n := |matched| - 1;
      var init := matched[..n];
      assert NoneLost(init, event, keyword, faults) by {
        assert forall k :: 0 <= k < n ==> init[k] == matched[k];
      }
      EvaluationsSound(t, init, event, keyword, faults);
      EvaluationSoundExactly(Evaluations(t, init, event, keyword, faults), matched[n].id,
                             Fires(matched[n], event, keyword), faults(n));
    }
  }

  ghost predicate NoneLostIn(snapshot: seq<Rule>, events: seq<string>, keyword: (string, Rule) -> bool,
      faults: (string, nat) -> Fault)
  {
    forall event :: event in events ==> NoneLost(Scan(snapshot, event), event, keyword, FaultsOf(faults, event))
  }

  lemma {:induction false} EmittedSound(t: Table, snapshot: seq<Rule>, events: seq<string>,
      keyword: (string, Rule) -> bool, faults: (string, nat) -> Fault)
    requires Lifecycle.Sound(t) && NoneLostIn(snapshot, events, keyword, faults)
    ensures Lifecycle.Sound(Emitted(t, snapshot, events, keyword, faults))
  {
    if events != [] {
      var init, event := events[..|events| - 1], events[|events| - 1];
      assert event in events && forall x :: x in init ==> x in events;
      EmittedSound(t, snapshot, init, keyword, faults);
      EvaluationsSound(Emitted(t, snapshot, init, keyword, faults), Scan(snapshot, event), event, keyword,
                       FaultsOf(faults, event));
    }
  }

  /** In this step no evaluation of a counted firing is lost. */
  ghost predicate Recorded(s: Session, step: Step) {
    match step
    case Before(tool, phase, loadFails, keyword, faults) =>
      NoneLostIn(Reloaded(s, loadFails).snapshot, EventsBefore(tool, phase), keyword, faults)
    case After(tool, keyword, faults) =>
      NoneLostIn(s.snapshot, ["tool.after:" + tool], keyword, faults)
    case Meanwhile(_) => true
  }

  ghost predicate AllRecorded(s: Session, steps: seq<Step>) {
    steps == [] ||
    (AllRecorded(s, steps[..|steps| - 1]) && Recorded(RunSession(s, steps[..|steps| - 1]), steps[|steps| - 1]))
  }

  lemma StepSound(s: Session, step: Step)
    requires Lifecycle.Sound(s.table) && Recorded(s, step)
    ensures Lifecycle.Sound(Next(s, step).table)
  {
    match step
    case Before(tool, phase, loadFails, keyword, faults) =>
      EmittedSound(s.table, Reloaded(s, loadFails).snapshot, EventsBefore(tool, phase), keyword, faults);
    case After(tool, keyword, faults) =>
      EmittedSound(s.table, s.snapshot, ["tool.after:" + tool], keyword, faults);
    case Meanwhile(e) =>
      Lifecycle.SoundStays(s.table, e);
  }

  /** Whatever rules are reloaded, fired, judged, ticked, added or removed, and whatever other store
      calls fail: as long as no counted firing loses its evaluation, no rule ever counts more
      firings than evaluations. */
  lemma {:induction false} SessionSound(s: Session, steps: seq<Step>)
    requires Lifecycle.Sound(s.table) && AllRecorded(s, steps)
    ensures Lifecycle.Sound(RunSession(s, steps).table)
  {
    if steps != [] {
      SessionSound(s, steps[..|steps| - 1]);
      StepSound(RunSession(s, steps[..|steps| - 1]), steps[|steps| - 1]);
    }
  }

  // ----- a retired rule falls silent

  lemma {:induction false} EvaluationsQuiet(t: Table, matched: seq<Rule>, event: string,
      keyword: (string, Rule) -> bool, faults: nat -> Fault, id: int)
    requires forall r :: r in matched ==> r.id != id
    ensures Quiet(t, Evaluations(t, matched, event, keyword, faults), id)
  {
    if matched != [] {
      var n := |matched| - 1;
      var r := matched[n];
      assert r in matched && forall x :: x in matched[..n] ==> x in matched;
      EvaluationsQuiet(t, matched[..n], event, keyword, faults, id);
      EvaluationCounts(Evaluations(t, matched[..n], event, keyword, faults), r.id,
                       Fires(r, event, keyword), faults(n));
    }
  }

  /** The row of this identifier did not change at all. */
  ghost predicate Quiet(t: Table, t': Table, id: int) {
    SameRows(t, t') && forall i :: 0 <= i < |t.rules| && t.rules[i].id == id ==> t'.rules[i] == t.rules[i]
  }

  lemma {:induction false} EmittedQuiet(t: Table, snapshot: seq<Rule>, events: seq<string>,
      keyword: (string, Rule) -> bool, faults: (string, nat) -> Fault, id: int)
    requires forall r :: r in snapshot ==> r.id != id
    ensures Quiet(t, Emitted(t, snapshot, events, keyword, faults), id)
  {
    if events != [] {
      var init, event := events[..|events| - 1], events[|events| - 1];
      EmittedQuiet(t, snapshot, init, keyword, faults, id);
      ScanFindsExactly(snapshot, event);
      EvaluationsQuiet(Emitted(t, snapshot, init, keyword, faults), Scan(snapshot, event), event, keyword,
                       FaultsOf(faults, event), id);
    }
  }

  lemma {:induction false} EvaluationsSameRows(t: Table, matched: seq<Rule>, event: string,
      keyword: (string, Rule) -> bool, faults: nat -> Fault)
    ensures SameRows(t, Evaluations(t, matched, event, keyword, faults))
  {
    if matched != [] {
      var n := |matched| - 1;
      EvaluationsSameRows(t, matched[..n], event, keyword, faults);
      EvaluationCounts(Evaluations(t, matched[..n], event, keyword, faults), matched[n].id,
                       Fires(matched[n], event, keyword), faults(n));
    }
  }

  lemma {:induction false} EmittedSameRows(t: Table, snapshot: seq<Rule>, events: seq<string>,
      keyword: (string, Rule) -> bool, faults: (string, nat) -> Fault)
    ensures SameRows(t, Emitted(t, snapshot, events, keyword, faults))
  {
    if events != [] {
      var init, event := events[..|events| - 1], events[|events| - 1];
      EmittedSameRows(t, snapshot, init, keyword, faults);
      EvaluationsSameRows(Emitted(t, snapshot, init, keyword, faults), Scan(snapshot, event), event, keyword,
                          FaultsOf(faults, event));
    }
  }

  lemma SameRowsKeep(t: Table, t': Table, id: int)
    requires WellFormed(t) && Lifecycle.RetiredId(t, id) && SameRows(t, t')
    ensures WellFormed(t') && Lifecycle.RetiredId(t', id)
  {
    forall i, j | 0 <= i < j < |t'.rules| ensures t'.rules[i].id != t'.rules[j].id {
      assert SameRow(t.rules[i], t'.rules[i]) && SameRow(t.rules[j], t'.rules[j]);
    }
    forall i | 0 <= i < |t'.rules|
      ensures t'.rules[i].id < t'.nextId
      ensures t'.rules[i].id == id ==> t'.rules[i].state == Retired && !t'.rules[i].enabled
    {
      assert SameRow(t.rules[i], t'.rules[i]);
    }
  }

  ghost predicate Gone(s: Session, id: int) { WellFormed(s.table) && Lifecycle.RetiredId(s.table, id) }

  /** The rule is retired and the index does not hold it any more. */
  ghost predicate Silent(s: Session, id: int) {
    Gone(s, id) && forall r :: r in s.snapshot ==> r.id != id
  }

  lemma StepKeepsGone(s: Session, step: Step, id: int)
    requires Gone(s, id)
    ensures Gone(Next(s, step), id)
  {
    match step
    case Before(tool, phase, loadFails, keyword, faults) =>
      var c := Reloaded(s, loadFails);
      EmittedSameRows(c.table, c.snapshot, EventsBefore(tool, phase), keyword, faults);
      SameRowsKeep(s.table, Next(s, step).table, id);
    case After(tool, keyword, faults) =>
      EmittedSameRows(s.table, s.snapshot, ["tool.after:" + tool], keyword, faults);
      SameRowsKeep(s.table, Next(s, step).table, id);
    case Meanwhile(e) =>
      Lifecycle.HappensWellFormed(s.table, e);
      Lifecycle.RetiredStays(s.table, e, id);
  }

  lemma LoadedWithout(t: Table, loadFails: bool, id: int)
    requires Lifecycle.RetiredId(t, id)
    ensures forall r :: r in Loaded(t, loadFails) ==> r.id != id
  {
    FilterSubsequence(t.rules, Enabled);
  }

  lemma NextSnapshot(s: Session, step: Step)
    ensures Next(s, step).snapshot == if step.Before? then Reloaded(s, step.loadFails).snapshot else s.snapshot
    ensures Next(s, step).calls == s.calls + if step.Before? then 1 else 0
  {}

  /** Silence lasts, and the first reload after retirement brings it. */
  lemma StepSilences(s: Session, step: Step, id: int)
    requires Gone(s, id)
    ensures Silent(s, id) ==> Silent(Next(s, step), id)
    ensures step.Before? && (s.calls + 1) % RELOAD_INTERVAL == 0 ==> Silent(Next(s, step), id)
  {
    StepKeepsGone(s, step, id);
    NextSnapshot(s, step);
    if step.Before? { LoadedWithout(s.table, step.loadFails, id); }
  }

  function BeforeCalls(steps: seq<Step>): nat {
    if steps == [] then 0 else BeforeCalls(steps[..|steps| - 1]) + if steps[|steps| - 1].Before? then 1 else 0
  }

  lemma ReloadDue(calls: nat, round: nat)
    ensures (calls + 1) / RELOAD_INTERVAL > round ==>
      calls / RELOAD_INTERVAL > round || (calls + 1) % RELOAD_INTERVAL == 0
  {}

  /** The rule is silent once the calls have gone past the next multiple of the reload interval. */
  ghost predicate SilentAfter(s: Session, id: int, round: nat) {
    Gone(s, id) && (s.calls / RELOAD_INTERVAL > round ==> Silent(s, id))
  }

  lemma TowardsSilence(s: Session, s': Session, counted: bool, id: int, round: nat)
    requires SilentAfter(s, id, round) && Gone(s', id) && s'.calls == s.calls + if counted then 1 else 0
    requires Silent(s, id) ==> Silent(s', id)
    requires counted && (s.calls + 1) % RELOAD_INTERVAL == 0 ==> Silent(s', id)
    ensures SilentAfter(s', id, round)
  {
    ReloadDue(s.calls, round);
  }

  lemma StepTowardsSilence(s: Session, step: Step, id: int, round: nat)
    requires SilentAfter(s, id, round)
    ensures SilentAfter(Next(s, step), id, round)
  {
    StepKeepsGone(s, step, id);
    NextSnapshot(s, step);
    StepSilences(s, step, id);
    TowardsSilence(s, Next(s, step), step.Before?, id, round);
  }

  lemma {:induction false} SilentAfterReload(s: Session, steps: seq<Step>, id: int)
    requires Gone(s, id)
    ensures RunSession(s, steps).calls == s.calls + BeforeCalls(steps)
    ensures SilentAfter(RunSession(s, steps), id, s.calls / RELOAD_INTERVAL)
  {
    if steps != [] {
      var init, step := steps[..|steps| - 1], steps[|steps| - 1];
      SilentAfterReload(s, init, id);
      StepTowardsSilence(RunSession(s, init), step, id, s.calls / RELOAD_INTERVAL);
      NextSnapshot(RunSession(s, init), step);
    }
  }

  /** Fifty calls after its retirement, whatever else happens, a rule is never evaluated again:
      a call leaves its row untouched. */
  lemma RetiredFallsSilent(s: Session, steps: seq<Step>, step: Step, id: int)
    requires Gone(s, id) && BeforeCalls(steps) >= RELOAD_INTERVAL && !step.Meanwhile?
    ensures var s' := RunSession(s, steps);
      Silent(s', id) && Quiet(s'.table, Next(s', step).table, id)
  {
    var s' := RunSession(s, steps);
    SilentAfterReload(s, steps, id);
    match step
    case Before(tool, phase, loadFails, keyword, faults) =>
      LoadedWithout(s'.table, loadFails, id);
      EmittedQuiet(s'.table, Reloaded(s', loadFails).snapshot, EventsBefore(tool, phase), keyword, faults, id);
    case After(tool, keyword, faults) =>
      EmittedQuiet(s'.table, s'.snapshot, ["tool.after:" + tool], keyword, faults, id);
    case Meanwhile(_) =>
  }
}
