/** The table of prevention rules: its rows, the statements that change them, and their counters. */
module RuleStore {
  import opened Wrappers
  import opened Sequences

  /** lifecycle_state, read with its default; any other text is kept as it is. */
  datatype State = Probation | Active | Trusted | Dormant | Retired | Other(text: string)

  datatype Rule = Rule(
    id: int, name: string, trigger: string, check: string, enabled: bool,
    timesTriggered: nat, evaluationCount: nat, falsePositives: nat, truePositives: nat,
    lastTriggeredAt: Option<real>, state: State, promotedAt: Option<real>, retiredAt: Option<real>)

  /** nextId: identifiers are handed out once, also after a deletion. */
  datatype Table = Table(rules: seq<Rule>, nextId: int)

  // ----- the statements

  function Fresh(id: int, name: string, trigger: string, check: string): Rule {
    Rule(id, name, trigger, check, true, 0, 0, 0, 0, None, Probation, None, None)
  }

  function Triggered(r: Rule): Rule { r.(timesTriggered := r.timesTriggered + 1) }

  function Evaluated(r: Rule): Rule { r.(evaluationCount := r.evaluationCount + 1) }

  function Judged(r: Rule, useful: bool): Rule {
    if useful then r.(truePositives := r.truePositives + 1) else r.(falsePositives := r.falsePositives + 1)
  }

  function Moved(r: Rule, state: State, stamp: real): Rule {
    if state in {Active, Trusted} then r.(state := state, promotedAt := Some(stamp))
    else if state == Retired then r.(state := state, retiredAt := Some(stamp), enabled := false)
    else r.(state := state)
  }

  datatype Op =
    | Register(name: string, trigger: string, check: string)
    | Delete(name: string)
    | Trigger(id: int)
    | Evaluate(id: int)
    | Judge(id: int, useful: bool)
    | Move(id: int, state: State, stamp: real)

  /** What a statement makes of one row; None when it removes the row. */
  function OnRow(r: Rule, op: Op): Option<Rule> {
    match op
    case Register(name, _, check) => Some(if r.name == name then r.(check := check) else r)
    case Delete(name) => if r.name == name then None else Some(r)
    case Trigger(id) => Some(if r.id == id then Triggered(r) else r)
    case Evaluate(id) => Some(if r.id == id then Evaluated(r) else r)
    case Judge(id, useful) => Some(if r.id == id then Judged(r, useful) else r)
    case Move(id, state, stamp) => Some(if r.id == id then Moved(r, state, stamp) else r)
  }

  function OnRows(rules: seq<Rule>, op: Op): (after: seq<Rule>)
    ensures !op.Delete? ==> |after| == |rules| && forall i :: 0 <= i < |rules| ==> Some(after[i]) == OnRow(rules[i], op)
  {
    if rules == [] then []
    else
      var last := OnRow(rules[|rules| - 1], op);
      OnRows(rules[..|rules| - 1], op) + if last.Some? then [last.value] else []
  }

  predicate HasName(rules: seq<Rule>, name: string) {
    exists i :: 0 <= i < |rules| && rules[i].name == name
  }

  /** Registering a new name adds a row; everything else works on the rows there are. */
  function Apply(t: Table, op: Op): Table {
    if op.Register? && !HasName(t.rules, op.name) then
      Table(t.rules + [Fresh(t.nextId, op.name, op.trigger, op.check)], t.nextId + 1)
    else t.(rules := OnRows(t.rules, op))
  }

  // ----- what every statement keeps

  ghost predicate WellFormed(t: Table) {
    && (forall i :: 0 <= i < |t.rules| ==> t.rules[i].id < t.nextId)
    && Ascending(t.rules)
  }

  /** Rows in order of registration. */
  ghost predicate Ascending(rules: seq<Rule>) {
    forall i, j :: 0 <= i < j < |rules| ==> rules[i].id < rules[j].id
  }

  lemma {:induction false} RowsFrom(rules: seq<Rule>, op: Op, k: nat)
    requires k < |OnRows(rules, op)|
    ensures exists i :: 0 <= i < |rules| && OnRow(rules[i], op) == Some(OnRows(rules, op)[k])
  {
    var init, last := rules[..|rules| - 1], rules[|rules| - 1];
    if k < |OnRows(init, op)| {
      RowsFrom(init, op, k);
      var i :| 0 <= i < |init| && OnRow(init[i], op) == Some(OnRows(init, op)[k]);
      assert rules[i] == init[i];
    } else {
      assert OnRow(last, op) == Some(OnRows(rules, op)[k]);
    }
  }

  lemma OnRowKeepsId(r: Rule, op: Op)
    ensures OnRow(r, op).Some? ==> OnRow(r, op).value.id == r.id && OnRow(r, op).value.name == r.name
  {}

  lemma {:induction false} RowsStayAscending(rules: seq<Rule>, op: Op)
    requires Ascending(rules)
    ensures Ascending(OnRows(rules, op))
  {
    if rules != [] {
      var init, last := rules[..|rules| - 1], rules[|rules| - 1];
      RowsStayAscending(init, op);
      OnRowKeepsId(last, op);
      forall k | 0 <= k < |OnRows(init, op)| ensures OnRows(init, op)[k].id < last.id {
        RowsFrom(init, op, k);
        var i :| 0 <= i < |init| && OnRow(init[i], op) == Some(OnRows(init, op)[k]);
        OnRowKeepsId(init[i], op);
        assert rules[i].id < last.id;
      }
    }
  }

  /** Where a row of the new table comes from: an old row, or a registration. */
  lemma RowOrigin(t: Table, op: Op, k: nat)
    requires k < |Apply(t, op).rules|
    ensures var r := Apply(t, op).rules[k];
      || (op.Register? && r == Fresh(t.nextId, op.name, op.trigger, op.check))
      || exists i :: 0 <= i < |t.rules| && OnRow(t.rules[i], op) == Some(r)
  {
    if op.Register? && !HasName(t.rules, op.name) {
      if k < |t.rules| { assert OnRow(t.rules[k], op) == Some(t.rules[k]); }
    } else {
      RowsFrom(t.rules, op, k);
    }
  }

  /** Identifiers stay unique and in order of registration, and are never used again. */
  lemma ApplyWellFormed(t: Table, op: Op)
    requires WellFormed(t)
    ensures WellFormed(Apply(t, op)) && Apply(t, op).nextId >= t.nextId
  {
    RowsStayAscending(t.rules, op);
    var after := Apply(t, op);
    forall k | 0 <= k < |after.rules| ensures after.rules[k].id < after.nextId {
      RowOrigin(t, op, k);
      if i :| 0 <= i < |t.rules| && OnRow(t.rules[i], op) == Some(after.rules[k]) {
        OnRowKeepsId(t.rules[i], op);
      }
    }
  }

  // ----- what each statement means for its caller

  /** The table keeps its rows in their places; none but the row of this identifier changes. */
  ghost predicate OnlyRow(t: Table, t': Table, id: int) {
    && |t'.rules| == |t.rules| && t'.nextId == t.nextId
    && forall i :: 0 <= i < |t.rules| ==> t'.rules[i].id == t.rules[i].id && (t.rules[i].id != id ==> t'.rules[i] == t.rules[i])
  }

  /** The two rows agree in everything but counters, state and stamps. */
  ghost predicate SameRule(r: Rule, r': Rule) {
    r'.id == r.id && r'.name == r.name && r'.trigger == r.trigger && r'.check == r.check && r'.lastTriggeredAt == r.lastTriggeredAt
  }

  /** Counters up by these amounts, the rest of the row as it was. */
  ghost predicate Counted(r: Rule, r': Rule, fired: nat, evaluated: nat, falsely: nat, truly: nat) {
    && SameRule(r, r')
    && r'.state == r.state && r'.enabled == r.enabled && r'.promotedAt == r.promotedAt && r'.retiredAt == r.retiredAt
    && r'.timesTriggered == r.timesTriggered + fired && r'.evaluationCount == r.evaluationCount + evaluated
    && r'.falsePositives == r.falsePositives + falsely && r'.truePositives == r.truePositives + truly
  }

  /** The new state with the stamp that belongs to it: a promotion or a retirement, of which the
      latter also disables; every other move leaves stamps and enabling alone. */
  ghost predicate Transitioned(r: Rule, r': Rule, state: State, stamp: real) {
    && SameRule(r, r') && r'.state == state
    && r'.timesTriggered == r.timesTriggered && r'.evaluationCount == r.evaluationCount
    && r'.falsePositives == r.falsePositives && r'.truePositives == r.truePositives
    && r'.promotedAt == (if state == Active || state == Trusted then Some(stamp) else r.promotedAt)
    && r'.retiredAt == (if state == Retired then Some(stamp) else r.retiredAt)
    && r'.enabled == (r.enabled && state != Retired)
  }

  // ----- the store

  predicate Enabled(r: Rule) { r.enabled }

  predicate LowerId(a: Rule, b: Rule) { a.id < b.id }

  lemma {:induction false} DeletionRemoves(rules: seq<Rule>, name: string)
    ensures forall r :: r in OnRows(rules, Delete(name)) <==> r in rules && r.name != name
  {
    if rules != [] {
      var init, last := rules[..|rules| - 1], rules[|rules| - 1];
      DeletionRemoves(init, name);
      assert rules == init + [last];
    }
  }

  class Store {
    var table: Table

    constructor ()
      ensures table == Table([], 1)
    {
      table := Table([], 1);
    }

    method RegisterPreventionRule(name: string, trigger: string, check: string)
      modifies this
      ensures table == Apply(old(table), Register(name, trigger, check))
      ensures !HasName(old(table).rules, name) ==>
        && table.nextId == old(table).nextId + 1
        && table.rules == old(table).rules + [Rule(old(table).nextId, name, trigger, check, true, 0, 0, 0, 0, None,
                                                   Probation, None, None)]
      ensures HasName(old(table).rules, name) ==>
        && table.nextId == old(table).nextId && |table.rules| == |old(table).rules|
        && forall i :: 0 <= i < |table.rules| ==>
          table.rules[i] == if old(table).rules[i].name == name then old(table).rules[i].(check := check) else old(table).rules[i]
    {
      var found := FindName(table.rules, name);
      if found {
        table := table.(rules := OnRows(table.rules, Register(name, trigger, check)));
      } else {
        table := Table(table.rules + [Fresh(table.nextId, name, trigger, check)], table.nextId + 1);
      }
    }

    method DeletePreventionRule(name: string)
      modifies this
      ensures table == Apply(old(table), Delete(name))
      ensures !HasName(table.rules, name) && table.nextId == old(table).nextId
      ensures forall r :: r in table.rules <==> r in old(table).rules && r.name != name
      ensures WellFormed(old(table)) ==> WellFormed(table)
    {
      DeletionRemoves(table.rules, name);
      ghost var before := table;
      table := table.(rules := OnRows(table.rules, Delete(name)));
      forall i | 0 <= i < |table.rules| ensures table.rules[i].name != name { assert table.rules[i] in table.rules; }
      if WellFormed(before) { ApplyWellFormed(before, Delete(name)); }
    }

    method GetActivePreventionRules() returns (rules: seq<Rule>)
      ensures rules == Filter(table.rules, Enabled)
      ensures forall r :: r in rules <==> r in table.rules && r.enabled
      ensures WellFormed(table) ==> Ascending(rules)
    {
      rules := Filter(table.rules, Enabled);
      FilterSubsequence(table.rules, Enabled);
      if WellFormed(table) { FilterPairwise(table.rules, Enabled, LowerId); }
    }

    method IncrementRuleTrigger(id: int)
      modifies this
      ensures table == Apply(old(table), Trigger(id))
      ensures OnlyRow(old(table), table, id)
      ensures forall i :: 0 <= i < |table.rules| && table.rules[i].id == id ==>
        Counted(old(table).rules[i], table.rules[i], 1, 0, 0, 0)
    {
      table := table.(rules := OnRows(table.rules, Trigger(id)));
    }

    method UpdateRuleEvaluation(id: int)
      modifies this
      ensures table == Apply(old(table), Evaluate(id))
      ensures OnlyRow(old(table), table, id)
      ensures forall i :: 0 <= i < |table.rules| && table.rules[i].id == id ==>
        Counted(old(table).rules[i], table.rules[i], 0, 1, 0, 0)
    {
      table := table.(rules := OnRows(table.rules, Evaluate(id)));
    }

    method RecordRuleOutcome(id: int, useful: bool)
      modifies this
      ensures table == Apply(old(table), Judge(id, useful))
      ensures OnlyRow(old(table), table, id)
      ensures forall i :: 0 <= i < |table.rules| && table.rules[i].id == id ==>
        Counted(old(table).rules[i], table.rules[i], 0, 0, if useful then 0 else 1, if useful then 1 else 0)
    {
      table := table.(rules := OnRows(table.rules, Judge(id, useful)));
    }

    method MoveRule(id: int, state: State, stamp: real)
      modifies this
      ensures table == Apply(old(table), Move(id, state, stamp))
      ensures OnlyRow(old(table), table, id)
      ensures forall i :: 0 <= i < |table.rules| && table.rules[i].id == id ==>
        Transitioned(old(table).rules[i], table.rules[i], state, stamp)
    {
      table := table.(rules := OnRows(table.rules, Move(id, state, stamp)));
    }
  }

  method FindName(rules: seq<Rule>, name: string) returns (found: bool)
    ensures found <==> HasName(rules, name)
  {
    for i := 0 to |rules|
      invariant forall j :: 0 <= j < i ==> rules[j].name != name
    {
      if rules[i].name == name { return true; }
    }
    return false;
  }
}
