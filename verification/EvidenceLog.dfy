/** The workflow-evidence table: content-addressed upserts, and the newest-first window that
    every reader sees. */
module EvidenceLog {
  import opened Sequences

  datatype Kind = Syntax | Diff | Tests | Outcomes | OtherKind(name: string)

  datatype Status = Pass | Fail | Unknown | NotChecked

  datatype Row = Row(run: string, id: string, kind: Kind, status: Status, unmet: seq<string>,
                     createdAt: int, rowid: nat)

  const WINDOW := 200

  /** ORDER BY created_at DESC, rowid DESC */
  predicate Newer(a: Row, b: Row) {
    a.createdAt > b.createdAt || (a.createdAt == b.createdAt && a.rowid > b.rowid)
  }

  function OfRun(rows: seq<Row>, run: string): seq<Row> {
    Filter(rows, (r: Row) => r.run == run)
  }

  /** INSERT OR REPLACE on the key (run_id, evidence_id). */
  function Replace(rows: seq<Row>, row: Row): seq<Row> {
    Filter(rows, (r: Row) => !(r.run == row.run && r.id == row.id)) + [row]
  }

  /** max(1, min(limit or 50, 200)) */
  function Bounded(limit: int): nat {
    var asked := if limit == 0 then 50 else limit;
    if asked < 1 then 1 else if asked > WINDOW then WINDOW else asked
  }

  function Listing(rows: seq<Row>, run: string, limit: int): seq<Row> {
    Prefix(Sort(OfRun(rows, run), Newer), Bounded(limit))
  }

  /** What the continuation protocol reads. */
  function Evidence(rows: seq<Row>, run: string): seq<Row> { Listing(rows, run, WINDOW) }

  /** a was recorded before b: a smaller row id, no later clock reading, another key. */
  predicate Before(a: Row, b: Row) {
    a.rowid < b.rowid && a.createdAt <= b.createdAt && !(a.run == b.run && a.id == b.id)
  }

  /** Rows in recording order. */
  ghost predicate Recorded(rows: seq<Row>) { Pairwise(rows, Before) }

  // ----- the window is the recording order, reversed

  /** The SQL ordering by timestamp and row id is exactly reverse recording order, at any limit. */
  lemma ListingIsReversedLog(rows: seq<Row>, run: string, limit: int)
    requires Recorded(rows)
    ensures Recorded(OfRun(rows, run)) && forall r :: r in OfRun(rows, run) <==> r in rows && r.run == run
    ensures Listing(rows, run, limit) == Prefix(Reverse(OfRun(rows, run)), Bounded(limit))
  {
    FilterPairwise(rows, (r: Row) => r.run == run, Before);
    FilterSubsequence(rows, (r: Row) => r.run == run);
    SortReverses(OfRun(rows, run), Newer);
  }

  lemma EvidenceIsReversedLog(rows: seq<Row>, run: string)
    requires Recorded(rows)
    ensures Evidence(rows, run) == Prefix(Reverse(OfRun(rows, run)), WINDOW)
    ensures forall r :: r in Evidence(rows, run) ==> r in rows && r.run == run
  {
    var mine := OfRun(rows, run);
    ListingIsReversedLog(rows, run, WINDOW);
    ReverseAt(mine);
    forall r | r in Evidence(rows, run) ensures r in rows && r.run == run {
      var i :| 0 <= i < |Evidence(rows, run)| && Evidence(rows, run)[i] == r;
      assert r == mine[|mine| - 1 - i];
    }
  }

  /** listed holds the `most` rows of the run recorded last, the last one first: records of the run
      only, each after all that follow it and after all of the run that are left out. */
  ghost predicate NewestOf(listed: seq<Row>, rows: seq<Row>, run: string, most: nat) {
    && |listed| <= most
    && (forall r :: r in listed ==> r in rows && r.run == run)
    && (forall i, j :: 0 <= i < j < |listed| ==> listed[i].rowid > listed[j].rowid)
    && (forall r :: r in rows && r.run == run && r !in listed ==>
          |listed| == most && forall x :: x in listed ==> x.rowid > r.rowid)
  }

  /** The listing, row by row. */
  ghost predicate ReadsBack(listed: seq<Row>, mine: seq<Row>) {
    |listed| <= |mine| && forall i :: 0 <= i < |listed| ==> listed[i] == mine[|mine| - 1 - i]
  }

  lemma TailIsListed(listed: seq<Row>, mine: seq<Row>, k: nat)
    requires ReadsBack(listed, mine) && k < |mine|
    ensures k >= |mine| - |listed| ==> mine[k] in listed
  {
    if k >= |mine| - |listed| { assert listed[|mine| - 1 - k] == mine[k]; }
  }

  lemma ReadsBackNewest(listed: seq<Row>, mine: seq<Row>, r: Row)
    requires ReadsBack(listed, mine) && Recorded(mine)
    ensures r in listed ==> r in mine
    ensures r in mine && r !in listed ==> |listed| < |mine| && forall x :: x in listed ==> x.rowid > r.rowid
  {
    if r in mine && r !in listed {
      var k :| 0 <= k < |mine| && mine[k] == r;
      TailIsListed(listed, mine, k);
      forall x | x in listed ensures x.rowid > r.rowid {
        var i :| 0 <= i < |listed| && listed[i] == x;
        assert Before(mine[k], mine[|mine| - 1 - i]);
      }
    }
  }

  lemma ListingIsNewest(rows: seq<Row>, run: string, limit: int)
    requires Recorded(rows)
    ensures NewestOf(Listing(rows, run, limit), rows, run, Bounded(limit))
  {
    var mine, listed := OfRun(rows, run), Listing(rows, run, limit);
    ListingIsReversedLog(rows, run, limit);
    ReverseAt(mine);
    forall i, j | 0 <= i < j < |listed| ensures listed[i].rowid > listed[j].rowid {
      assert Before(mine[|mine| - 1 - j], mine[|mine| - 1 - i]);
    }
    forall r
      ensures r in listed ==> r in mine
      ensures r in mine && r !in listed ==> |listed| < |mine| && forall x :: x in listed ==> x.rowid > r.rowid
    {
      ReadsBackNewest(listed, mine, r);
    }
  }

  /** Between one row and 200; a limit of zero means the default of 50. */
  lemma BoundedMeaning(limit: int)
    ensures 1 <= Bounded(limit) <= WINDOW
    ensures 1 <= limit <= WINDOW ==> Bounded(limit) == limit
    ensures limit == 0 ==> Bounded(limit) == 50
    ensures limit < 0 ==> Bounded(limit) == 1
    ensures limit > WINDOW ==> Bounded(limit) == WINDOW
  {}

  // ----- recording

  lemma ReplaceKeepsRecorded(rows: seq<Row>, row: Row)
    requires Recorded(rows)
    requires forall i :: 0 <= i < |rows| ==> rows[i].createdAt <= row.createdAt && rows[i].rowid < row.rowid
    ensures Recorded(Replace(rows, row))
  {
    var kept := Filter(rows, (r: Row) => !(r.run == row.run && r.id == row.id));
    FilterPairwise(rows, (r: Row) => !(r.run == row.run && r.id == row.id), Before);
    FilterSubsequence(rows, (r: Row) => !(r.run == row.run && r.id == row.id));
    forall i | 0 <= i < |kept|
      ensures Before(kept[i], row)
    {
      assert kept[i] in rows;
    }
  }

  /** The log of one run after a recording: the replaced row is gone, the new row is last. */
  lemma OfRunReplace(rows: seq<Row>, row: Row)
    ensures OfRun(Replace(rows, row), row.run)
         == Filter(OfRun(rows, row.run), (r: Row) => !(r.run == row.run && r.id == row.id)) + [row]
  {
    var mine, others := (r: Row) => r.run == row.run, (r: Row) => !(r.run == row.run && r.id == row.id);
    FilterAppend(Filter(rows, others), [row], mine);
    FilterCommutes(rows, others, mine);
    var none: seq<Row> := [];
    assert [row][1..] == none && Filter([row], mine) == [row] + Filter(none, mine);
  }

  class EvidenceStore {
    var runs: set<string>
    var rows: seq<Row>

    ghost predicate Valid()
      reads this
    {
      Recorded(rows) && forall i :: 0 <= i < |rows| ==> rows[i].run in runs && rows[i].id != ""
    }

    constructor (runs: set<string>)
      ensures Valid() && this.runs == runs && rows == []
    {
      this.runs, rows := runs, [];
    }

    /** Refuses an empty key or an unknown run; otherwise upserts the record as the newest. */
    method RecordWorkflowEvidence(run: string, id: string, kind: Kind, status: Status, unmet: seq<string>, now: int)
        returns (stored: bool)
      requires Valid() && forall i :: 0 <= i < |rows| ==> rows[i].createdAt <= now
      modifies this`rows
      ensures Valid()
      ensures stored <==> run != "" && id != "" && run in runs
      ensures !stored ==> rows == old(rows)
      ensures stored ==> rows != [] && rows == Replace(old(rows), rows[|rows| - 1])
      ensures stored ==> rows[|rows| - 1].(rowid := 0) == Row(run, id, kind, status, unmet, now, 0)
      ensures stored ==> forall r :: r in rows[..|rows| - 1] <==> r in old(rows) && !(r.run == run && r.id == id)
    {
      if run == "" || id == "" || run !in runs { return false; }
      var row := Row(run, id, kind, status, unmet, now, if rows == [] then 1 else rows[|rows| - 1].rowid + 1);
      FilterSubsequence(rows, (r: Row) => !(r.run == row.run && r.id == row.id));
      ReplaceKeepsRecorded(rows, row);
      ghost var before := rows;
      rows := Replace(rows, row);
      assert rows[..|rows| - 1] == Filter(before, (r: Row) => !(r.run == row.run && r.id == row.id));
      forall i | 0 <= i < |rows| ensures rows[i].run in runs && rows[i].id != "" {
        if i < |rows| - 1 { assert rows[i] in before; }
      }
      stored := true;
    }

    method ListWorkflowEvidence(run: string, limit: int) returns (listed: seq<Row>)
      requires Valid()
      ensures listed == Listing(rows, run, limit)
      ensures NewestOf(listed, rows, run, Bounded(limit))
    {
      var bounded := Bounded(limit);
      var sorted := Sort(OfRun(rows, run), Newer);
      listed := if |sorted| <= bounded then sorted else sorted[..bounded];
      ListingIsNewest(rows, run, limit);
    }
  }
}
