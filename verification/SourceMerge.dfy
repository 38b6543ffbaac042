/** Round-robin merging of what several search engines found. */
module SourceMerge {
  import opened Sequences

  datatype Source = Source(url: string, title: string, provider: string)

  // ----- the simple definition

  /** What the engines, in their order, have at depth i. */
  function Column(batches: seq<seq<Source>>, i: nat): seq<Source> {
    if batches == [] then []
    else
      var last := batches[|batches| - 1];
      Column(batches[..|batches| - 1], i) + if i < |last| then [last[i]] else []
  }

  function Interleave(batches: seq<seq<Source>>, depth: nat): seq<Source> {
    if depth == 0 then [] else Interleave(batches, depth - 1) + Column(batches, depth - 1)
  }

  function Urls(sources: seq<Source>): (urls: set<string>)
    ensures forall i :: 0 <= i < |sources| ==> sources[i].url in urls
  {
    if sources == [] then {} else Urls(sources[..|sources| - 1]) + {sources[|sources| - 1].url}
  }

  /** Only the first source of every URL. */
  function Dedup(sources: seq<Source>): seq<Source> {
    if sources == [] then []
    else
      var kept, last := Dedup(sources[..|sources| - 1]), sources[|sources| - 1];
      if last.url in Urls(kept) then kept else kept + [last]
  }

  function Depth(batches: seq<seq<Source>>): (depth: nat)
    ensures forall b :: 0 <= b < |batches| ==> |batches[b]| <= depth
    ensures depth > 0 ==> exists b :: 0 <= b < |batches| && |batches[b]| == depth
  {
    if batches == [] then 0
    else
      var rest, last := Depth(batches[..|batches| - 1]), batches[|batches| - 1];
      if |last| > rest then |last| else rest
  }

  /** Everything the engines found, column by column, each URL once. */
  function Everything(batches: seq<seq<Source>>): seq<Source> {
    Dedup(Interleave(batches, Depth(batches)))
  }

  /** The limit is looked at only after a source was added, so a limit below 1 acts as 1. */
  function Limit(k: int): nat { if k < 1 then 1 else k }

  // ----- which sources are merged, and in what order

  /** A place in what was found: an engine's list and a depth in it. */
  datatype Slot = Slot(depth: nat, engine: nat)

  predicate Precedes(a: Slot, b: Slot) {
    a.depth < b.depth || (a.depth == b.depth && a.engine < b.engine)
  }

  predicate Filled(batches: seq<seq<Source>>, s: Slot) {
    s.engine < |batches| && s.depth < |batches[s.engine]|
  }

  function At(batches: seq<seq<Source>>, s: Slot): Source
    requires Filled(batches, s)
  {
    batches[s.engine][s.depth]
  }

  /** The sources stand at these slots, in their order. */
  ghost predicate ReadFrom(batches: seq<seq<Source>>, sources: seq<Source>, slots: seq<Slot>) {
    && |slots| == |sources|
    && (forall n :: 0 <= n < |slots| ==> Filled(batches, slots[n]) && sources[n] == At(batches, slots[n]))
    && (forall m, n :: 0 <= m < n < |slots| ==> Precedes(slots[m], slots[n]))
  }

  lemma ReadOneMore(batches: seq<seq<Source>>, sources: seq<Source>, slots: seq<Slot>, s: Slot)
    requires ReadFrom(batches, sources, slots) && Filled(batches, s)
    requires forall x :: x in slots ==> Precedes(x, s)
    ensures ReadFrom(batches, sources + [At(batches, s)], slots + [s])
  {
    forall n | 0 <= n < |slots| ensures Precedes(slots[n], s) { assert slots[n] in slots; }
  }

  lemma {:induction false} ColumnSlots(batches: seq<seq<Source>>, before: seq<Source>, slots: seq<Slot>, j: nat, i: nat)
      returns (after: seq<Slot>)
    requires j <= |batches| && ReadFrom(batches, before, slots)
    requires forall s :: s in slots <==> Filled(batches, s) && s.depth < i
    ensures ReadFrom(batches, before + Column(batches[..j], i), after)
    ensures forall s :: s in after <==> Filled(batches, s) && (s.depth < i || (s.depth == i && s.engine < j))
  {
    after := slots;
    if j == 0 {
      assert before + [] == before;
    } else {
      after := ColumnSlots(batches, before, slots, j - 1, i);
      assert batches[..j][..j - 1] == batches[..j - 1];
      var column := Column(batches[..j - 1], i);
      if i < |batches[j - 1]| {
        ReadOneMore(batches, before + column, after, Slot(i, j - 1));
        assert (before + column) + [batches[j - 1][i]] == before + (column + [batches[j - 1][i]]);
        after := after + [Slot(i, j - 1)];
      } else {
        assert column + [] == column;
      }
    }
  }

  lemma {:induction false} InterleaveSlots(batches: seq<seq<Source>>, depth: nat) returns (slots: seq<Slot>)
    ensures ReadFrom(batches, Interleave(batches, depth), slots)
    ensures forall s :: s in slots <==> Filled(batches, s) && s.depth < depth
  {
    slots := [];
    if depth > 0 {
      slots := InterleaveSlots(batches, depth - 1);
      slots := ColumnSlots(batches, Interleave(batches, depth - 1), slots, |batches|, depth - 1);
      assert batches[..|batches|] == batches;
    }
  }

  /** kept holds the first source of every URL among the first k, `at` their positions. */
  ghost predicate KeepsFirst(sources: seq<Source>, k: nat, kept: seq<Source>, at: seq<nat>) {
    && |at| == |kept| && (forall i, j :: 0 <= i < j < |at| ==> at[i] < at[j])
    && (forall i :: 0 <= i < |at| ==> at[i] < k && at[i] < |sources| && kept[i] == sources[at[i]])
    && (forall m :: 0 <= m < k && m < |sources| ==> (m in at <==> NewUrl(sources, m)))
  }

  ghost predicate NewUrl(sources: seq<Source>, m: nat)
    requires m < |sources|
  {
    forall l :: 0 <= l < m ==> sources[l].url != sources[m].url
  }

  lemma {:induction false} DedupKeepsFirst(sources: seq<Source>, k: nat) returns (at: seq<nat>)
    requires k <= |sources|
    ensures KeepsFirst(sources, k, Dedup(sources[..k]), at)
  {
    at := [];
    if k > 0 {
      at := DedupKeepsFirst(sources, k - 1);
      DedupNext(sources, k - 1);
      if NewUrl(sources, k - 1) {
        KeepsNext(sources, k - 1, Dedup(sources[..k - 1]), at);
        at := at + [k - 1];
      } else {
        KeepsSame(sources, k - 1, Dedup(sources[..k - 1]), at);
        assert Dedup(sources[..k]) == Dedup(sources[..k - 1]);
      }
    }
  }

  lemma {:induction false} DedupNext(sources: seq<Source>, m: nat)
    requires m < |sources|
    ensures Dedup(sources[..m + 1]) == Dedup(sources[..m]) + if NewUrl(sources, m) then [sources[m]] else []
  {
    assert sources[..m + 1] == sources[..m] + [sources[m]];
    DedupLast(sources[..m], sources[m]);
    NewUrlExactly(sources, m);
  }

  lemma {:induction false} NewUrlExactly(sources: seq<Source>, m: nat)
    requires m < |sources|
    ensures NewUrl(sources, m) <==> sources[m].url !in Urls(Dedup(sources[..m]))
  {
    var init, url := sources[..m], sources[m].url;
    assert Urls(Dedup(init)) == Urls(init) by { DedupElements(init); }
    if url in Urls(init) {
      UrlsMeaning(init, url);
      var l :| 0 <= l < |init| && init[l].url == url;
      assert sources[l].url == url;
    } else {
      forall l | 0 <= l < m ensures sources[l].url != url {
        UrlsMeaning(init, url);
        assert init[l] == sources[l];
      }
    }
  }

  lemma KeepsSame(sources: seq<Source>, m: nat, kept: seq<Source>, at: seq<nat>)
    requires m < |sources| && KeepsFirst(sources, m, kept, at) && !NewUrl(sources, m)
    ensures KeepsFirst(sources, m + 1, kept, at)
  {
    assert forall i :: 0 <= i < |at| ==> at[i] != m;
  }

  lemma KeepsNext(sources: seq<Source>, m: nat, kept: seq<Source>, at: seq<nat>)
    requires m < |sources| && KeepsFirst(sources, m, kept, at) && NewUrl(sources, m)
    ensures KeepsFirst(sources, m + 1, kept + [sources[m]], at + [m])
  {
    assert (at + [m])[|at|] == m;
  }

  /** The slot holds the first source of its URL. */
  ghost predicate FirstOfUrl(batches: seq<seq<Source>>, s: Slot) {
    Filled(batches, s) && forall x :: Filled(batches, x) && Precedes(x, s) ==> At(batches, x).url != At(batches, s).url
  }

  /** The merged sources stand at slots that are the first of their URL, by depth and then by engine;
      one is left out only for want of room, and only behind all that are listed. */
  ghost predicate MergedFrom(batches: seq<seq<Source>>, merged: seq<Source>, most: nat, slots: seq<Slot>) {
    && ReadFrom(batches, merged, slots) && |merged| <= most
    && (forall s :: s in slots ==> FirstOfUrl(batches, s))
    && (forall s :: FirstOfUrl(batches, s) && s !in slots ==>
          |merged| == most && forall x :: x in slots ==> Precedes(x, s))
  }

  lemma FirstSlots(batches: seq<seq<Source>>, sources: seq<Source>, slots: seq<Slot>, m: nat)
    requires ReadFrom(batches, sources, slots) && m < |slots| && forall s :: Filled(batches, s) ==> s in slots
    ensures NewUrl(sources, m) <==> FirstOfUrl(batches, slots[m])
  {
    if NewUrl(sources, m) {
      forall x | Filled(batches, x) && Precedes(x, slots[m]) ensures At(batches, x).url != At(batches, slots[m]).url {
        var l :| 0 <= l < |slots| && slots[l] == x;
        assert l < m;
      }
    }
  }

  lemma EverythingSlots(batches: seq<seq<Source>>) returns (slots: seq<Slot>)
    ensures ReadFrom(batches, Everything(batches), slots)
    ensures forall s :: s in slots <==> FirstOfUrl(batches, s)
  {
    var all := Interleave(batches, Depth(batches));
    var places := InterleaveSlots(batches, Depth(batches));
    var at := DedupKeepsFirst(all, |all|);
    assert all[..|all|] == all;
    slots := seq(|at|, n requires 0 <= n < |at| => places[at[n]]);
    KeptSlots(batches, all, places, at, slots);
  }

  lemma {:induction false} KeptSlots(batches: seq<seq<Source>>, all: seq<Source>, places: seq<Slot>, at: seq<nat>, slots: seq<Slot>)
    requires ReadFrom(batches, all, places) && forall s :: s in places <==> Filled(batches, s)
    requires KeepsFirst(all, |all|, Dedup(all), at)
    requires |slots| == |at| && forall n :: 0 <= n < |at| ==> slots[n] == places[at[n]]
    ensures ReadFrom(batches, Dedup(all), slots)
    ensures forall s :: s in slots <==> FirstOfUrl(batches, s)
  {
    forall s | s in slots ensures FirstOfUrl(batches, s) {
      var n :| 0 <= n < |slots| && slots[n] == s;
      assert at[n] in at;
      FirstSlots(batches, all, places, at[n]);
    }
    forall s | FirstOfUrl(batches, s) ensures s in slots {
      var m :| 0 <= m < |places| && places[m] == s;
      FirstSlots(batches, all, places, m);
      var n :| 0 <= n < |at| && at[n] == m;
      assert slots[n] == s;
    }
  }

  ghost predicate IsMerge(batches: seq<seq<Source>>, merged: seq<Source>, most: nat) {
    exists slots :: MergedFrom(batches, merged, most, slots)
  }

  lemma EverythingMerges(batches: seq<seq<Source>>, most: nat)
    ensures IsMerge(batches, Prefix(Everything(batches), most), most)
  {
    var slots := MergeExactly(batches, most);
  }

  lemma MergeExactly(batches: seq<seq<Source>>, most: nat) returns (slots: seq<Slot>)
    ensures MergedFrom(batches, Prefix(Everything(batches), most), most, slots)
  {
    var all := EverythingSlots(batches);
    slots := Prefix(all, most);
    assert ReadFrom(batches, Prefix(Everything(batches), most), slots);
    forall s | s in slots ensures FirstOfUrl(batches, s) { assert s in all; }
    forall s | FirstOfUrl(batches, s) && s !in slots
      ensures |slots| == most && forall x :: x in slots ==> Precedes(x, s)
    {
      BehindPrefix(all, most, s);
    }
  }

  lemma BehindPrefix(all: seq<Slot>, most: nat, s: Slot)
    requires forall m, n :: 0 <= m < n < |all| ==> Precedes(all[m], all[n])
    requires s in all && s !in Prefix(all, most)
    ensures |Prefix(all, most)| == most && forall x :: x in Prefix(all, most) ==> Precedes(x, s)
  {
    var front, back := all[..most], all[most..];
    assert all == front + back;
    var c :| 0 <= c < |back| && back[c] == s;
    forall x | x in front ensures Precedes(x, s) {
      var m :| 0 <= m < |front| && front[m] == x;
      assert Precedes(all[m], all[most + c]);
    }
  }

  // ----- the merge

  lemma DedupLast(s: seq<Source>, x: Source)
    ensures Dedup(s + [x]) == if x.url in Urls(Dedup(s)) then Dedup(s) else Dedup(s) + [x]
  {
    assert (s + [x])[..|s|] == s;
  }

  lemma UrlsLast(s: seq<Source>, x: Source)
    ensures Urls(s + [x]) == Urls(s) + {x.url}
  {
    assert (s + [x])[..|s|] == s;
  }

  lemma {:induction false} DedupPrefix(s: seq<Source>, t: seq<Source>)
    ensures Dedup(s) <= Dedup(s + t)
  {
    if t == [] {
      assert s + t == s;
    } else {
      var init, x := t[..|t| - 1], t[|t| - 1];
      DedupPrefix(s, init);
      assert s + t == (s + init) + [x];
      DedupLast(s + init, x);
    }
  }

  /** The loop has taken in everything before engine j at depth i. */
  ghost function Taken(batches: seq<seq<Source>>, i: nat, j: nat): seq<Source>
    requires j <= |batches|
  {
    Interleave(batches, i) + Column(batches[..j], i)
  }

  lemma TakenNext(batches: seq<seq<Source>>, i: nat, j: nat)
    requires j < |batches|
    ensures Taken(batches, i, j + 1) ==
      if i < |batches[j]| then Taken(batches, i, j) + [batches[j][i]] else Taken(batches, i, j)
  {
    assert batches[..j + 1][..j] == batches[..j];
  }

  lemma TakenColumn(batches: seq<seq<Source>>, i: nat)
    ensures Taken(batches, i, 0) == Interleave(batches, i)
    ensures Taken(batches, i, |batches|) == Interleave(batches, i + 1)
  {
    assert batches[..|batches|] == batches;
  }

  lemma DedupMonotone(s: seq<Source>, t: seq<Source>)
    requires s <= t
    ensures Dedup(s) <= Dedup(t)
  {
    assert t == s + t[|s|..];
    DedupPrefix(s, t[|s|..]);
  }

  lemma {:induction false} InterleavePrefix(batches: seq<seq<Source>>, i: nat, n: nat)
    requires i <= n
    ensures Interleave(batches, i) <= Interleave(batches, n)
  {
    if i < n { InterleavePrefix(batches, i, n - 1); }
  }

  lemma {:induction false} ColumnPrefix(batches: seq<seq<Source>>, j: nat, i: nat)
    requires j <= |batches|
    ensures Column(batches[..j], i) <= Column(batches, i)
  {
    if j < |batches| {
      var init := batches[..|batches| - 1];
      ColumnPrefix(init, j, i);
      assert init[..j] == batches[..j];
    } else {
      assert batches[..j] == batches;
    }
  }

  lemma TakenPrefix(batches: seq<seq<Source>>, i: nat, j: nat)
    requires j <= |batches|
    ensures Taken(batches, i, j) <= Interleave(batches, i + 1)
  {
    ColumnPrefix(batches, j, i);
    AppendPrefix(Interleave(batches, i), Column(batches[..j], i), Column(batches, i));
  }

  lemma AppendPrefix(x: seq<Source>, s: seq<Source>, t: seq<Source>)
    requires s <= t
    ensures x + s <= x + t
  {}

  lemma PrefixTransitive(s: seq<Source>, t: seq<Source>, u: seq<Source>)
    requires s <= t <= u
    ensures s <= u
  {}

  /** What was taken in so far leads everything there is. */
  lemma TakenLeads(batches: seq<seq<Source>>, i: nat, j: nat)
    requires i < Depth(batches) && j <= |batches|
    ensures Dedup(Taken(batches, i, j)) <= Everything(batches)
  {
    var depth := Depth(batches);
    TakenPrefix(batches, i, j);
    InterleavePrefix(batches, i + 1, depth);
    PrefixTransitive(Taken(batches, i, j), Interleave(batches, i + 1), Interleave(batches, depth));
    DedupMonotone(Taken(batches, i, j), Interleave(batches, depth));
  }

  lemma {:induction false} ColumnNonempty(batches: seq<seq<Source>>, b: nat, i: nat)
    requires b < |batches| && i < |batches[b]|
    ensures batches[b][i] in Column(batches, i)
  {
    if b < |batches| - 1 { ColumnNonempty(batches[..|batches| - 1], b, i); }
  }

  lemma {:induction false} DedupNonempty(s: seq<Source>)
    requires s != []
    ensures Dedup(s) != []
  {
    if |s| > 1 { DedupNonempty(s[..|s| - 1]); }
  }

  /** Something was taken by the end of any pass. */
  lemma PassTakes(batches: seq<seq<Source>>, i: nat)
    requires i < Depth(batches)
    ensures Dedup(Interleave(batches, i + 1)) != []
  {
    var b :| 0 <= b < |batches| && |batches[b]| == Depth(batches);
    ColumnNonempty(batches, b, i);
    DedupNonempty(Interleave(batches, i + 1));
  }

  /** What looking at one engine does to the sources kept so far. */
  lemma TakeOne(batches: seq<seq<Source>>, i: nat, j: nat, sources: seq<Source>)
    requires j < |batches| && sources == Dedup(Taken(batches, i, j))
    ensures var b := batches[j];
      Dedup(Taken(batches, i, j + 1)) == if i < |b| && b[i].url !in Urls(sources) then sources + [b[i]] else sources
    ensures i < |batches[j]| ==> Urls(sources + [batches[j][i]]) == Urls(sources) + {batches[j][i].url}
  {
    TakenNext(batches, i, j);
    if i < |batches[j]| {
      DedupLast(Taken(batches, i, j), batches[j][i]);
      UrlsLast(sources, batches[j][i]);
    }
  }

  lemma PassStartsAndEnds(batches: seq<seq<Source>>, i: nat)
    requires i < Depth(batches)
    ensures Dedup(Taken(batches, i, 0)) == Dedup(Interleave(batches, i))
    ensures Dedup(Taken(batches, i, |batches|)) == Dedup(Interleave(batches, i + 1)) != []
  {
    TakenColumn(batches, i);
    PassTakes(batches, i);
  }

  /** One pass over the engines. */
  method TakeColumn(batches: seq<seq<Source>>, i: nat, k: int, seen0: set<string>, sources0: seq<Source>)
      returns (seen: set<string>, sources: seq<Source>)
    requires i < Depth(batches) && sources0 == Dedup(Interleave(batches, i)) && seen0 == Urls(sources0)
    requires |sources0| < Limit(k)
    ensures 1 <= |sources| <= Limit(k) && seen == Urls(sources)
    ensures |sources| < Limit(k) ==> sources == Dedup(Interleave(batches, i + 1))
    ensures |sources| == Limit(k) ==> sources <= Everything(batches)
  {
    seen, sources := seen0, sources0;
    PassStartsAndEnds(batches, i);
    for j := 0 to |batches|
      invariant sources == Dedup(Taken(batches, i, j)) && seen == Urls(sources)
      invariant |sources| < Limit(k)
    {
      TakeOne(batches, i, j, sources);
      var b := batches[j];
      if i < |b| && b[i].url !in seen {
        seen := seen + {b[i].url};
        sources := sources + [b[i]];
        if |sources| >= k {
          TakenLeads(batches, i, j + 1);
          break;
        }
      }
    }
  }

  lemma CutAt(sources: seq<Source>, all: seq<Source>)
    requires sources <= all
    ensures sources == Prefix(all, |sources|)
  {}

  /** The merged sources are the first k of everything, in round-robin order. */
  method Merge(batches: seq<seq<Source>>, k: int) returns (sources: seq<Source>)
    ensures sources == Prefix(Everything(batches), Limit(k))
    ensures IsMerge(batches, sources, if k < 1 then 1 else k)
  {
    EverythingMerges(batches, Limit(k));
    var seen: set<string> := {};
    sources := [];
    var depth := Depth(batches);
    for i := 0 to depth
      invariant sources == Dedup(Interleave(batches, i)) && seen == Urls(sources)
      invariant |sources| < Limit(k)
    {
      seen, sources := TakeColumn(batches, i, k, seen, sources);
      if |sources| >= k {
        CutAt(sources, Everything(batches));
        return;
      }
    }
  }

  // ----- what the merge holds

  lemma {:induction false} DedupElements(s: seq<Source>)
    ensures Urls(Dedup(s)) == Urls(s) && |Dedup(s)| == |Urls(s)|
    ensures forall i, j :: 0 <= i < j < |Dedup(s)| ==> Dedup(s)[i].url != Dedup(s)[j].url
  {
    if s != [] {
      DedupElements(s[..|s| - 1]);
      UrlsLast(Dedup(s[..|s| - 1]), s[|s| - 1]);
    }
  }

  lemma {:induction false} UrlsMeaning(s: seq<Source>, url: string)
    ensures url in Urls(s) <==> exists i :: 0 <= i < |s| && s[i].url == url
  {
    if s != [] {
      UrlsMeaning(s[..|s| - 1], url);
      if url in Urls(s[..|s| - 1]) {
        var i :| 0 <= i < |s| - 1 && s[..|s| - 1][i].url == url;
        assert s[i].url == url;
      }
    }
  }

  /** Some engine found this URL. */
  ghost predicate Found(batches: seq<seq<Source>>, url: string) {
    exists b, i :: 0 <= b < |batches| && 0 <= i < |batches[b]| && batches[b][i].url == url
  }

  lemma {:induction false} ColumnMeaning(batches: seq<seq<Source>>, i: nat, x: Source)
    ensures x in Column(batches, i) <==> exists b :: 0 <= b < |batches| && i < |batches[b]| && batches[b][i] == x
  {
    if batches != [] {
      var init := batches[..|batches| - 1];
      ColumnMeaning(init, i, x);
      if x in Column(init, i) {
        var b :| 0 <= b < |init| && i < |init[b]| && init[b][i] == x;
        assert batches[b][i] == x;
      }
    }
  }

  ghost predicate InColumn(batches: seq<seq<Source>>, i: nat, x: Source) { x in Column(batches, i) }

  lemma {:induction false} InterleaveMeaning(batches: seq<seq<Source>>, depth: nat, x: Source)
    ensures x in Interleave(batches, depth) <==> exists i :: 0 <= i < depth && InColumn(batches, i, x)
  {
    if depth > 0 {
      InterleaveMeaning(batches, depth - 1, x);
      MemberOfEither(Interleave(batches, depth - 1), Column(batches, depth - 1), x);
      if x in Column(batches, depth - 1) { assert InColumn(batches, depth - 1, x); }
    }
  }

  lemma MemberOfEither(s: seq<Source>, t: seq<Source>, x: Source)
    ensures x in s + t <==> x in s || x in t
  {}

  lemma EverythingFound(batches: seq<seq<Source>>, url: string)
    ensures url in Urls(Everything(batches)) <==> Found(batches, url)
  {
    var depth := Depth(batches);
    var all := Interleave(batches, depth);
    DedupElements(all);
    UrlsMeaning(all, url);
    if url in Urls(all) {
      var n :| 0 <= n < |all| && all[n].url == url;
      InterleaveMeaning(batches, depth, all[n]);
      var i :| 0 <= i < depth && InColumn(batches, i, all[n]);
      ColumnMeaning(batches, i, all[n]);
      var b :| 0 <= b < |batches| && i < |batches[b]| && batches[b][i] == all[n];
      assert batches[b][i].url == url;
    }
    if Found(batches, url) {
      var b, i :| 0 <= b < |batches| && 0 <= i < |batches[b]| && batches[b][i].url == url;
      var x := batches[b][i];
      ColumnMeaning(batches, i, x);
      assert InColumn(batches, i, x);
      InterleaveMeaning(batches, depth, x);
      var n :| 0 <= n < |all| && all[n] == x;
      assert all[n].url == url;
    }
  }

  /** The merge lists min(k, different URLs found) sources with different URLs, all of them found. */
  lemma MergedSize(batches: seq<seq<Source>>, k: int, urls: set<string>)
    requires forall url :: url in urls <==> Found(batches, url)
    ensures var merged := Prefix(Everything(batches), Limit(k));
      && |merged| == (if Limit(k) < |urls| then Limit(k) else |urls|)
      && (forall i, j :: 0 <= i < j < |merged| ==> merged[i].url != merged[j].url)
      && (forall i :: 0 <= i < |merged| ==> Found(batches, merged[i].url))
  {
    var all := Everything(batches);
    DedupElements(Interleave(batches, Depth(batches)));
    forall url ensures url in urls <==> url in Urls(all) { EverythingFound(batches, url); }
    assert urls == Urls(all);
  }

  /** Three sources, the mark of a triangulated answer, need room for three and three URLs. */
  lemma Triangulated(batches: seq<seq<Source>>, k: int, urls: set<string>)
    requires forall url :: url in urls <==> Found(batches, url)
    ensures |Prefix(Everything(batches), Limit(k))| >= 3 <==> k >= 3 && |urls| >= 3
  {
    MergedSize(batches, k, urls);
  }

  // ----- no engine is starved

  ghost predicate Present(sources: seq<Source>, url: string) {
    exists i :: 0 <= i < |sources| && sources[i].url == url
  }

  /** The first URL of every engine that answered is listed. */
  ghost predicate NoneStarved(batches: seq<seq<Source>>, k: int) {
    forall b :: 0 <= b < |batches| && batches[b] != [] ==>
      Present(Prefix(Everything(batches), Limit(k)), batches[b][0].url)
  }

  lemma {:induction false} ColumnSize(batches: seq<seq<Source>>, i: nat)
    ensures |Column(batches, i)| <= |batches|
  {
    if batches != [] { ColumnSize(batches[..|batches| - 1], i); }
  }

  lemma {:induction false} DedupSize(s: seq<Source>)
    ensures |Dedup(s)| <= |s|
  {
    if s != [] { DedupSize(s[..|s| - 1]); }
  }

  lemma FirstInColumn(batches: seq<seq<Source>>, b: nat)
    requires b < |batches| && batches[b] != []
    ensures Present(Dedup(Column(batches, 0)), batches[b][0].url)
  {
    var url, column := batches[b][0].url, Column(batches, 0);
    ColumnNonempty(batches, b, 0);
    var n :| 0 <= n < |column| && column[n] == batches[b][0];
    assert column[n].url == url;
    UrlsMeaning(column, url);
    DedupElements(column);
    UrlsMeaning(Dedup(column), url);
  }

  lemma PresentInPrefix(part: seq<Source>, all: seq<Source>, k: nat, url: string)
    requires part <= all && |part| <= k && Present(part, url)
    ensures Present(Prefix(all, k), url)
  {
    var i :| 0 <= i < |part| && part[i].url == url;
    assert Prefix(all, k)[i].url == url;
  }

  lemma FirstListed(batches: seq<seq<Source>>, k: int, b: nat)
    requires b < |batches| && batches[b] != [] && |batches| <= Limit(k)
    ensures Present(Prefix(Everything(batches), Limit(k)), batches[b][0].url)
  {
    var column := Column(batches, 0);
    FirstInColumn(batches, b);
    ColumnSize(batches, 0);
    DedupSize(column);
    assert Interleave(batches, 1) == column;
    InterleavePrefix(batches, 1, Depth(batches));
    DedupMonotone(column, Interleave(batches, Depth(batches)));
    PresentInPrefix(Dedup(column), Everything(batches), Limit(k), batches[b][0].url);
  }

  function Url(n: nat): string { seq(n, i => 'x') }

  /** e engines that each found one URL of their own. */
  function Alone(e: nat): (batches: seq<seq<Source>>)
    ensures |batches| == e
    ensures forall b :: 0 <= b < e ==> batches[b] == [Source(Url(b), "", "")]
  {
    seq(e, b requires 0 <= b => [Source(Url(b), "", "")])
  }

  function FirstUrls(n: nat): (urls: set<string>)
    ensures forall url :: url in urls ==> |url| < n
    ensures |urls| == n
  {
    if n == 0 then {} else FirstUrls(n - 1) + {Url(n - 1)}
  }

  lemma {:induction false} FirstUrlsListed(sources: seq<Source>, e: nat, n: nat)
    requires n <= e && forall b :: 0 <= b < e ==> Present(sources, Alone(e)[b][0].url)
    ensures FirstUrls(n) <= Urls(sources)
  {
    if n > 0 {
      FirstUrlsListed(sources, e, n - 1);
      assert Alone(e)[n - 1][0].url == Url(n - 1);
      UrlsMeaning(sources, Url(n - 1));
    }
  }

  lemma SubsetSize(s: set<string>, t: set<string>)
    requires s <= t
    ensures |s| <= |t|
  {
    assert t == s + (t - s);
  }

  lemma {:induction false} UrlsSize(s: seq<Source>)
    ensures |Urls(s)| <= |s|
  {
    if s != [] { UrlsSize(s[..|s| - 1]); }
  }

  lemma SomeStarved(e: nat, k: int)
    requires e > Limit(k)
    ensures !NoneStarved(Alone(e), k)
  {
    if NoneStarved(Alone(e), k) {
      var firsts := Prefix(Everything(Alone(e)), Limit(k));
      FirstUrlsListed(firsts, e, e);
      UrlsSize(firsts);
      SubsetSize(FirstUrls(e), Urls(firsts));
    }
  }

  /** For how many engines k slots are enough, whatever they found. */
  lemma NoneStarvedExactly(e: nat, k: int)
    ensures e <= Limit(k) <==> forall batches :: |batches| == e ==> NoneStarved(batches, k)
  {
    if e <= Limit(k) {
      forall batches: seq<seq<Source>>, b | |batches| == e && 0 <= b < e && batches[b] != []
        ensures Present(Prefix(Everything(batches), Limit(k)), batches[b][0].url)
      {
        FirstListed(batches, k, b);
      }
    } else {
      SomeStarved(e, k);
      assert |Alone(e)| == e;
    }
  }
}
