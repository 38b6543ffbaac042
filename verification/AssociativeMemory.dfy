/** The in-memory associative graph and its recall operation. */
module AssociativeMemory {
  import opened Nonlinear
  import opened Sums
  import opened Sequences
  import opened Diffusion
  import opened PageRank
  import opened Expansion

  datatype NodeData = NodeData(caption: string, quarantined: bool, trustScore: real)

  /** matches: how many query terms occur in a node's text; weight: its temporal weight. */
  datatype Query = Query(matches: NodeId -> nat, weight: NodeId -> real)

  datatype Memory = Memory(id: NodeId, score: real, finalScore: real, trail: seq<string>)

  datatype Recall =
    | Recalled(seeds: nat, total: nat, ranked: seq<Memory>)
    | DivisionByZero

  const TOLERANCE := 0.00001

  // ----- seeds

  function RawScore(nodes: map<NodeId, NodeData>, q: Query, id: NodeId): real {
    if id !in nodes || q.matches(id) == 0 then 0.0
    else q.matches(id) as real * (if nodes[id].quarantined || nodes[id].trustScore < 0.8 then 0.2 else 1.0)
  }

  function RawVector(nodes: map<NodeId, NodeData>, q: Query, kept: seq<NodeId>): seq<real> {
    seq(|kept|, i requires 0 <= i < |kept| => RawScore(nodes, q, kept[i]))
  }

  function Normalise(raw: seq<real>): seq<real>
    requires |raw| > 0
  {
    var total := Mass(raw);
    if total > 0.0 then seq(|raw|, i requires 0 <= i < |raw| => raw[i] / total)
    else seq(|raw|, i => 1.0 / |raw| as real)
  }

  lemma RawScoreNonnegative(nodes: map<NodeId, NodeData>, q: Query, id: NodeId)
    ensures RawScore(nodes, q, id) >= 0.0
    ensures RawScore(nodes, q, id) > 0.0 <==> id in nodes && q.matches(id) > 0
  {}

  /** The restart vector is a probability vector, and it is positive exactly where the raw
      scores are, unless no kept node matched the query at all. */
  lemma NormaliseIsDistribution(raw: seq<real>)
    requires |raw| > 0 && forall i :: 0 <= i < |raw| ==> raw[i] >= 0.0
    ensures |Normalise(raw)| == |raw| && Distribution(Normalise(raw))
    ensures (exists i :: 0 <= i < |raw| && raw[i] > 0.0) ==>
              forall i :: 0 <= i < |raw| ==> (Normalise(raw)[i] > 0.0 <==> raw[i] > 0.0)
  {
    var total, n := Mass(raw), |raw|;
    SumNonnegative(Entries(raw), n);
    if total > 0.0 {
      DivideByTotal(raw, Normalise(raw), total);
    } else {
      forall i | 0 <= i < n ensures raw[i] == 0.0 { SumAtLeastTerm(Entries(raw), i, n); }
      SumConstant(1.0 / n as real, Entries(Normalise(raw)), n);
    }
  }

  lemma DivideByTotal(raw: seq<real>, p: seq<real>, total: real)
    requires |p| == |raw| && total == Mass(raw) > 0.0
    requires forall i :: 0 <= i < |raw| ==> raw[i] >= 0.0 && p[i] == raw[i] / total
    ensures Distribution(p) && forall i :: 0 <= i < |raw| ==> (p[i] > 0.0 <==> raw[i] > 0.0)
  {
    var inverse := Inverse(total);
    forall i | 0 <= i < |raw|
      ensures p[i] == inverse * raw[i] >= 0.0 && (p[i] > 0.0 <==> raw[i] > 0.0)
    {
      Quotient(raw[i], total, inverse);
    }
    SumScale(inverse, Entries(raw), Entries(p), |raw|);
  }

  lemma Quotient(x: real, d: real, inverse: real)
    requires d > 0.0 && x >= 0.0 && inverse * d == 1.0
    ensures x / d == inverse * x >= 0.0
    ensures inverse * x > 0.0 <==> x > 0.0
  {
    assert inverse > 0.0;
    assert inverse * x == inverse * (x / d * d) == x / d * (inverse * d);
  }

  // ----- the node bound

  function Seeds(order: seq<NodeId>, q: Query): set<NodeId> {
    set id | id in order && q.matches(id) > 0
  }

  function Inside(order: seq<NodeId>, active: set<NodeId>): seq<NodeId> {
    Filter(order, id => id in active)
  }

  function Kept(order: seq<NodeId>, edges: seq<Edge>, q: Query, bound: nat): seq<NodeId> {
    var seeds := Seeds(order, q);
    if |order| > bound && seeds != {} then
      var active := Expand(seeds, edges, 0, bound);
      Prefix(Inside(order, active), bound)
    else order
  }

  /** The bounded subgraph: distinct stored nodes, at most `bound` of them once the graph is
      larger than that and something matched, each connected to a matching node. */
  lemma KeptNodes(order: seq<NodeId>, edges: seq<Edge>, q: Query, bound: nat)
    requires Distinct(order)
    ensures Distinct(Kept(order, edges, q, bound))
    ensures forall id :: id in Kept(order, edges, q, bound) ==> id in order
    ensures |order| > bound && Seeds(order, q) != {} ==>
              && |Kept(order, edges, q, bound)| <= bound
              && (forall id :: id in Kept(order, edges, q, bound) ==> Connected(edges, Seeds(order, q), id))
    ensures order != [] ==> (Kept(order, edges, q, bound) == [] <==> bound == 0 && Seeds(order, q) != {})
  {
    var seeds := Seeds(order, q);
    if |order| > bound && seeds != {} {
      var active := Expand(seeds, edges, 0, bound);
      InsideActive(order, active, bound);
      ExpandGrows(seeds, edges, 0, bound);
      forall id | id in seeds ensures Connected(edges, seeds, id) {
        assert EdgeTrail([id], edges, seeds, id);
      }
      ExpandConnected(seeds, edges, 0, bound, seeds);
      var s :| s in seeds;
      assert s in Inside(order, active);
    }
  }

  lemma InsideActive(order: seq<NodeId>, active: set<NodeId>, bound: nat)
    requires Distinct(order)
    ensures forall id :: id in Inside(order, active) <==> id in order && id in active
    ensures Distinct(Prefix(Inside(order, active), bound))
    ensures forall id :: id in Prefix(Inside(order, active), bound) ==> id in Inside(order, active)
  {
    FilterSubsequence(order, id => id in active);
  }

  /** What the bound keeps, exactly: of the nodes at the end of a rising trail from a matching node,
      the first in dictionary order, as many as the bound allows, in that order. */
  lemma KeptExactly(order: seq<NodeId>, edges: seq<Edge>, q: Query, bound: nat)
    requires Distinct(order) && |order| > bound && Seeds(order, q) != {}
    ensures var kept, seeds := Kept(order, edges, q, bound), Seeds(order, q);
      var stop := Stop(seeds, edges, bound, 0);
      && StopsAfter(seeds, edges, bound, stop)
      && (forall id :: id in kept ==> id in order && Rises(edges, seeds, stop, id))
      && (forall id :: id in order && Rises(edges, seeds, stop, id) && id !in kept ==>
            |kept| == bound && forall x :: x in kept ==> Earlier(order, x, id))
      && (forall i, j :: 0 <= i < j < |kept| ==> Earlier(order, kept[i], kept[j]))
  {
    var seeds := Seeds(order, q);
    var active := Expand(seeds, edges, 0, bound);
    ExpandExactly(seeds, edges, bound, "");
    forall id ensures id in active <==> Rises(edges, seeds, Stop(seeds, edges, bound, 0), id) {
      ExpandExactly(seeds, edges, bound, id);
    }
    FirstInside(order, active, bound);
  }

  lemma FirstInside(order: seq<NodeId>, active: set<NodeId>, bound: nat)
    requires Distinct(order)
    ensures var kept := Prefix(Inside(order, active), bound);
      && (forall id :: id in kept ==> id in order && id in active)
      && (forall id :: id in order && id in active && id !in kept ==>
            |kept| == bound && forall x :: x in kept ==> Earlier(order, x, id))
      && (forall i, j :: 0 <= i < j < |kept| ==> Earlier(order, kept[i], kept[j]))
  {
    var inside, kept := Inside(order, active), Prefix(Inside(order, active), bound);
    InsideActive(order, active, bound);
    FilterKeepsOrder(order, id => id in active);
    assert forall i :: 0 <= i < |kept| ==> inside[i] == kept[i] && inside[i] in kept;
    forall id | id in inside && id !in kept ensures |kept| == bound && forall x :: x in kept ==> Earlier(order, x, id) {
      var j :| 0 <= j < |inside| && inside[j] == id;
      forall x | x in kept ensures Earlier(order, x, id) {
        var i :| 0 <= i < |kept| && kept[i] == x;
      }
    }
  }

  /** A query that only the node `id` matches. */
  function Asking(id: NodeId): Query {
    Query(x => if x == id then 1 else 0, _ => 1.0)
  }

  lemma AskingSeeds(order: seq<NodeId>, id: NodeId)
    requires id in order
    ensures Seeds(order, Asking(id)) == {id}
  {}

  /** The bound does not keep the two-hop neighbourhood of the matching nodes: it can keep a node three
      hops away, drop one two hops away with room left, and drop a neighbour. */
  lemma NotTwoHops()
    ensures var edges := [Edge("a", "b"), Edge("b", "c"), Edge("c", "d")];
      "d" in Kept(["d", "a", "b", "c", "e"], edges, Asking("a"), 4) && !Near(edges, {"a"}, 2, "d")
    ensures var edges := [Edge("b", "c"), Edge("a", "b")];
      var kept := Kept(["a", "b", "c", "d"], edges, Asking("a"), 3);
      "c" !in kept && |kept| < 3 && Near(edges, {"a"}, 2, "c")
    ensures var edges := [Edge("a", "b"), Edge("a", "c")];
      "c" !in Kept(["a", "b", "c"], edges, Asking("a"), 2) && Near(edges, {"a"}, 1, "c")
  {
    KeepsPast();
    KeepsShort();
    KeepsCut();
  }

  lemma KeepsPast()
    ensures var edges := [Edge("a", "b"), Edge("b", "c"), Edge("c", "d")];
      "d" in Kept(["d", "a", "b", "c", "e"], edges, Asking("a"), 4) && !Near(edges, {"a"}, 2, "d")
  {
    var order, edges := ["d", "a", "b", "c", "e"], [Edge("a", "b"), Edge("b", "c"), Edge("c", "d")];
    PastTwoHops();
    assert order[1] in order;
    AskingSeeds(order, "a");
    var inside := Inside(order, {"a", "b", "c", "d"});
    assert inside[0] == "d";
    assert Kept(order, edges, Asking("a"), 4) == Prefix(inside, 4);
    assert Prefix(inside, 4)[0] == "d";
  }

  lemma KeepsShort()
    ensures var edges := [Edge("b", "c"), Edge("a", "b")];
      var kept := Kept(["a", "b", "c", "d"], edges, Asking("a"), 3);
      "c" !in kept && |kept| < 3 && Near(edges, {"a"}, 2, "c")
  {
    var order, edges := ["a", "b", "c", "d"], [Edge("b", "c"), Edge("a", "b")];
    ShortOfTwoHops();
    assert order[0] in order;
    AskingSeeds(order, "a");
    OnlyTwo(order, "c", "d");
  }

  lemma KeepsCut()
    ensures var edges := [Edge("a", "b"), Edge("a", "c")];
      "c" !in Kept(["a", "b", "c"], edges, Asking("a"), 2) && Near(edges, {"a"}, 1, "c")
  {
    var order, edges := ["a", "b", "c"], [Edge("a", "b"), Edge("a", "c")];
    CutByBound();
    assert order[0] in order;
    AskingSeeds(order, "a");
    InsideActive(order, {"a", "b"}, 2);
  }

  lemma InsideFirst(x: NodeId, rest: seq<NodeId>, active: set<NodeId>)
    ensures Inside([x] + rest, active) == if x in active then [x] + Inside(rest, active) else Inside(rest, active)
  {
    assert ([x] + rest)[1..] == rest;
  }

  lemma OnlyTwo(order: seq<NodeId>, x: NodeId, y: NodeId)
    requires order == ["a", "b", x, y] && x != "a" && x != "b" && y != "a" && y != "b"
    ensures Inside(order, {"a", "b"}) == ["a", "b"]
  {
    InsideFirst(y, [], {"a", "b"});
    InsideFirst(x, [y], {"a", "b"});
    InsideFirst("b", [x, y], {"a", "b"});
    InsideFirst("a", ["b", x, y], {"a", "b"});
    assert [y] + [] == [y] && [x] + [y] == [x, y] && ["b"] + [x, y] == ["b", x, y] && ["a"] + ["b", x, y] == order;
  }

  lemma {:induction false} FilterKeepsOrder(order: seq<NodeId>, keep: NodeId -> bool)
    requires Distinct(order)
    ensures forall i, j :: 0 <= i < j < |Filter(order, keep)| ==> Earlier(order, Filter(order, keep)[i], Filter(order, keep)[j])
  {
    if order != [] {
      var x, rest := order[0], order[1..];
      FilterKeepsOrder(rest, keep);
      FilterSubsequence(rest, keep);
      assert order == [x] + rest && x !in rest;
      var kept := Filter(rest, keep);
      forall i, j | 0 <= i < j < |Filter(order, keep)|
        ensures Earlier(order, Filter(order, keep)[i], Filter(order, keep)[j])
      {
        var b := Filter(order, keep)[j];
        assert b in kept;
        if keep(x) && i == 0 {
          EarlierHeadFirst(x, rest, b);
        } else {
          EarlierFirst(x, rest, Filter(order, keep)[i], b);
        }
      }
    }
  }

  lemma EarlierHeadFirst(x: NodeId, rest: seq<NodeId>, b: NodeId)
    requires x !in rest && b in rest
    ensures Earlier([x] + rest, x, b)
  {
    EarlierAbsent(rest, x, b);
    EarlierFirst(x, rest, x, b);
  }

  // ----- adjacency

  function IndexOf(kept: seq<NodeId>, id: NodeId): (i: nat)
    requires id in kept
    ensures i < |kept| && kept[i] == id
  {
    if kept[0] == id then 0 else 1 + IndexOf(kept[1..], id)
  }

  /** Entries that the first k edges put into the list of node u. */
  function Neighbours(kept: seq<NodeId>, edges: seq<Edge>, k: nat, u: nat): seq<nat>
    requires k <= |edges|
  {
    if k == 0 then []
    else
      var e := edges[k - 1];
      var before := Neighbours(kept, edges, k - 1, u);
      if e.source in kept && e.target in kept then
        var i, j := IndexOf(kept, e.source), IndexOf(kept, e.target);
        before + (if i == u then [j] else []) + (if j == u then [i] else [])
      else before
  }

  function AdjacencyOf(kept: seq<NodeId>, edges: seq<Edge>): Adjacency {
    seq(|kept|, u => if u >= 0 then Neighbours(kept, edges, |edges|, u) else [])
  }

  /** Number of edge ends between two ids: a self-loop has two, parallel edges add up. */
  function Links(edges: seq<Edge>, k: nat, a: NodeId, b: NodeId): nat
    requires k <= |edges|
  {
    if k == 0 then 0
    else
      Links(edges, k - 1, a, b) + (if edges[k - 1] == Edge(a, b) then 1 else 0)
                                + (if edges[k - 1] == Edge(b, a) then 1 else 0)
  }

  lemma {:induction false} OccursPrefix(s: seq<nat>, t: seq<nat>, k: nat, v: int)
    requires k <= |s|
    ensures Occurs(s + t, k, v) == Occurs(s, k, v)
  {
    if k > 0 { OccursPrefix(s, t, k - 1, v); }
  }

  lemma {:induction false} OccursConcat(s: seq<nat>, t: seq<nat>, k: nat, v: int)
    requires k <= |t|
    ensures Occurs(s + t, |s| + k, v) == Occurs(s, |s|, v) + Occurs(t, k, v)
  {
    if k == 0 { OccursPrefix(s, t, |s|, v); } else { OccursConcat(s, t, k - 1, v); }
  }

  lemma {:induction false} NeighboursInRange(kept: seq<NodeId>, edges: seq<Edge>, k: nat, u: nat)
    requires k <= |edges|
    ensures forall v :: v in Neighbours(kept, edges, k, u) ==> v < |kept|
  {
    if k > 0 { NeighboursInRange(kept, edges, k - 1, u); }
  }

  lemma {:induction false} NeighbourCount(kept: seq<NodeId>, edges: seq<Edge>, k: nat, u: nat, v: nat)
    requires Distinct(kept) && k <= |edges| && u < |kept| && v < |kept|
    ensures Occurs(Neighbours(kept, edges, k, u), |Neighbours(kept, edges, k, u)|, v)
         == Links(edges, k, kept[u], kept[v])
  {
    if k > 0 {
      NeighbourCount(kept, edges, k - 1, u, v);
      var e, before := edges[k - 1], Neighbours(kept, edges, k - 1, u);
      if e.source in kept && e.target in kept {
        var i, j := IndexOf(kept, e.source), IndexOf(kept, e.target);
        var first := if i == u then [j] else [];
        var second := if j == u then [i] else [];
        OccursConcat(before, first, |first|, v);
        OccursConcat(before + first, second, |second|, v);
        assert Occurs(first, |first|, v) == if e == Edge(kept[u], kept[v]) then 1 else 0;
        assert Occurs(second, |second|, v) == if e == Edge(kept[v], kept[u]) then 1 else 0;
      }
    }
  }

  lemma {:induction false} LinksSymmetric(edges: seq<Edge>, k: nat, a: NodeId, b: NodeId)
    requires k <= |edges|
    ensures Links(edges, k, a, b) == Links(edges, k, b, a)
  {
    if k > 0 { LinksSymmetric(edges, k - 1, a, b); }
  }

  /** Each list holds every neighbour as often as there are edge ends to it, so the
      adjacency multiset is symmetric, self-loops and parallel edges included. */
  lemma AdjacencyCountsLinks(kept: seq<NodeId>, edges: seq<Edge>, u: nat, v: nat)
    requires Distinct(kept) && u < |kept| && v < |kept|
    ensures WellFormed(AdjacencyOf(kept, edges))
    ensures Occurs(AdjacencyOf(kept, edges)[u], |AdjacencyOf(kept, edges)[u]|, v)
         == Links(edges, |edges|, kept[u], kept[v])
         == Occurs(AdjacencyOf(kept, edges)[v], |AdjacencyOf(kept, edges)[v]|, u)
  {
    AdjacencyWellFormed(kept, edges);
    NeighbourCount(kept, edges, |edges|, u, v);
    NeighbourCount(kept, edges, |edges|, v, u);
    LinksSymmetric(edges, |edges|, kept[u], kept[v]);
  }

  lemma AdjacencyWellFormed(kept: seq<NodeId>, edges: seq<Edge>)
    ensures WellFormed(AdjacencyOf(kept, edges))
  {
    forall u | 0 <= u < |kept|
      ensures forall v :: v in AdjacencyOf(kept, edges)[u] ==> v < |kept|
    {
      NeighboursInRange(kept, edges, |edges|, u);
    }
    forall u, k | 0 <= u < |kept| && 0 <= k < |AdjacencyOf(kept, edges)[u]|
      ensures AdjacencyOf(kept, edges)[u][k] < |kept|
    {
      assert AdjacencyOf(kept, edges)[u][k] in AdjacencyOf(kept, edges)[u];
    }
  }

  /** The entries of a list stand in the order of the edges they come from. */
  ghost predicate InEdgeOrder(kept: seq<NodeId>, edges: seq<Edge>, k: nat, u: nat, near: seq<nat>, at: seq<nat>)
    requires u < |kept|
  {
    && |at| == |near| && (forall i, j :: 0 <= i < j < |at| ==> at[i] <= at[j])
    && forall j :: 0 <= j < |at| ==>
      at[j] < k && at[j] < |edges| && near[j] < |kept| && Joins(edges[at[j]], kept[u], kept[near[j]])
  }

  lemma {:induction false} NeighboursInEdgeOrder(kept: seq<NodeId>, edges: seq<Edge>, k: nat, u: nat) returns (at: seq<nat>)
    requires Distinct(kept) && u < |kept| && k <= |edges|
    ensures InEdgeOrder(kept, edges, k, u, Neighbours(kept, edges, k, u), at)
  {
    at := [];
    if k > 0 {
      at := NeighboursInEdgeOrder(kept, edges, k - 1, u);
      var e, near := edges[k - 1], Neighbours(kept, edges, k - 1, u);
      if e.source in kept && e.target in kept {
        var i, j := IndexOf(kept, e.source), IndexOf(kept, e.target);
        if i == u {
          NextInEdgeOrder(kept, edges, k, u, near, at, j);
          at, near := at + [k - 1], near + [j];
        }
        if j == u {
          NextInEdgeOrder(kept, edges, k, u, near, at, i);
          at, near := at + [k - 1], near + [i];
        }
        assert near == Neighbours(kept, edges, k, u);
      }
    }
  }

  lemma NextInEdgeOrder(kept: seq<NodeId>, edges: seq<Edge>, k: nat, u: nat, near: seq<nat>, at: seq<nat>, v: nat)
    requires u < |kept| && v < |kept| && 0 < k <= |edges| && InEdgeOrder(kept, edges, k, u, near, at)
    requires Joins(edges[k - 1], kept[u], kept[v])
    ensures InEdgeOrder(kept, edges, k, u, near + [v], at + [k - 1])
  {}

  /** One spreading step hands each node links/degree of u's mass, where the degree counts all the
      edge ends at u; without any, u keeps its mass. */
  lemma SpreadByLinks(kept: seq<NodeId>, edges: seq<Edge>, u: nat, v: nat)
    requires Distinct(kept) && u < |kept| && v < |kept|
    ensures var adj := AdjacencyOf(kept, edges);
      Share(adj, u, v) == if adj[u] != [] then Links(edges, |edges|, kept[u], kept[v]) as real / |adj[u]| as real
                          else if u == v then 1.0 else 0.0
    ensures AdjacencyOf(kept, edges)[u] == [] <==>
      forall x :: 0 <= x < |kept| ==> Links(edges, |edges|, kept[u], kept[x]) == 0
  {
    var s := AdjacencyOf(kept, edges)[u];
    forall x | 0 <= x < |kept| ensures Occurs(s, |s|, x) == Links(edges, |edges|, kept[u], kept[x]) {
      AdjacencyCountsLinks(kept, edges, u, x);
    }
    if s != [] {
      NeighboursInRange(kept, edges, |edges|, u);
      assert s[0] in s && s[..|s|] == s;
      OccursPositive(s, |s|, s[0]);
    }
  }

  /** Removing a node drops exactly the edge ends at that node. */
  lemma {:induction false} RemovalPrunes(edges: seq<Edge>, id: NodeId, a: NodeId, b: NodeId)
    ensures Links(Without(edges, id), |Without(edges, id)|, a, b)
         == if a == id || b == id then 0 else Links(edges, |edges|, a, b)
  {
    if edges != [] {
      var first, rest := [edges[0]], edges[1..];
      RemovalPrunes(rest, id, a, b);
      assert edges == first + rest;
      LinksConcat(first, rest, |rest|, a, b);
      LinksConcat(first, Without(rest, id), |Without(rest, id)|, a, b);
      assert Links(first, 1, a, b) == (if first[0] == Edge(a, b) then 1 else 0) + (if first[0] == Edge(b, a) then 1 else 0);
      assert first + Without(rest, id) == Without(edges, id) || Without(rest, id) == Without(edges, id);
    }
  }

  function Without(edges: seq<Edge>, id: NodeId): seq<Edge> {
    Filter(edges, (e: Edge) => e.source != id && e.target != id)
  }

  lemma {:induction false} LinksConcat(s: seq<Edge>, t: seq<Edge>, k: nat, a: NodeId, b: NodeId)
    requires k <= |t|
    ensures Links(s + t, |s| + k, a, b) == Links(s, |s|, a, b) + Links(t, k, a, b)
  {
    if k == 0 { LinksPrefix(s, t, |s|, a, b); } else { LinksConcat(s, t, k - 1, a, b); }
  }

  lemma {:induction false} LinksPrefix(s: seq<Edge>, t: seq<Edge>, k: nat, a: NodeId, b: NodeId)
    requires k <= |s|
    ensures Links(s + t, k, a, b) == Links(s, k, a, b)
  {
    if k > 0 { LinksPrefix(s, t, k - 1, a, b); }
  }

  // ----- ranking

  function Trail(nodes: map<NodeId, NodeData>, kept: seq<NodeId>, neighbours: seq<nat>): seq<string> {
    var near := Prefix(neighbours, 3);
    seq(|near|, j requires 0 <= j < |near| =>
      if near[j] < |kept| && kept[near[j]] in nodes then nodes[kept[near[j]]].caption else "")
  }

  function Scored(nodes: map<NodeId, NodeData>, kept: seq<NodeId>, adj: Adjacency, p: seq<real>, q: Query): seq<Memory>
    requires |adj| == |kept|
  {
    seq(|kept|, i requires 0 <= i < |kept| =>
      Memory(kept[i], At(p, i), At(p, i) * q.weight(kept[i]), Trail(nodes, kept, adj[i])))
  }

  predicate HigherScore(a: Memory, b: Memory) { a.finalScore > b.finalScore }

  function Ranking(scored: seq<Memory>, topK: nat): seq<Memory> {
    Prefix(Sort(scored, HigherScore), topK)
  }

  // ----- which memories are listed, and in what order

  /** Kept node i is ranked before kept node j: its score times its weight is larger, or as large
      and it stands first in the dictionary. */
  ghost predicate Beats(kept: seq<NodeId>, p: seq<real>, q: Query, i: nat, j: nat)
    requires i < |kept| == |p| && j < |kept|
  {
    var x, y := p[i] * q.weight(kept[i]), p[j] * q.weight(kept[j]);
    x > y || (x == y && i < j)
  }

  /** The memory of kept node i: its score, that times its weight, and the captions of the first
      three entries of its list. */
  ghost predicate Recalls(nodes: map<NodeId, NodeData>, kept: seq<NodeId>, adj: Adjacency, p: seq<real>, q: Query,
      m: Memory, i: nat)
    requires |adj| == |kept| == |p| && i < |kept|
  {
    && m.id == kept[i] && m.score == p[i] && m.finalScore == p[i] * q.weight(kept[i])
    && |m.trail| == (if |adj[i]| < 3 then |adj[i]| else 3)
    && forall j :: 0 <= j < |m.trail| ==>
      adj[i][j] < |kept| && kept[adj[i][j]] in nodes && m.trail[j] == nodes[kept[adj[i][j]]].caption
  }

  /** The memories listed are those of the kept nodes at these places: as many as asked for or there
      are, each ranked before the next and before every node left out. */
  ghost predicate ListsTop(nodes: map<NodeId, NodeData>, kept: seq<NodeId>, adj: Adjacency, p: seq<real>, q: Query,
      topK: nat, ranked: seq<Memory>, places: seq<nat>)
    requires |adj| == |kept| == |p|
  {
    && |places| == |ranked| == (if |kept| < topK then |kept| else topK)
    && (forall a :: 0 <= a < |places| ==> places[a] < |kept| && Recalls(nodes, kept, adj, p, q, ranked[a], places[a]))
    && (forall a, b :: 0 <= a < b < |places| ==> Beats(kept, p, q, places[a], places[b]))
    && (forall a, j :: 0 <= a < |places| && 0 <= j < |kept| && j !in places ==> Beats(kept, p, q, places[a], j))
  }

  lemma RankingListsTop(nodes: map<NodeId, NodeData>, kept: seq<NodeId>, adj: Adjacency, p: seq<real>, q: Query, topK: nat)
      returns (places: seq<nat>)
    requires |adj| == |kept| == |p| && WellFormed(adj) && Distinct(kept) && forall id :: id in kept ==> id in nodes
    ensures ListsTop(nodes, kept, adj, p, q, topK, Ranking(Scored(nodes, kept, adj, p, q), topK), places)
  {
    var scored := Scored(nodes, kept, adj, p, q);
    var sorted := Sort(scored, HigherScore);
    var all := SortedPlaces(kept, scored, sorted);
    var k := if |kept| < topK then |kept| else topK;
    places := all[..k];
    assert Ranking(scored, topK) == sorted[..k];
    forall a | 0 <= a < k ensures Recalls(nodes, kept, adj, p, q, sorted[a], places[a]) {
      ScoredRecalls(nodes, kept, adj, p, q, all[a]);
    }
    forall a, b | 0 <= a < b < k ensures Beats(kept, p, q, places[a], places[b]) {
      SortedBeats(nodes, kept, adj, p, q, all, a, b);
    }
    forall a, j | 0 <= a < k && 0 <= j < |kept| && j !in places ensures Beats(kept, p, q, places[a], j) {
      var b := LeftOut(all, k, j);
      SortedBeats(nodes, kept, adj, p, q, all, a, b);
    }
  }

  lemma LeftOut(all: seq<nat>, k: nat, j: nat) returns (b: nat)
    requires k <= |all| && j in all && j !in all[..k]
    ensures k <= b < |all| && all[b] == j
  {
    assert all == all[..k] + all[k..];
    var c :| 0 <= c < |all| - k && all[k..][c] == j;
    b := k + c;
  }

  lemma ScoredRecalls(nodes: map<NodeId, NodeData>, kept: seq<NodeId>, adj: Adjacency, p: seq<real>, q: Query, i: nat)
    requires |adj| == |kept| == |p| && WellFormed(adj) && i < |kept| && forall id :: id in kept ==> id in nodes
    ensures Recalls(nodes, kept, adj, p, q, Scored(nodes, kept, adj, p, q)[i], i)
  {
    var near := Prefix(adj[i], 3);
    forall j | 0 <= j < |near| ensures near[j] == adj[i][j] < |kept| && kept[near[j]] in nodes {}
  }

  /** all[a] is the place of the a-th memory in the unsorted list; every place occurs. */
  ghost predicate PlacesOf(scored: seq<Memory>, sorted: seq<Memory>, all: seq<nat>) {
    && |all| == |sorted| == |scored|
    && (forall a :: 0 <= a < |all| ==> all[a] < |scored| && sorted[a] == scored[all[a]])
    && (forall j :: 0 <= j < |scored| ==> j in all)
  }

  lemma SortedPlaces(kept: seq<NodeId>, scored: seq<Memory>, sorted: seq<Memory>) returns (all: seq<nat>)
    requires Distinct(kept) && |scored| == |kept| && forall i :: 0 <= i < |kept| ==> scored[i].id == kept[i]
    requires sorted == Sort(scored, HigherScore)
    ensures PlacesOf(scored, sorted, all)
  {
    SortPermutes(scored, HigherScore);
    SortMembers(scored, HigherScore);
    forall a | 0 <= a < |sorted| ensures sorted[a].id in kept && scored[IndexOf(kept, sorted[a].id)] == sorted[a] {
      assert sorted[a] in sorted;
      var i :| 0 <= i < |scored| && scored[i] == sorted[a];
      assert kept[i] == sorted[a].id;
    }
    all := seq(|sorted|, a requires 0 <= a < |sorted| => IndexOf(kept, sorted[a].id));
    forall j | 0 <= j < |scored| ensures j in all {
      assert scored[j] in scored;
      var a :| 0 <= a < |sorted| && sorted[a] == scored[j];
      assert all[a] == j;
    }
  }

  lemma SortedBeats(nodes: map<NodeId, NodeData>, kept: seq<NodeId>, adj: Adjacency, p: seq<real>, q: Query,
      all: seq<nat>, a: nat, b: nat)
    requires |adj| == |kept| == |p| && Distinct(kept) && a < b < |all|
    requires PlacesOf(Scored(nodes, kept, adj, p, q), Sort(Scored(nodes, kept, adj, p, q), HigherScore), all)
    ensures Beats(kept, p, q, all[a], all[b])
  {
    var scored := Scored(nodes, kept, adj, p, q);
    ScoredDistinct(nodes, kept, adj, p, q);
    SortedPlacesOrder(scored, Sort(scored, HigherScore), all, a, b);
    ScoredFinally(nodes, kept, adj, p, q, all[a]);
    ScoredFinally(nodes, kept, adj, p, q, all[b]);
    assert scored[all[a]].finalScore == p[all[a]] * q.weight(kept[all[a]]);
  }

  lemma ScoredFinally(nodes: map<NodeId, NodeData>, kept: seq<NodeId>, adj: Adjacency, p: seq<real>, q: Query, i: nat)
    requires |adj| == |kept| == |p| && i < |kept|
    ensures Scored(nodes, kept, adj, p, q)[i].finalScore == p[i] * q.weight(kept[i])
  {}

  lemma ScoredDistinct(nodes: map<NodeId, NodeData>, kept: seq<NodeId>, adj: Adjacency, p: seq<real>, q: Query)
    requires |adj| == |kept| == |p| && Distinct(kept)
    ensures Distinct(Scored(nodes, kept, adj, p, q))
  {
    var scored := Scored(nodes, kept, adj, p, q);
    forall i, j | 0 <= i < j < |scored| ensures scored[i] != scored[j] { assert scored[i].id != scored[j].id; }
  }

  lemma SortedPlacesOrder(scored: seq<Memory>, sorted: seq<Memory>, all: seq<nat>, a: nat, b: nat)
    requires Distinct(scored) && sorted == Sort(scored, HigherScore) && PlacesOf(scored, sorted, all) && a < b < |all|
    ensures var x, y := scored[all[a]], scored[all[b]];
      x.finalScore > y.finalScore || (x.finalScore == y.finalScore && all[a] < all[b])
  {
    SortPermutes(scored, HigherScore);
    DistinctPermutation(scored, sorted);
    assert sorted[a] in scored && sorted[b] in scored && sorted[a] != sorted[b];
    HigherScoreOrders();
    SortOrder(scored, HigherScore, sorted[a], sorted[b]);
    assert Earlier(sorted, sorted[a], sorted[b]);
  }

  lemma HigherScoreOrders()
    ensures StrictWeakOrder(HigherScore)
  {}

  // ----- the stopping iteration

  /** Iteration k is where the loop leaves: by the tolerance test, or by exhaustion. */
  ghost predicate StopsAt(kernel: Kernel, n: nat, p0: seq<real>, alpha: real, maxIterations: nat, k: nat)
    requires |p0| == n
  {
    && k <= maxIterations
    && (k < maxIterations ==> k > 0 && Moved(kernel, n, p0, alpha, k) < TOLERANCE)
    && (forall j :: 0 < j < k ==> Moved(kernel, n, p0, alpha, j) >= TOLERANCE)
  }

  /** The L1 movement of iteration k. */
  ghost function Moved(kernel: Kernel, n: nat, p0: seq<real>, alpha: real, k: nat): real
    requires |p0| == n && k > 0
  {
    IterateLength(kernel, n, p0, alpha, k - 1);
    IterateLength(kernel, n, p0, alpha, k);
    Distance(Iterate(kernel, n, p0, alpha, k - 1), Iterate(kernel, n, p0, alpha, k))
  }

  /** With the default alpha, twenty iterations always suffice: the loop leaves by its
      tolerance test at iteration 18 or earlier. */
  lemma DefaultsStopEarly(adj: Adjacency, p0: seq<real>, maxIterations: nat, k: nat)
    requires WellFormed(adj) && |p0| == |adj| && Distribution(p0) && maxIterations >= 18
    requires StopsAt(KernelOf(adj), |adj|, p0, 0.5, maxIterations, k)
    ensures 0 < k <= 18 && Moved(KernelOf(adj), |adj|, p0, 0.5, k) < TOLERANCE
  {
    KernelIsStochastic(adj);
    DefaultsConverge(KernelOf(adj), |adj|, p0);
    assert Moved(KernelOf(adj), |adj|, p0, 0.5, 18) < TOLERANCE;
  }

  ghost predicate Listed(order: seq<NodeId>, k: nat, id: NodeId) {
    exists j :: 0 <= j < k <= |order| && order[j] == id
  }

  ghost function FilledScore(nodes: map<NodeId, NodeData>, q: Query, order: seq<NodeId>, k: nat, id: NodeId): real {
    if Listed(order, k, id) then RawScore(nodes, q, id) else 0.0
  }

  ghost function SeedsBefore(order: seq<NodeId>, k: nat, kept: seq<NodeId>, q: Query): set<NodeId> {
    set id | id in kept && q.matches(id) > 0 && Listed(order, k, id)
  }

  lemma ListedNext(order: seq<NodeId>, k: nat)
    requires k < |order| && Distinct(order)
    ensures forall id :: Listed(order, k + 1, id) <==> Listed(order, k, id) || id == order[k]
    ensures !Listed(order, k, order[k])
  {
    forall id | Listed(order, k, id) || id == order[k] ensures Listed(order, k + 1, id) {
      if id == order[k] { assert order[k] == id && k < k + 1; }
    }
  }

  lemma SeedsNext(order: seq<NodeId>, k: nat, kept: seq<NodeId>, q: Query)
    requires k < |order| && Distinct(order)
    ensures |SeedsBefore(order, k + 1, kept, q)|
         == |SeedsBefore(order, k, kept, q)| + if q.matches(order[k]) > 0 && order[k] in kept then 1 else 0
  {
    ListedNext(order, k);
    var added := if q.matches(order[k]) > 0 && order[k] in kept then {order[k]} else {};
    assert SeedsBefore(order, k + 1, kept, q) == SeedsBefore(order, k, kept, q) + added;
  }

  lemma AllListed(order: seq<NodeId>, kept: seq<NodeId>, q: Query)
    requires forall id :: id in kept ==> id in order
    ensures forall id :: id in kept ==> Listed(order, |order|, id)
    ensures SeedsBefore(order, |order|, kept, q) == set id | id in kept && q.matches(id) > 0
  {
    forall id | id in kept ensures Listed(order, |order|, id) {
      var j :| 0 <= j < |order| && order[j] == id;
    }
  }

  /** Unnormalised restart vector over the kept nodes, and how many of them matched. */
  method SeedVector(nodes: map<NodeId, NodeData>, order: seq<NodeId>, kept: seq<NodeId>, q: Query)
      returns (raw: seq<real>, seeds: nat)
    requires Distinct(order) && Distinct(kept) && forall id :: id in kept ==> id in order
    ensures raw == RawVector(nodes, q, kept)
    ensures seeds == |set id | id in kept && q.matches(id) > 0|
  {
    var p0 := new real[|kept|](_ => 0.0);
    seeds := 0;
    for k := 0 to |order|
      invariant forall i :: 0 <= i < |kept| ==> p0[i] == FilledScore(nodes, q, order, k, kept[i])
      invariant seeds == |SeedsBefore(order, k, kept, q)|
    {
      var id := order[k];
      ListedNext(order, k);
      SeedsNext(order, k, kept, q);
      if q.matches(id) > 0 && id in kept {
        var i, score := IndexOf(kept, id), RawScore(nodes, q, id);
        p0[i] := score;
        seeds := seeds + 1;
      } else {
        assert id in kept ==> RawScore(nodes, q, id) == 0.0;
      }
    }
    AllListed(order, kept, q);
    raw := p0[..];
  }

  method BuildAdjacency(kept: seq<NodeId>, edges: seq<Edge>) returns (adj: Adjacency)
    requires Distinct(kept)
    ensures adj == AdjacencyOf(kept, edges)
  {
    adj := seq(|kept|, _ => []);
    for k := 0 to |edges|
      invariant |adj| == |kept|
      invariant forall u :: 0 <= u < |kept| ==> adj[u] == Neighbours(kept, edges, k, u)
    {
      var e := edges[k];
      if e.source in kept && e.target in kept {
        var u, v := IndexOf(kept, e.source), IndexOf(kept, e.target);
        adj := adj[u := adj[u] + [v]];
        adj := adj[v := adj[v] + [u]];
      }
    }
  }

  /** amount, added `times` times over. */
  ghost function Repeated(amount: real, times: nat): real {
    if times == 0 then 0.0 else Repeated(amount, times - 1) + amount
  }

  lemma {:induction false} RepeatedIsProduct(amount: real, times: nat)
    ensures Repeated(amount, times) == amount * times as real
  {
    if times > 0 { RepeatedIsProduct(amount, times - 1); }
  }

  /** The inner loop: every neighbour entry receives the same amount. */
  method Scatter(buffer: array<real>, neighbours: seq<nat>, amount: real)
    requires forall k :: 0 <= k < |neighbours| ==> neighbours[k] < buffer.Length
    modifies buffer
    ensures forall v :: 0 <= v < buffer.Length ==>
      buffer[v] == old(buffer[v]) + Repeated(amount, Occurs(neighbours, |neighbours|, v))
  {
    for k := 0 to |neighbours|
      invariant forall v :: 0 <= v < buffer.Length ==>
        buffer[v] == old(buffer[v]) + Repeated(amount, Occurs(neighbours, k, v))
    {
      buffer[neighbours[k]] := buffer[neighbours[k]] + amount;
    }
  }

  /** (1-alpha) times what node v has received from the first u nodes. */
  ghost function Damped(adj: Adjacency, p: seq<real>, alpha: real, u: nat, v: int): real {
    (1.0 - alpha) * Sum(Inflow(KernelOf(adj), |adj|, Entries(p), v), u)
  }

  lemma DampedNext(adj: Adjacency, p: seq<real>, alpha: real, u: nat, v: nat, amount: real)
    requires u < |adj| == |p| && v < |adj|
    requires amount == (1.0 - alpha) * if adj[u] != [] then p[u] / |adj[u]| as real else p[u]
    ensures Damped(adj, p, alpha, u + 1, v) == Damped(adj, p, alpha, u, v) +
      if adj[u] != [] then Repeated(amount, Occurs(adj[u], |adj[u]|, v))
      else if u == v then amount else 0.0
  {
    var inflow := Inflow(KernelOf(adj), |adj|, Entries(p), v);
    assert inflow(u) == p[u] * Share(adj, u, v);
    Distribute(1.0 - alpha, Sum(inflow, u), inflow(u));
    ScatteredAmount(adj, p[u], 1.0 - alpha, u, v, amount);
  }

  lemma ScatteredAmount(adj: Adjacency, mass: real, beta: real, u: nat, v: nat, amount: real)
    requires u < |adj| && amount == beta * if adj[u] != [] then mass / |adj[u]| as real else mass
    ensures beta * (mass * Share(adj, u, v)) ==
      if adj[u] != [] then Repeated(amount, Occurs(adj[u], |adj[u]|, v))
      else if u == v then amount else 0.0
  {
    if adj[u] != [] {
      var c := Occurs(adj[u], |adj[u]|, v);
      ScatterShare(beta, mass, c as real, |adj[u]| as real);
      RepeatedIsProduct(amount, c);
    }
  }

  lemma ScatterShare(beta: real, x: real, c: real, d: real)
    requires d != 0.0
    ensures beta * (x * (c / d)) == beta * (x / d) * c
  {
    assert x * (c / d) == x * c / d == (x / d) * c;
    assert beta * ((x / d) * c) == beta * (x / d) * c;
  }

  method AddRestart(buffer: array<real>, p0: seq<real>, alpha: real)
    requires |p0| == buffer.Length
    modifies buffer
    ensures forall v :: 0 <= v < buffer.Length ==> buffer[v] == old(buffer[v]) + alpha * p0[v]
  {
    for i := 0 to buffer.Length
      invariant forall v :: 0 <= v < i ==> buffer[v] == old(buffer[v]) + alpha * p0[v]
      invariant forall v :: i <= v < buffer.Length ==> buffer[v] == old(buffer[v])
    {
      buffer[i] := buffer[i] + alpha * p0[i];
    }
  }

  /** One source row of the double loop. */
  method SpreadRow(buffer: array<real>, adj: Adjacency, p: seq<real>, alpha: real, u: nat)
    requires WellFormed(adj) && u < |adj| == |p| == buffer.Length
    requires forall v :: 0 <= v < |adj| ==> buffer[v] == Damped(adj, p, alpha, u, v)
    modifies buffer
    ensures forall v :: 0 <= v < |adj| ==> buffer[v] == Damped(adj, p, alpha, u + 1, v)
  {
    ghost var before := buffer[..];
    if adj[u] != [] {
      var outWeight := p[u] / |adj[u]| as real;
      var amount := (1.0 - alpha) * outWeight;
      Scatter(buffer, adj[u], amount);
      forall v | 0 <= v < |adj| ensures buffer[v] == Damped(adj, p, alpha, u + 1, v) {
        DampedNext(adj, p, alpha, u, v, amount);
        assert before[v] == Damped(adj, p, alpha, u, v);
      }
    } else {
      var amount := (1.0 - alpha) * p[u];
      buffer[u] := buffer[u] + amount;
      forall v | 0 <= v < |adj| ensures buffer[v] == Damped(adj, p, alpha, u + 1, v) {
        DampedNext(adj, p, alpha, u, v, amount);
        assert before[v] == Damped(adj, p, alpha, u, v);
      }
    }
  }

  /** The body of the power iteration, filling a fresh buffer. */
  method SpreadOnce(adj: Adjacency, p0: seq<real>, p: seq<real>, alpha: real) returns (next: seq<real>)
    requires WellFormed(adj) && |p0| == |p| == |adj|
    ensures next == Step(KernelOf(adj), |adj|, p0, p, alpha)
  {
    var buffer := new real[|adj|](_ => 0.0);
    for u := 0 to |adj|
      invariant forall v :: 0 <= v < |adj| ==> buffer[v] == Damped(adj, p, alpha, u, v)
    {
      SpreadRow(buffer, adj, p, alpha, u);
    }
    ghost var spread := buffer[..];
    AddRestart(buffer, p0, alpha);
    next := buffer[..];
    forall v | 0 <= v < |adj| ensures next[v] == Step(KernelOf(adj), |adj|, p0, p, alpha)[v] {
      assert spread[v] == Damped(adj, p, alpha, |adj|, v);
      StepEntry(KernelOf(adj), |adj|, p0, p, alpha, v);
    }
  }

  method L1Difference(p: seq<real>, next: seq<real>) returns (diff: real)
    requires |p| == |next|
    ensures diff == Distance(p, next)
  {
    diff := 0.0;
    for i := 0 to |p|
      invariant diff == Sum(Gap(p, next), i)
    {
      diff := diff + Abs(next[i] - p[i]);
    }
  }

  method PowerIteration(adj: Adjacency, p0: seq<real>, alpha: real, maxIterations: nat)
      returns (p: seq<real>, iterations: nat)
    requires WellFormed(adj) && |p0| == |adj|
    ensures StopsAt(KernelOf(adj), |adj|, p0, alpha, maxIterations, iterations)
    ensures p == Iterate(KernelOf(adj), |adj|, p0, alpha, iterations)
    ensures alpha == 0.5 && Distribution(p0) && maxIterations >= 18 ==> iterations <= 18
  {
    p, iterations := p0, 0;
    var diff := TOLERANCE;
    while iterations < maxIterations && diff >= TOLERANCE
      invariant iterations <= maxIterations && |p| == |adj|
      invariant p == Iterate(KernelOf(adj), |adj|, p0, alpha, iterations)
      invariant iterations == 0 ==> diff == TOLERANCE
      invariant iterations > 0 ==> diff == Moved(KernelOf(adj), |adj|, p0, alpha, iterations)
      invariant forall j :: 0 < j < iterations ==> Moved(KernelOf(adj), |adj|, p0, alpha, j) >= TOLERANCE
    {
      var next := SpreadOnce(adj, p0, p, alpha);
      diff := L1Difference(p, next);
      p, iterations := next, iterations + 1;
    }
    if alpha == 0.5 && maxIterations >= 18 && Distribution(p0) {
      DefaultsStopEarly(adj, p0, maxIterations, iterations);
    }
  }

  // ----- the whole recall

  function Restart(nodes: map<NodeId, NodeData>, kept: seq<NodeId>, q: Query): seq<real>
    requires kept != []
  {
    Normalise(RawVector(nodes, q, kept))
  }

  function Scores(nodes: map<NodeId, NodeData>, kept: seq<NodeId>, edges: seq<Edge>, q: Query, alpha: real, k: nat): seq<real>
    requires kept != []
  {
    Iterate(KernelOf(AdjacencyOf(kept, edges)), |kept|, Restart(nodes, kept, q), alpha, k)
  }

  /** What a recall says: how many kept nodes matched, how many were kept, and the best memories
      under the scores of its last iteration. */
  ghost predicate IsRecall(nodes: map<NodeId, NodeData>, kept: seq<NodeId>, edges: seq<Edge>, q: Query, topK: nat,
                           alpha: real, maxIterations: nat, r: Recall, iterations: nat)
    requires kept != []
  {
    var adj, p := AdjacencyOf(kept, edges), Scores(nodes, kept, edges, q, alpha, iterations);
    && StopsAt(KernelOf(adj), |kept|, Restart(nodes, kept, q), alpha, maxIterations, iterations)
    && r.Recalled? && r.seeds == |KeptSeeds(kept, q)| && r.total == |kept| == |p|
    && exists places :: ListsTop(nodes, kept, adj, p, q, topK, r.ranked, places)
  }

  ghost function KeptSeeds(kept: seq<NodeId>, q: Query): set<NodeId> {
    set id | id in kept && q.matches(id) > 0
  }

  /** id is joined to a matching node by at most k stored edges between kept nodes. */
  ghost predicate EdgeHops(kept: seq<NodeId>, edges: seq<Edge>, q: Query, k: nat, id: NodeId) {
    exists trail :: && EdgeTrail(trail, edges, KeptSeeds(kept, q), id) && |trail| <= k + 1
                    && (forall i :: 0 <= i < |trail| ==> trail[i] in kept)
  }

  lemma {:induction false} LinksPositive(edges: seq<Edge>, k: nat, a: NodeId, b: NodeId)
    requires k <= |edges|
    ensures Links(edges, k, a, b) > 0 <==> Edge(a, b) in edges[..k] || Edge(b, a) in edges[..k]
  {
    if k > 0 {
      LinksPositive(edges, k - 1, a, b);
      assert edges[..k] == edges[..k - 1] + [edges[k - 1]];
    }
  }

  lemma AdjacentMeansEdge(kept: seq<NodeId>, edges: seq<Edge>, u: nat, v: nat)
    requires Distinct(kept) && u < |kept| && v < |kept|
    ensures Adjacent(AdjacencyOf(kept, edges), u, v)
       <==> Edge(kept[u], kept[v]) in edges || Edge(kept[v], kept[u]) in edges
  {
    var s := AdjacencyOf(kept, edges)[u];
    AdjacencyCountsLinks(kept, edges, u, v);
    OccursPositive(s, |s|, v);
    assert s[..|s|] == s && edges[..|edges|] == edges;
    LinksPositive(edges, |edges|, kept[u], kept[v]);
  }

  lemma RestartPositive(nodes: map<NodeId, NodeData>, kept: seq<NodeId>, q: Query)
    requires kept != [] && forall id :: id in kept ==> id in nodes
    ensures |Restart(nodes, kept, q)| == |kept| && Distribution(Restart(nodes, kept, q))
    ensures KeptSeeds(kept, q) != {} ==>
      forall i :: 0 <= i < |kept| ==> (Restart(nodes, kept, q)[i] > 0.0 <==> kept[i] in KeptSeeds(kept, q))
  {
    var raw := RawVector(nodes, q, kept);
    forall i | 0 <= i < |raw| ensures raw[i] >= 0.0 && (raw[i] > 0.0 <==> kept[i] in KeptSeeds(kept, q)) {
      RawScoreNonnegative(nodes, q, kept[i]);
    }
    NormaliseIsDistribution(raw);
    if KeptSeeds(kept, q) != {} {
      var s :| s in KeptSeeds(kept, q);
      assert raw[IndexOf(kept, s)] > 0.0;
    }
  }

  predicate Suspicious(data: NodeData) { data.quarantined || data.trustScore < 0.8 }

  /** A quarantined or little trusted node gets a fifth of the restart weight of a trusted node
      that matches as many query terms. */
  lemma QuarantineDamps(nodes: map<NodeId, NodeData>, kept: seq<NodeId>, q: Query, i: nat, j: nat)
    requires i < |kept| && j < |kept| && forall id :: id in kept ==> id in nodes
    requires Suspicious(nodes[kept[i]]) && !Suspicious(nodes[kept[j]])
    requires q.matches(kept[i]) == q.matches(kept[j]) > 0
    ensures Restart(nodes, kept, q)[j] == 5.0 * Restart(nodes, kept, q)[i] > 0.0
  {
    var raw := RawVector(nodes, q, kept);
    RestartPositive(nodes, kept, q);
    assert kept[j] in KeptSeeds(kept, q);
    forall k | 0 <= k < |raw| ensures raw[k] >= 0.0 { RawScoreNonnegative(nodes, q, kept[k]); }
    SumAtLeastTerm(Entries(raw), j, |raw|);
    FiveTimes(raw[i], raw[j], Mass(raw));
  }

  /** How much a node counts for the restart. */
  function Merit(nodes: map<NodeId, NodeData>, q: Query, id: NodeId): real
    requires id in nodes
  {
    q.matches(id) as real * if Suspicious(nodes[id]) then 0.2 else 1.0
  }

  function Merits(nodes: map<NodeId, NodeData>, q: Query, kept: seq<NodeId>): seq<real>
    requires forall id :: id in kept ==> id in nodes
  {
    seq(|kept|, i requires 0 <= i < |kept| => Merit(nodes, q, kept[i]))
  }

  /** Each kept node's share of all merit is its restart weight; when nothing kept matches, all
      restart weights are the same. */
  lemma RestartByMerit(nodes: map<NodeId, NodeData>, kept: seq<NodeId>, q: Query, i: nat)
    requires i < |kept| && forall id :: id in kept ==> id in nodes
    ensures |Restart(nodes, kept, q)| == |kept|
    ensures if KeptSeeds(kept, q) != {}
            then Mass(Merits(nodes, q, kept)) > 0.0 &&
                 Restart(nodes, kept, q)[i] == Merit(nodes, q, kept[i]) / Mass(Merits(nodes, q, kept))
            else Restart(nodes, kept, q)[i] == 1.0 / |kept| as real
  {
    var raw := RawVector(nodes, q, kept);
    assert raw == Merits(nodes, q, kept);
    forall k | 0 <= k < |raw| ensures raw[k] >= 0.0 && (raw[k] > 0.0 <==> kept[k] in KeptSeeds(kept, q)) {
      RawScoreNonnegative(nodes, q, kept[k]);
    }
    if KeptSeeds(kept, q) != {} {
      var s :| s in KeptSeeds(kept, q);
      SumAtLeastTerm(Entries(raw), IndexOf(kept, s), |raw|);
    } else {
      SumZero(Entries(raw), |raw|);
    }
  }

  lemma FiveTimes(x: real, y: real, d: real)
    requires d > 0.0 && y == 5.0 * x
    ensures y / d == 5.0 * (x / d)
  {
    QuotientIs(x / d, x, d);
    QuotientIs(5.0 * (x / d), y, d);
  }

  /** The scores of a recall form a probability vector that leaves every node its alpha
      share of the restart weight. */
  lemma RecallIsDistribution(nodes: map<NodeId, NodeData>, kept: seq<NodeId>, edges: seq<Edge>, q: Query, alpha: real, k: nat)
    requires kept != [] && (forall id :: id in kept ==> id in nodes) && 0.0 <= alpha <= 1.0
    ensures |Scores(nodes, kept, edges, q, alpha, k)| == |kept| == |Restart(nodes, kept, q)|
    ensures Distribution(Scores(nodes, kept, edges, q, alpha, k))
    ensures forall i :: 0 <= i < |kept| ==>
      Scores(nodes, kept, edges, q, alpha, k)[i] >= alpha * Restart(nodes, kept, q)[i]
  {
    RestartPositive(nodes, kept, q);
    AdjacencyWellFormed(kept, edges);
    KernelIsStochastic(AdjacencyOf(kept, edges));
    IterateIsDistribution(KernelOf(AdjacencyOf(kept, edges)), |kept|, Restart(nodes, kept, q), alpha, k);
  }

  /** Reach, in the graph's own terms: once a kept node matches the query, node i scores above
      zero after k iterations exactly when at most k stored edges lead to it from a matching
      node; otherwise its score is zero. */
  lemma RecallReach(nodes: map<NodeId, NodeData>, kept: seq<NodeId>, edges: seq<Edge>, q: Query, alpha: real, k: nat, i: nat)
    requires kept != [] && Distinct(kept) && (forall id :: id in kept ==> id in nodes) && 0.0 < alpha < 1.0
    requires KeptSeeds(kept, q) != {} && i < |kept|
    ensures At(Scores(nodes, kept, edges, q, alpha, k), i) >= 0.0
    ensures At(Scores(nodes, kept, edges, q, alpha, k), i) > 0.0 <==> EdgeHops(kept, edges, q, k, kept[i])
  {
    RestartPositive(nodes, kept, q);
    AdjacencyWellFormed(kept, edges);
    HopLocality(AdjacencyOf(kept, edges), Restart(nodes, kept, q), alpha, k, i);
    HopsAreEdgeHops(nodes, kept, edges, q, k, i);
  }

  /** With positive weights, whatever is listed before a node within reach of a match, or instead of
      it, is within reach too. */
  lemma ReachLeads(nodes: map<NodeId, NodeData>, kept: seq<NodeId>, edges: seq<Edge>, q: Query, topK: nat, alpha: real,
      maxIterations: nat, r: Recall, iterations: nat, a: nat, id: NodeId)
    requires kept != [] && Distinct(kept) && (forall x :: x in kept ==> x in nodes) && 0.0 < alpha < 1.0
    requires KeptSeeds(kept, q) != {} && forall x :: x in kept ==> q.weight(x) > 0.0
    requires IsRecall(nodes, kept, edges, q, topK, alpha, maxIterations, r, iterations)
    requires id in kept && EdgeHops(kept, edges, q, iterations, id)
    requires a < |r.ranked| && forall c :: 0 <= c <= a ==> r.ranked[c].id != id
    ensures r.ranked[a].id in kept && EdgeHops(kept, edges, q, iterations, r.ranked[a].id)
  {
    var adj, p := AdjacencyOf(kept, edges), Scores(nodes, kept, edges, q, alpha, iterations);
    var places :| ListsTop(nodes, kept, adj, p, q, topK, r.ranked, places);
    var i, j := places[a], IndexOf(kept, id);
    Outranks(nodes, kept, adj, p, q, topK, r.ranked, places, a, j);
    RecallReach(nodes, kept, edges, q, alpha, iterations, i);
    RecallReach(nodes, kept, edges, q, alpha, iterations, j);
    BeatsPositive(kept, p, q, i, j);
  }

  lemma BeatsPositive(kept: seq<NodeId>, p: seq<real>, q: Query, i: nat, j: nat)
    requires i < |kept| == |p| && j < |kept| && Beats(kept, p, q, i, j)
    requires p[i] >= 0.0 && p[j] > 0.0 && q.weight(kept[j]) > 0.0
    ensures p[i] > 0.0
  {
    PositiveFactor(p[i], q.weight(kept[i]), p[j], q.weight(kept[j]));
  }

  lemma Outranks(nodes: map<NodeId, NodeData>, kept: seq<NodeId>, adj: Adjacency, p: seq<real>, q: Query,
      topK: nat, ranked: seq<Memory>, places: seq<nat>, a: nat, j: nat)
    requires |adj| == |kept| == |p| && ListsTop(nodes, kept, adj, p, q, topK, ranked, places)
    requires a < |ranked| && j < |kept| && forall c :: 0 <= c <= a ==> ranked[c].id != kept[j]
    ensures Beats(kept, p, q, places[a], j)
  {
    if j in places {
      var c :| 0 <= c < |places| && places[c] == j;
      assert Recalls(nodes, kept, adj, p, q, ranked[c], places[c]);
    }
  }

  lemma PositiveFactor(x: real, v: real, y: real, w: real)
    requires x >= 0.0 && y > 0.0 && w > 0.0 && x * v >= y * w
    ensures x > 0.0
  {
    ProductPositive(y, w, y * w);
    ZeroFactor(x, v);
  }

  lemma ZeroFactor(x: real, v: real)
    ensures x == 0.0 ==> x * v == 0.0
  {}

  lemma HopsAreEdgeHops(nodes: map<NodeId, NodeData>, kept: seq<NodeId>, edges: seq<Edge>, q: Query, k: nat, v: nat)
    requires kept != [] && Distinct(kept) && (forall id :: id in kept ==> id in nodes) && v < |kept|
    requires KeptSeeds(kept, q) != {} && |Restart(nodes, kept, q)| == |kept|
    ensures WithinHops(AdjacencyOf(kept, edges), Restart(nodes, kept, q), k, v) <==> EdgeHops(kept, edges, q, k, kept[v])
  {
    var adj, p0 := AdjacencyOf(kept, edges), Restart(nodes, kept, q);
    RestartPositive(nodes, kept, q);
    if WithinHops(adj, p0, k, v) {
      var path :| HopPath(adj, p0, path, v) && |path| <= k + 1;
      HopPathIsTrail(kept, edges, q, p0, path, v);
    }
    if EdgeHops(kept, edges, q, k, kept[v]) {
      var trail :| && EdgeTrail(trail, edges, KeptSeeds(kept, q), kept[v]) && |trail| <= k + 1
                   && (forall i :: 0 <= i < |trail| ==> trail[i] in kept);
      TrailIsHopPath(kept, edges, q, p0, trail, v);
    }
  }

  ghost predicate RestartAtSeeds(kept: seq<NodeId>, q: Query, p0: seq<real>) {
    |p0| == |kept| && forall i :: 0 <= i < |kept| ==> (p0[i] > 0.0 <==> kept[i] in KeptSeeds(kept, q))
  }

  lemma HopPathIsTrail(kept: seq<NodeId>, edges: seq<Edge>, q: Query, p0: seq<real>, path: seq<nat>, v: nat)
    requires Distinct(kept) && RestartAtSeeds(kept, q, p0) && v < |kept|
    requires HopPath(AdjacencyOf(kept, edges), p0, path, v)
    ensures EdgeHops(kept, edges, q, |path| - 1, kept[v])
  {
    var adj := AdjacencyOf(kept, edges);
    forall i | 0 <= i < |path| ensures path[i] < |kept| {
      assert i < |path| - 1 ==> Adjacent(adj, path[i], path[i + 1]);
    }
    var trail := seq(|path|, i requires 0 <= i < |path| => kept[path[i]]);
    forall i | 0 <= i < |trail| - 1
      ensures Edge(trail[i], trail[i + 1]) in edges || Edge(trail[i + 1], trail[i]) in edges
    {
      assert Adjacent(adj, path[i], path[i + 1]);
      AdjacentMeansEdge(kept, edges, path[i], path[i + 1]);
    }
    assert EdgeTrail(trail, edges, KeptSeeds(kept, q), kept[v]);
  }

  lemma TrailIsHopPath(kept: seq<NodeId>, edges: seq<Edge>, q: Query, p0: seq<real>, trail: seq<NodeId>, v: nat)
    requires Distinct(kept) && RestartAtSeeds(kept, q, p0) && v < |kept|
    requires EdgeTrail(trail, edges, KeptSeeds(kept, q), kept[v]) && forall i :: 0 <= i < |trail| ==> trail[i] in kept
    ensures WithinHops(AdjacencyOf(kept, edges), p0, |trail| - 1, v)
  {
    var adj := AdjacencyOf(kept, edges);
    var path := seq(|trail|, i requires 0 <= i < |trail| => IndexOf(kept, trail[i]));
    forall i | 0 <= i < |path| - 1 ensures Adjacent(adj, path[i], path[i + 1]) {
      AdjacentMeansEdge(kept, edges, path[i], path[i + 1]);
    }
    assert HopPath(adj, p0, path, v);
  }

  method KeepNodes(order: seq<NodeId>, edges: seq<Edge>, q: Query, bound: nat) returns (kept: seq<NodeId>)
    ensures kept == Kept(order, edges, q, bound)
  {
    kept := order;
    var seeds := Seeds(order, q);
    if |order| > bound && seeds != {} {
      var active := ExpandActive(seeds, edges, bound);
      kept := Prefix(Inside(order, active), bound);
    }
  }

  class Engine {
    var order: seq<NodeId>            // insertion order of the node dictionary
    var nodes: map<NodeId, NodeData>
    var edges: seq<Edge>

    ghost predicate Valid()
      reads this
    {
      Distinct(order) && (forall id :: id in order <==> id in nodes)
    }

    constructor ()
      ensures Valid() && order == [] && nodes == map[] && edges == []
    {
      order, nodes, edges := [], map[], [];
    }

    method AddNode(id: NodeId, data: NodeData)
      requires Valid()
      modifies this
      ensures Valid()
      ensures nodes == old(nodes)[id := data] && edges == old(edges)
      ensures order == if id in old(nodes) then old(order) else old(order) + [id]
    {
      if id !in nodes { order := order + [id]; }
      nodes := nodes[id := data];
    }

    method AddEdge(source: NodeId, target: NodeId)
      requires Valid()
      modifies this`edges
      ensures Valid() && edges == old(edges) + [Edge(source, target)]
    {
      edges := edges + [Edge(source, target)];
    }

    method RemoveNode(id: NodeId)
      requires Valid()
      modifies this
      ensures Valid()
      ensures nodes == old(nodes) - {id}
      ensures order == Filter(old(order), x => x != id)
      ensures edges == Without(old(edges), id)
    {
      FilterSubsequence(order, x => x != id);
      order := Filter(order, x => x != id);
      nodes := nodes - {id};
      edges := Without(edges, id);
    }

    /** Recall never changes the graph. It fails only when the bound leaves no node at all. */
    method AssociativeRecall(q: Query, topK: nat, alpha: real, maxIterations: nat, maxNodes: nat)
        returns (r: Recall, iterations: nat)
      requires Valid()
      ensures order == [] ==> r == Recalled(0, 0, [])
      ensures order != [] ==> (r == DivisionByZero <==> maxNodes == 0 && Seeds(order, q) != {})
      ensures order != [] && r.Recalled? ==>
        var kept := Kept(order, edges, q, maxNodes);
        kept != [] && IsRecall(nodes, kept, edges, q, topK, alpha, maxIterations, r, iterations)
    {
      iterations := 0;
      if order == [] { return Recalled(0, 0, []), 0; }
      var kept := KeepNodes(order, edges, q, maxNodes);
      KeptNodes(order, edges, q, maxNodes);
      if kept == [] { return DivisionByZero, 0; }
      var raw, seeds := SeedVector(nodes, order, kept, q);
      var p0 := Normalise(raw);
      var adj := BuildAdjacency(kept, edges);
      AdjacencyWellFormed(kept, edges);
      var p;
      p, iterations := PowerIteration(adj, p0, alpha, maxIterations);
      IterateLength(KernelOf(adj), |adj|, p0, alpha, iterations);
      ghost var places := RankingListsTop(nodes, kept, adj, p, q, topK);
      r := Recalled(seeds, |kept|, Ranking(Scored(nodes, kept, adj, p, q), topK));
    }
  }
}
