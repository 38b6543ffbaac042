/** The pass over the edge list that bounds a large graph around its matching nodes, and which
    nodes it reaches: those at the end of a trail whose edges stand in the list in rising order. */
module Expansion {
  type NodeId = string

  datatype Edge = Edge(source: NodeId, target: NodeId)

  function Touch(active: set<NodeId>, e: Edge): set<NodeId> {
    if e.source in active || e.target in active then active + {e.source, e.target} else active
  }

  /** The active set after one pass over the edges from position k, stopping at the bound. */
  function Expand(active: set<NodeId>, edges: seq<Edge>, k: nat, bound: nat): set<NodeId>
    requires k <= |edges|
    decreases |edges| - k
  {
    if k == |edges| then active
    else
      var next := Touch(active, edges[k]);
      if |next| >= bound then next else Expand(next, edges, k + 1, bound)
  }

  method ExpandActive(seeds: set<NodeId>, edges: seq<Edge>, bound: nat) returns (active: set<NodeId>)
    ensures active == Expand(seeds, edges, 0, bound)
  {
    active := seeds;
    for k := 0 to |edges|
      invariant Expand(seeds, edges, 0, bound) == Expand(active, edges, k, bound)
    {
      var e := edges[k];
      ghost var before := active;
      if e.source in active || e.target in active {
        active := active + {e.source};
        active := active + {e.target};
      }
      assert active == Touch(before, e);
      if |active| >= bound { return; }
    }
  }

  // ----- trails

  lemma {:induction false} ExpandGrows(active: set<NodeId>, edges: seq<Edge>, k: nat, bound: nat)
    requires k <= |edges|
    ensures active <= Expand(active, edges, k, bound)
    decreases |edges| - k
  {
    if k < |edges| && |Touch(active, edges[k])| < bound {
      ExpandGrows(Touch(active, edges[k]), edges, k + 1, bound);
    }
  }

  /** trail starts at a seed, ends at id, and every two neighbours share a stored edge. */
  ghost predicate EdgeTrail(trail: seq<NodeId>, edges: seq<Edge>, seeds: set<NodeId>, id: NodeId) {
    && |trail| > 0 && trail[0] in seeds && trail[|trail| - 1] == id
    && (forall i :: 0 <= i < |trail| - 1 ==>
          Edge(trail[i], trail[i + 1]) in edges || Edge(trail[i + 1], trail[i]) in edges)
  }

  ghost predicate Connected(edges: seq<Edge>, seeds: set<NodeId>, id: NodeId) {
    exists trail :: EdgeTrail(trail, edges, seeds, id)
  }

  lemma ConnectedStep(edges: seq<Edge>, seeds: set<NodeId>, a: NodeId, b: NodeId)
    requires Connected(edges, seeds, a) && (Edge(a, b) in edges || Edge(b, a) in edges)
    ensures Connected(edges, seeds, b)
  {
    var trail :| EdgeTrail(trail, edges, seeds, a);
    assert EdgeTrail(trail + [b], edges, seeds, b);
  }

  /** Expansion admits nothing that is not connected to a seed. */
  lemma {:induction false} ExpandConnected(active: set<NodeId>, edges: seq<Edge>, k: nat, bound: nat, seeds: set<NodeId>)
    requires k <= |edges| && forall id :: id in active ==> Connected(edges, seeds, id)
    ensures forall id :: id in Expand(active, edges, k, bound) ==> Connected(edges, seeds, id)
    decreases |edges| - k
  {
    if k < |edges| {
      var e, next := edges[k], Touch(active, edges[k]);
      assert e == Edge(e.source, e.target) && e in edges;
      forall id | id in next ensures Connected(edges, seeds, id) {
        if id !in active {
          ConnectedStep(edges, seeds, if e.source in active then e.source else e.target, id);
        }
      }
      ExpandConnected(next, edges, k + 1, bound, seeds);
    }
  }

  // ----- which nodes the pass reaches

  /** The active set after the first k edges, were there no bound. */
  function ActiveAfter(seeds: set<NodeId>, edges: seq<Edge>, k: nat): set<NodeId>
    requires k <= |edges|
  {
    if k == 0 then seeds else Touch(ActiveAfter(seeds, edges, k - 1), edges[k - 1])
  }

  /** The pass stops after k edges: at the first that brings the set to the bound, or at the end. */
  ghost predicate StopsAfter(seeds: set<NodeId>, edges: seq<Edge>, bound: nat, k: nat) {
    && k <= |edges|
    && (k < |edges| ==> k > 0 && |ActiveAfter(seeds, edges, k)| >= bound)
    && (forall j :: 0 < j < k ==> |ActiveAfter(seeds, edges, j)| < bound)
  }

  function Stop(seeds: set<NodeId>, edges: seq<Edge>, bound: nat, k: nat): (stop: nat)
    requires k <= |edges|
    ensures k <= stop <= |edges|
    decreases |edges| - k
  {
    if k == |edges| then k
    else if |ActiveAfter(seeds, edges, k + 1)| >= bound then k + 1
    else Stop(seeds, edges, bound, k + 1)
  }

  lemma {:induction false} ExpandIsActive(seeds: set<NodeId>, edges: seq<Edge>, bound: nat, k: nat)
    requires k <= |edges| && forall j :: 0 < j <= k ==> |ActiveAfter(seeds, edges, j)| < bound
    ensures Expand(ActiveAfter(seeds, edges, k), edges, k, bound) ==
      ActiveAfter(seeds, edges, Stop(seeds, edges, bound, k))
    ensures StopsAfter(seeds, edges, bound, Stop(seeds, edges, bound, k))
    decreases |edges| - k
  {
    if k < |edges| && |ActiveAfter(seeds, edges, k + 1)| < bound {
      ExpandIsActive(seeds, edges, bound, k + 1);
    }
  }

  predicate Joins(e: Edge, a: NodeId, b: NodeId) { e == Edge(a, b) || e == Edge(b, a) }

  /** trail leads from a seed to id along the edges at the positions `at`, which rise and stay below k. */
  ghost predicate RisingTrail(trail: seq<NodeId>, at: seq<nat>, edges: seq<Edge>, seeds: set<NodeId>, k: nat, id: NodeId) {
    && |trail| == |at| + 1 && trail[0] in seeds && trail[|at|] == id
    && (forall i :: 0 <= i < |at| ==> at[i] < k && at[i] < |edges| && Joins(edges[at[i]], trail[i], trail[i + 1]))
    && (forall i, j :: 0 <= i < j < |at| ==> at[i] < at[j])
  }

  ghost predicate Rises(edges: seq<Edge>, seeds: set<NodeId>, k: nat, id: NodeId) {
    exists trail, at :: RisingTrail(trail, at, edges, seeds, k, id)
  }

  lemma RisesStart(edges: seq<Edge>, seeds: set<NodeId>, k: nat, id: NodeId)
    requires id in seeds
    ensures Rises(edges, seeds, k, id)
  {
    assert RisingTrail([id], [], edges, seeds, k, id);
  }

  lemma RisesLater(edges: seq<Edge>, seeds: set<NodeId>, j: nat, k: nat, id: NodeId)
    requires Rises(edges, seeds, j, id) && j <= k
    ensures Rises(edges, seeds, k, id)
  {
    var trail, at :| RisingTrail(trail, at, edges, seeds, j, id);
    assert RisingTrail(trail, at, edges, seeds, k, id);
  }

  lemma RisesOn(edges: seq<Edge>, seeds: set<NodeId>, p: nat, a: NodeId, b: NodeId)
    requires p < |edges| && Joins(edges[p], a, b) && Rises(edges, seeds, p, a)
    ensures Rises(edges, seeds, p + 1, b)
  {
    var trail, at :| RisingTrail(trail, at, edges, seeds, p, a);
    assert RisingTrail(trail + [b], at + [p], edges, seeds, p + 1, b);
  }

  lemma {:induction false} ActiveRises(seeds: set<NodeId>, edges: seq<Edge>, k: nat, id: NodeId)
    requires k <= |edges| && id in ActiveAfter(seeds, edges, k)
    ensures Rises(edges, seeds, k, id)
  {
    if k == 0 {
      RisesStart(edges, seeds, 0, id);
    } else if id in ActiveAfter(seeds, edges, k - 1) {
      ActiveRises(seeds, edges, k - 1, id);
      RisesLater(edges, seeds, k - 1, k, id);
    } else {
      var e := edges[k - 1];
      var other := if id == e.source then e.target else e.source;
      ActiveRises(seeds, edges, k - 1, other);
      assert Joins(e, other, id);
      RisesOn(edges, seeds, k - 1, other, id);
    }
  }

  lemma {:induction false} ActiveGrows(seeds: set<NodeId>, edges: seq<Edge>, j: nat, k: nat)
    requires j <= k <= |edges|
    ensures ActiveAfter(seeds, edges, j) <= ActiveAfter(seeds, edges, k)
  {
    if j < k { ActiveGrows(seeds, edges, j, k - 1); }
  }

  lemma {:induction false} RisesActive(seeds: set<NodeId>, edges: seq<Edge>, k: nat, id: NodeId, trail: seq<NodeId>, at: seq<nat>)
    requires k <= |edges| && RisingTrail(trail, at, edges, seeds, k, id)
    ensures id in ActiveAfter(seeds, edges, k)
    decreases |at|
  {
    if at == [] {
      ActiveGrows(seeds, edges, 0, k);
    } else {
      var m := |at| - 1;
      var p, before := at[m], trail[m];
      assert Joins(edges[p], trail[m], trail[m + 1]);
      assert RisingTrail(trail[..m + 1], at[..m], edges, seeds, p, before);
      RisesActive(seeds, edges, p, before, trail[..m + 1], at[..m]);
      ActiveGrows(seeds, edges, p + 1, k);
    }
  }

  lemma ActiveExactly(seeds: set<NodeId>, edges: seq<Edge>, k: nat, id: NodeId)
    requires k <= |edges|
    ensures id in ActiveAfter(seeds, edges, k) <==> Rises(edges, seeds, k, id)
  {
    if id in ActiveAfter(seeds, edges, k) { ActiveRises(seeds, edges, k, id); }
    if Rises(edges, seeds, k, id) {
      var trail, at :| RisingTrail(trail, at, edges, seeds, k, id);
      RisesActive(seeds, edges, k, id, trail, at);
    }
  }

  /** The pass reaches a node exactly when a trail of rising positions, all before the position at
      which it stops, leads there from a seed. */
  lemma ExpandExactly(seeds: set<NodeId>, edges: seq<Edge>, bound: nat, id: NodeId)
    ensures StopsAfter(seeds, edges, bound, Stop(seeds, edges, bound, 0))
    ensures id in Expand(seeds, edges, 0, bound) <==> Rises(edges, seeds, Stop(seeds, edges, bound, 0), id)
  {
    ExpandIsActive(seeds, edges, bound, 0);
    ActiveExactly(seeds, edges, Stop(seeds, edges, bound, 0), id);
  }

  // ----- two hops

  /** At most h edges, in any order, lead to id from a seed. */
  ghost predicate Near(edges: seq<Edge>, seeds: set<NodeId>, h: nat, id: NodeId) {
    exists trail :: EdgeTrail(trail, edges, seeds, id) && |trail| <= h + 1
  }

  /** The edge at p leaves the two-hop neighbourhood, and its inner end a is reached by a rising trail
      over edges in front of it. */
  ghost predicate LeavesAt(edges: seq<Edge>, seeds: set<NodeId>, p: nat, a: NodeId, b: NodeId) {
    && p < |edges| && Joins(edges[p], a, b)
    && Near(edges, seeds, 2, a) && !Near(edges, seeds, 2, b) && Rises(edges, seeds, p, a)
  }

  /** No edge before the stop leaves the two-hop neighbourhood after its inner end was reached. */
  ghost predicate KeepsInside(edges: seq<Edge>, seeds: set<NodeId>, stop: nat) {
    forall p, a, b :: 0 <= p < stop ==> !LeavesAt(edges, seeds, p, a, b)
  }

  lemma {:induction false} RisesInside(edges: seq<Edge>, seeds: set<NodeId>, stop: nat, k: nat, id: NodeId,
      trail: seq<NodeId>, at: seq<nat>)
    requires KeepsInside(edges, seeds, stop) && k <= stop && RisingTrail(trail, at, edges, seeds, k, id)
    ensures Near(edges, seeds, 2, id)
    decreases |at|
  {
    if at == [] {
      assert EdgeTrail([id], edges, seeds, id);
    } else {
      var m := |at| - 1;
      var p, before := at[m], trail[m];
      assert Joins(edges[p], trail[m], trail[m + 1]);
      assert RisingTrail(trail[..m + 1], at[..m], edges, seeds, p, before);
      RisesInside(edges, seeds, stop, p, before, trail[..m + 1], at[..m]);
      assert !LeavesAt(edges, seeds, p, before, id);
    }
  }

  /** When the pass is the two-hop expansion it is called, in that it stays within two hops. */
  lemma StaysWithinTwoHops(seeds: set<NodeId>, edges: seq<Edge>, bound: nat)
    ensures (forall id :: id in Expand(seeds, edges, 0, bound) ==> Near(edges, seeds, 2, id)) <==>
      KeepsInside(edges, seeds, Stop(seeds, edges, bound, 0))
  {
    var stop, reached := Stop(seeds, edges, bound, 0), Expand(seeds, edges, 0, bound);
    forall id ensures id in reached <==> Rises(edges, seeds, stop, id) { ExpandExactly(seeds, edges, bound, id); }
    if KeepsInside(edges, seeds, stop) {
      forall id | id in reached ensures Near(edges, seeds, 2, id) {
        var trail, at :| RisingTrail(trail, at, edges, seeds, stop, id);
        RisesInside(edges, seeds, stop, stop, id, trail, at);
      }
    } else {
      var p, a, b :| 0 <= p < stop && LeavesAt(edges, seeds, p, a, b);
      RisesOn(edges, seeds, p, a, b);
      RisesLater(edges, seeds, p + 1, stop, b);
    }
  }

  lemma SubsetSize(s: set<NodeId>, t: set<NodeId>)
    requires s <= t
    ensures |s| <= |t|
  {
    assert t == s + (t - s);
  }

  /** A bound that the whole pass stays under does not stop it. */
  lemma NeverStops(seeds: set<NodeId>, edges: seq<Edge>, bound: nat)
    requires bound > |ActiveAfter(seeds, edges, |edges|)|
    ensures Stop(seeds, edges, bound, 0) == |edges|
  {
    var stop := Stop(seeds, edges, bound, 0);
    ExpandIsActive(seeds, edges, bound, 0);
    ActiveGrows(seeds, edges, stop, |edges|);
    SubsetSize(ActiveAfter(seeds, edges, stop), ActiveAfter(seeds, edges, |edges|));
  }

  ghost predicate StaysNear(seeds: set<NodeId>, edges: seq<Edge>, bound: nat) {
    forall id :: id in Expand(seeds, edges, 0, bound) ==> Near(edges, seeds, 2, id)
  }

  /** The same for all bounds at once, in terms of the edge list and the seeds alone. */
  lemma StaysForEveryBound(seeds: set<NodeId>, edges: seq<Edge>)
    ensures (forall bound :: StaysNear(seeds, edges, bound)) <==> KeepsInside(edges, seeds, |edges|)
  {
    if KeepsInside(edges, seeds, |edges|) {
      forall bound ensures StaysNear(seeds, edges, bound) {
        StaysWithinTwoHops(seeds, edges, bound);
      }
    }
    if forall bound :: StaysNear(seeds, edges, bound) {
      var bound := |ActiveAfter(seeds, edges, |edges|)| + 1;
      NeverStops(seeds, edges, bound);
      assert StaysNear(seeds, edges, bound);
      StaysWithinTwoHops(seeds, edges, bound);
    }
  }

  /** Three edges at rising positions that continue one another from a seed on. */
  ghost predicate RisingTriple(edges: seq<Edge>, seeds: set<NodeId>, p: nat, q: nat, r: nat) {
    && p < q < r < |edges|
    && exists s, x, y, z :: s in seeds && Joins(edges[p], s, x) && Joins(edges[q], x, y) && Joins(edges[r], y, z)
  }

  /** A quick check: an edge list without such a triple keeps the pass within two hops. */
  lemma NoTripleStays(seeds: set<NodeId>, edges: seq<Edge>, bound: nat)
    requires forall p, q, r :: 0 <= p < q < r ==> !RisingTriple(edges, seeds, p, q, r)
    ensures StaysNear(seeds, edges, bound)
  {
    forall id | id in Expand(seeds, edges, 0, bound) ensures Near(edges, seeds, 2, id) {
      ExpandExactly(seeds, edges, bound, id);
      var trail, at :| RisingTrail(trail, at, edges, seeds, Stop(seeds, edges, bound, 0), id);
      if |at| >= 3 {
        assert Joins(edges[at[0]], trail[0], trail[0 + 1]) && Joins(edges[at[1]], trail[1], trail[1 + 1])
            && Joins(edges[at[2]], trail[2], trail[2 + 1]);
        assert RisingTriple(edges, seeds, at[0], at[1], at[2]);
      }
      TrailOfEdges(trail, at, edges, seeds, id);
    }
  }

  lemma TrailOfEdges(trail: seq<NodeId>, at: seq<nat>, edges: seq<Edge>, seeds: set<NodeId>, id: NodeId)
    requires RisingTrail(trail, at, edges, seeds, |edges|, id)
    ensures EdgeTrail(trail, edges, seeds, id)
  {
    forall i | 0 <= i < |trail| - 1
      ensures Edge(trail[i], trail[i + 1]) in edges || Edge(trail[i + 1], trail[i]) in edges
    {
      assert Joins(edges[at[i]], trail[i], trail[i + 1]) && edges[at[i]] in edges;
    }
  }

  // ----- three short edge lists

  lemma PastTwoHops()
    ensures var edges := [Edge("a", "b"), Edge("b", "c"), Edge("c", "d")];
      Expand({"a"}, edges, 0, 4) == {"a", "b", "c", "d"} && !Near(edges, {"a"}, 2, "d")
  {
    var edges := [Edge("a", "b"), Edge("b", "c"), Edge("c", "d")];
    assert Touch({"a"}, edges[0]) == {"a", "b"};
    assert Touch({"a", "b"}, edges[1]) == {"a", "b", "c"};
    assert Touch({"a", "b", "c"}, edges[2]) == {"a", "b", "c", "d"};
    assert Expand({"a", "b", "c", "d"}, edges, 3, 4) == {"a", "b", "c", "d"};
    assert Expand({"a", "b", "c"}, edges, 2, 4) == {"a", "b", "c", "d"};
    assert Expand({"a", "b"}, edges, 1, 4) == {"a", "b", "c", "d"};
    forall trail | EdgeTrail(trail, edges, {"a"}, "d") ensures |trail| > 3 {
      ChainTrail(trail, edges, "d");
    }
  }

  lemma ChainTrail(trail: seq<NodeId>, edges: seq<Edge>, id: NodeId)
    requires edges == [Edge("a", "b"), Edge("b", "c"), Edge("c", "d")] && EdgeTrail(trail, edges, {"a"}, id)
    ensures trail[0] == "a"
    ensures |trail| >= 2 ==> trail[1] == "b"
    ensures |trail| >= 3 ==> trail[2] in {"a", "c"}
  {
    if |trail| >= 2 { TrailStep(trail, edges, {"a"}, id, 0); }
    if |trail| >= 3 { TrailStep(trail, edges, {"a"}, id, 1); }
  }

  lemma TrailStep(trail: seq<NodeId>, edges: seq<Edge>, seeds: set<NodeId>, id: NodeId, i: nat)
    requires EdgeTrail(trail, edges, seeds, id) && i + 1 < |trail|
    ensures Edge(trail[i], trail[i + 1]) in edges || Edge(trail[i + 1], trail[i]) in edges
  {}

  lemma ShortOfTwoHops()
    ensures var edges := [Edge("b", "c"), Edge("a", "b")];
      Expand({"a"}, edges, 0, 3) == {"a", "b"} && Near(edges, {"a"}, 2, "c")
  {
    var edges := [Edge("b", "c"), Edge("a", "b")];
    assert Touch({"a"}, edges[0]) == {"a"};
    assert Touch({"a"}, edges[1]) == {"a", "b"};
    assert Expand({"a", "b"}, edges, 2, 3) == {"a", "b"};
    assert Expand({"a"}, edges, 1, 3) == {"a", "b"};
    assert edges[0] in edges && edges[1] in edges;
    assert EdgeTrail(["a", "b", "c"], edges, {"a"}, "c");
  }

  lemma CutByBound()
    ensures var edges := [Edge("a", "b"), Edge("a", "c")];
      Expand({"a"}, edges, 0, 2) == {"a", "b"} && Near(edges, {"a"}, 1, "c")
  {
    var edges := [Edge("a", "b"), Edge("a", "c")];
    assert Touch({"a"}, edges[0]) == {"a", "b"};
    assert edges[1] in edges;
    assert EdgeTrail(["a", "c"], edges, {"a"}, "c");
  }

  /** A neighbour of a seed is reached when an edge between them stands before the stop. */
  lemma NeighbourReached(seeds: set<NodeId>, edges: seq<Edge>, bound: nat, p: nat, s: NodeId, id: NodeId)
    requires p < Stop(seeds, edges, bound, 0) && s in seeds && Joins(edges[p], s, id)
    ensures id in Expand(seeds, edges, 0, bound)
  {
    RisesStart(edges, seeds, p, s);
    RisesOn(edges, seeds, p, s, id);
    RisesLater(edges, seeds, p + 1, Stop(seeds, edges, bound, 0), id);
    ExpandExactly(seeds, edges, bound, id);
  }
}
