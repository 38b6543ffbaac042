/** The call graph of a module and the blast radius of a symbol. */
module CallGraph {
  import opened Wrappers
  import opened Sequences

  type Symbol = string

  datatype Node = Node(line: nat, callees: seq<Symbol>, callers: seq<Symbol>)

  // ----- the parsed program, as far as the extractor looks at it

  /** A call expression: f(...), x.f(...), or a call of anything else. */
  datatype Call = Named(id: Symbol) | Attribute(attr: Symbol) | Dynamic

  /** A function or method with every call expression inside it. */
  datatype Function = Function(name: Symbol, line: nat, calls: seq<Call>)

  datatype Top = Def(f: Function) | Class(methods: seq<Function>) | Statement

  /** definitions: the name and line of every function anywhere in the tree. */
  datatype Program = Program(definitions: seq<(Symbol, nat)>, body: seq<Top>)

  function Target(c: Call): Option<Symbol> {
    match c
    case Named(id) => Some(id)
    case Attribute(attr) => Some(attr)
    case Dynamic => None
  }

  /** Top-level functions and methods of top-level classes, in order. */
  function Units(body: seq<Top>): seq<Function> {
    if body == [] then []
    else
      (match body[0]
       case Def(f) => [f]
       case Class(methods) => methods
       case Statement => []) + Units(body[1..])
  }

  ghost predicate Defined(p: Program, name: Symbol) {
    exists i :: 0 <= i < |p.definitions| && p.definitions[i].0 == name
  }

  /** Every unit is among the definitions, as it is in any syntax tree. */
  ghost predicate IsTree(p: Program) {
    forall u :: u in Units(p.body) ==> Defined(p, u.name)
  }

  /** f is a function at the top level, or a method of a class there. */
  ghost predicate IsUnit(body: seq<Top>, f: Function) {
    exists t :: t in body && (t == Def(f) || (t.Class? && f in t.methods))
  }

  /** The k-th call of f is one of b, by name or as an attribute of anything. */
  ghost predicate IsCallOf(f: Function, k: int, b: Symbol) {
    0 <= k < |f.calls| && (f.calls[k] == Named(b) || f.calls[k] == Attribute(b))
  }

  /** Some unit called a contains a call of the other defined symbol b. */
  ghost predicate Calls(p: Program, a: Symbol, b: Symbol) {
    a != b && Defined(p, b) && exists f, k :: IsUnit(p.body, f) && f.name == a && IsCallOf(f, k, b)
  }

  lemma {:induction false} UnitsExactly(body: seq<Top>, f: Function)
    ensures f in Units(body) <==> IsUnit(body, f)
  {
    if body != [] {
      UnitsExactly(body[1..], f);
      assert body == [body[0]] + body[1..];
    }
  }

  lemma SitesExactly(p: Program, a: Symbol, b: Symbol)
    ensures (exists u, k :: CallSite(Units(p.body), u, k, a, b)) <==>
      exists f, k :: IsUnit(p.body, f) && f.name == a && IsCallOf(f, k, b)
  {
    var units := Units(p.body);
    if u, k :| CallSite(units, u, k, a, b) {
      UnitsExactly(p.body, units[u]);
      assert IsCallOf(units[u], k, b);
    }
    if f, k :| IsUnit(p.body, f) && f.name == a && IsCallOf(f, k, b) {
      UnitsExactly(p.body, f);
      var u :| 0 <= u < |units| && units[u] == f;
      assert CallSite(units, u, k, a, b);
    }
  }

  ghost predicate CallSite(units: seq<Function>, u: int, k: int, a: Symbol, b: Symbol) {
    0 <= u < |units| && 0 <= k < |units[u].calls| && units[u].name == a && Target(units[u].calls[k]) == Some(b)
  }

  /** The line of each node is that of the last definition of its name. */
  ghost predicate HasLines(nodes: map<Symbol, Node>, p: Program, k: nat) {
    forall a :: a in nodes ==> exists i :: LastDefinition(p, k, i, a) && nodes[a].line == p.definitions[i].1
  }

  ghost predicate LastDefinition(p: Program, k: nat, i: int, a: Symbol) {
    0 <= i < k <= |p.definitions| && p.definitions[i].0 == a && forall j :: i < j < k ==> p.definitions[j].0 != a
  }

  // ----- extraction

  /** Callees and callers agree with an edge relation, hold no duplicates and no other name. */
  ghost predicate Holds(nodes: map<Symbol, Node>, edge: (Symbol, Symbol) -> bool) {
    && (forall a, b :: a in nodes && b in nodes ==>
          (b in nodes[a].callees <==> edge(a, b)) && (a in nodes[b].callers <==> edge(a, b)))
    && (forall a :: a in nodes ==> Distinct(nodes[a].callees) && Distinct(nodes[a].callers))
    && (forall a, x :: a in nodes && (x in nodes[a].callees || x in nodes[a].callers) ==> x in nodes)
  }

  /** The graph of a program: one node per defined name, edges exactly the calls. */
  ghost predicate IsGraphOf(nodes: map<Symbol, Node>, p: Program) {
    && (forall a :: a in nodes <==> Defined(p, a))
    && Holds(nodes, CallEdge(p))
  }

  ghost function CallEdge(p: Program): (Symbol, Symbol) -> bool { (a, b) => Calls(p, a, b) }

  /** What the loops have seen: the first u units completely, and k calls of the next one. */
  ghost predicate SeenCall(p: Program, u: nat, k: nat, a: Symbol, b: Symbol) {
    a != b && exists v, j :: (v < u || (v == u && j < k)) && CallSite(Units(p.body), v, j, a, b)
  }

  ghost function SeenEdge(p: Program, u: nat, k: nat): (Symbol, Symbol) -> bool { (a, b) => SeenCall(p, u, k, a, b) }

  ghost predicate SoFar(nodes: map<Symbol, Node>, p: Program, u: nat, k: nat) {
    && (forall a :: a in nodes <==> Defined(p, a))
    && Holds(nodes, SeenEdge(p, u, k))
  }

  /** Both ends of the edge from a to b are entered, each once, and nothing else changes. */
  ghost predicate EdgeAdded(nodes: map<Symbol, Node>, r: map<Symbol, Node>, a: Symbol, b: Symbol)
    requires a in nodes && b in nodes
  {
    && r.Keys == nodes.Keys
    && (forall x :: x in nodes && x != a && x != b ==> r[x] == nodes[x])
    && r[a].line == nodes[a].line && r[b].line == nodes[b].line
    && r[a].callers == nodes[a].callers && r[b].callees == nodes[b].callees
    && r[a].callees == (if b in nodes[a].callees then nodes[a].callees else nodes[a].callees + [b])
    && r[b].callers == (if a in nodes[b].callers then nodes[b].callers else nodes[b].callers + [a])
  }

  method RecordEdge(nodes: map<Symbol, Node>, a: Symbol, b: Symbol) returns (r: map<Symbol, Node>)
    requires a in nodes && b in nodes && a != b
    ensures EdgeAdded(nodes, r, a, b)
  {
    r := nodes;
    if b !in r[a].callees { r := r[a := r[a].(callees := r[a].callees + [b])]; }
    if a !in r[b].callers { r := r[b := r[b].(callers := r[b].callers + [a])]; }
  }

  lemma EdgeAddedAt(nodes: map<Symbol, Node>, r: map<Symbol, Node>, a: Symbol, b: Symbol, x: Symbol)
    requires a in nodes && b in nodes && a != b && EdgeAdded(nodes, r, a, b) && x in nodes
    ensures x in r && r[x].line == nodes[x].line
    ensures Distinct(nodes[x].callees) ==> Distinct(r[x].callees)
    ensures Distinct(nodes[x].callers) ==> Distinct(r[x].callers)
    ensures forall y :: y in r[x].callees <==> y in nodes[x].callees || (x == a && y == b)
    ensures forall y :: y in r[x].callers <==> y in nodes[x].callers || (x == b && y == a)
  {}

  lemma EdgeRecorded(nodes: map<Symbol, Node>, r: map<Symbol, Node>, a: Symbol, b: Symbol,
                     edge: (Symbol, Symbol) -> bool, edge': (Symbol, Symbol) -> bool)
    requires a in nodes && b in nodes && a != b && Holds(nodes, edge) && EdgeAdded(nodes, r, a, b)
    requires forall x, y :: edge'(x, y) <==> edge(x, y) || (x == a && y == b)
    ensures Holds(r, edge') && forall x :: x in r ==> r[x].line == nodes[x].line
  {
    assert r.Keys == nodes.Keys;
    forall x | x in nodes
      ensures x in r && r[x].line == nodes[x].line && Distinct(r[x].callees) && Distinct(r[x].callers)
      ensures forall y :: y in r[x].callees <==> y in nodes[x].callees || (x == a && y == b)
      ensures forall y :: y in r[x].callers <==> y in nodes[x].callers || (x == b && y == a)
    {
      EdgeAddedAt(nodes, r, a, b, x);
    }
  }

  method ExtractCallGraph(parsed: Option<Program>) returns (nodes: map<Symbol, Node>)
    requires parsed.Some? ==> IsTree(parsed.value)
    ensures parsed.None? ==> nodes == map[]
    ensures parsed.Some? ==> IsGraphOf(nodes, parsed.value) && HasLines(nodes, parsed.value, |parsed.value.definitions|)
  {
    if parsed.None? { return map[]; }
    var p := parsed.value;
    nodes := DiscoverSymbols(p);
    var units := Units(p.body);
    for u := 0 to |units|
      invariant SoFar(nodes, p, u, 0) && HasLines(nodes, p, |p.definitions|)
    {
      assert units[u] in units;
      for k := 0 to |units[u].calls|
        invariant SoFar(nodes, p, u, k) && HasLines(nodes, p, |p.definitions|)
      {
        nodes := LinkCall(nodes, p, u, k);
      }
      SeenUnit(p, u);
      SameEdges(nodes, SeenEdge(p, u, |units[u].calls|), SeenEdge(p, u + 1, 0));
    }
    SeenAll(p);
    SameEdges(nodes, SeenEdge(p, |units|, 0), CallEdge(p));
  }

  method DiscoverSymbols(p: Program) returns (nodes: map<Symbol, Node>)
    ensures SoFar(nodes, p, 0, 0) && HasLines(nodes, p, |p.definitions|)
  {
    nodes := map[];
    for i := 0 to |p.definitions|
      invariant forall a :: a in nodes <==> exists j :: 0 <= j < i && p.definitions[j].0 == a
      invariant forall a :: a in nodes ==> nodes[a].callees == [] && nodes[a].callers == []
      invariant HasLines(nodes, p, i)
    {
      ghost var before := nodes;
      nodes := nodes[p.definitions[i].0 := Node(p.definitions[i].1, [], [])];
      LinesNext(before, nodes, p, i);
    }
    forall a, b ensures !SeenEdge(p, 0, 0)(a, b) {}
  }

  lemma LinesNext(nodes: map<Symbol, Node>, nodes': map<Symbol, Node>, p: Program, i: nat)
    requires i < |p.definitions| && HasLines(nodes, p, i)
    requires nodes' == nodes[p.definitions[i].0 := Node(p.definitions[i].1, [], [])]
    ensures HasLines(nodes', p, i + 1)
  {
    forall a | a in nodes'
      ensures exists j :: LastDefinition(p, i + 1, j, a) && nodes'[a].line == p.definitions[j].1
    {
      if a == p.definitions[i].0 {
        assert LastDefinition(p, i + 1, i, a);
      } else {
        var j :| LastDefinition(p, i, j, a) && nodes[a].line == p.definitions[j].1;
        assert LastDefinition(p, i + 1, j, a);
      }
    }
  }

  method LinkCall(nodes: map<Symbol, Node>, p: Program, u: nat, k: nat) returns (r: map<Symbol, Node>)
    requires u < |Units(p.body)| && k < |Units(p.body)[u].calls| && Defined(p, Units(p.body)[u].name)
    requires SoFar(nodes, p, u, k)
    ensures SoFar(r, p, u, k + 1) && forall x :: x in r ==> r[x].line == nodes[x].line
  {
    var f := Units(p.body)[u];
    var callee := Target(f.calls[k]);
    if callee.Some? && callee.value in nodes && callee.value != f.name {
      r := RecordEdge(nodes, f.name, callee.value);
      CallLinked(nodes, r, p, u, k, callee.value);
    } else {
      r := nodes;
      NoCallLinked(nodes, p, u, k);
    }
  }

  lemma CallLinked(nodes: map<Symbol, Node>, r: map<Symbol, Node>, p: Program, u: nat, k: nat, b: Symbol)
    requires u < |Units(p.body)| && k < |Units(p.body)[u].calls| && SoFar(nodes, p, u, k)
    requires Target(Units(p.body)[u].calls[k]) == Some(b)
    requires Units(p.body)[u].name in nodes && b in nodes && b != Units(p.body)[u].name
    requires EdgeAdded(nodes, r, Units(p.body)[u].name, b)
    ensures SoFar(r, p, u, k + 1) && forall x :: x in r ==> r[x].line == nodes[x].line
  {
    var a := Units(p.body)[u].name;
    SeenLinked(p, u, k, a, b);
    EdgeRecorded(nodes, r, a, b, SeenEdge(p, u, k), SeenEdge(p, u, k + 1));
    forall x ensures x in r <==> Defined(p, x) { assert x in r.Keys <==> x in nodes.Keys; }
  }

  lemma SeenLinked(p: Program, u: nat, k: nat, a: Symbol, b: Symbol)
    requires u < |Units(p.body)| && k < |Units(p.body)[u].calls| && a == Units(p.body)[u].name
    requires Target(Units(p.body)[u].calls[k]) == Some(b) && a != b
    ensures forall x, y :: SeenEdge(p, u, k + 1)(x, y) <==> SeenEdge(p, u, k)(x, y) || (x == a && y == b)
  {
    SeenNext(p, u, k);
    assert forall x, y :: CallSite(Units(p.body), u, k, x, y) <==> x == a && y == b;
  }

  lemma NoCallLinked(nodes: map<Symbol, Node>, p: Program, u: nat, k: nat)
    requires u < |Units(p.body)| && k < |Units(p.body)[u].calls| && SoFar(nodes, p, u, k)
    requires var callee := Target(Units(p.body)[u].calls[k]);
      callee.Some? ==> callee.value !in nodes || callee.value == Units(p.body)[u].name
    ensures SoFar(nodes, p, u, k + 1)
  {
    SeenNext(p, u, k);
    SameEdges(nodes, SeenEdge(p, u, k), SeenEdge(p, u, k + 1));
  }

  lemma SameEdges(nodes: map<Symbol, Node>, edge: (Symbol, Symbol) -> bool, edge': (Symbol, Symbol) -> bool)
    requires Holds(nodes, edge)
    requires forall a, b :: a in nodes && b in nodes ==> edge(a, b) == edge'(a, b)
    ensures Holds(nodes, edge')
  {}

  lemma SeenNext(p: Program, u: nat, k: nat)
    requires u < |Units(p.body)| && k < |Units(p.body)[u].calls|
    ensures forall a, b :: SeenEdge(p, u, k + 1)(a, b) <==>
      SeenEdge(p, u, k)(a, b) || (a != b && CallSite(Units(p.body), u, k, a, b))
  {
  }

  lemma SeenUnit(p: Program, u: nat)
    requires u < |Units(p.body)|
    ensures forall a, b :: SeenEdge(p, u + 1, 0)(a, b) <==> SeenEdge(p, u, |Units(p.body)[u].calls|)(a, b)
  {
  }

  lemma SeenAll(p: Program)
    ensures forall a, b :: Defined(p, b) ==> (SeenEdge(p, |Units(p.body)|, 0)(a, b) <==> CallEdge(p)(a, b))
  {
    forall a, b | Defined(p, b) ensures SeenEdge(p, |Units(p.body)|, 0)(a, b) <==> CallEdge(p)(a, b) {
      SitesExactly(p, a, b);
      assert SeenCall(p, |Units(p.body)|, 0, a, b) <==> a != b && exists u, k :: CallSite(Units(p.body), u, k, a, b);
    }
  }

  /** After construction callers and callees are inverse, self-free and duplicate-free. */
  lemma EdgesAreInverse(nodes: map<Symbol, Node>, p: Program, a: Symbol, b: Symbol)
    requires IsGraphOf(nodes, p) && a in nodes && b in nodes
    ensures b in nodes[a].callees <==> a in nodes[b].callers
    ensures a !in nodes[a].callees && a !in nodes[a].callers
    ensures Distinct(nodes[a].callees) && Distinct(nodes[a].callers)
  {
    assert CallEdge(p)(a, b) == Calls(p, a, b);
    assert CallEdge(p)(a, a) == Calls(p, a, a);
  }

  // ----- blast radius

  /** path leads from the modified symbol to s, each step to a direct caller. */
  ghost predicate CallerPath(nodes: map<Symbol, Node>, modified: Symbol, path: seq<Symbol>, s: Symbol) {
    && |path| > 0 && path[0] == modified && path[|path| - 1] == s
    && (forall i :: 0 <= i < |path| - 1 ==> path[i] in nodes && path[i + 1] in nodes[path[i]].callers)
  }

  ghost predicate ReachesBack(nodes: map<Symbol, Node>, modified: Symbol, s: Symbol) {
    exists path :: CallerPath(nodes, modified, path, s)
  }

  lemma ExtendPath(nodes: map<Symbol, Node>, modified: Symbol, s: Symbol, caller: Symbol)
    requires ReachesBack(nodes, modified, s) && s in nodes && caller in nodes[s].callers
    ensures ReachesBack(nodes, modified, caller)
  {
    var path :| CallerPath(nodes, modified, path, s);
    assert CallerPath(nodes, modified, path + [caller], caller);
  }

  /** A set that contains the start and is closed under callers holds everything reachable. */
  lemma {:induction false} ClosedContainsPath(nodes: map<Symbol, Node>, modified: Symbol, visited: set<Symbol>, path: seq<Symbol>, s: Symbol)
    requires modified in visited && CallerPath(nodes, modified, path, s)
    requires forall v, c :: v in visited && v in nodes && c in nodes[v].callers ==> c in visited
    ensures s in visited
    decreases |path|
  {
    if |path| > 1 {
      var before := path[|path| - 2];
      assert before in nodes && path[|path| - 2 + 1] in nodes[before].callers;
      ClosedContainsPath(nodes, modified, visited, path[..|path| - 1], before);
    }
  }

  predicate Less(a: Symbol, b: Symbol)
    decreases |a|
  {
    b != "" && (a == "" || a[0] < b[0] || (a[0] == b[0] && Less(a[1..], b[1..])))
  }

  lemma {:induction false} LessAsymmetric(a: Symbol, b: Symbol)
    ensures Less(a, b) ==> !Less(b, a)
    decreases |a|
  {
    if a != "" && b != "" { LessAsymmetric(a[1..], b[1..]); }
  }

  lemma {:induction false} LessSplits(a: Symbol, b: Symbol, c: Symbol)
    requires Less(a, c)
    ensures Less(a, b) || Less(b, c)
    decreases |a|
  {
    if a != "" && b != "" && a[0] == b[0] == c[0] { LessSplits(a[1..], b[1..], c[1..]); }
  }

  lemma {:induction false} LessTotal(a: Symbol, b: Symbol)
    ensures Less(a, b) || Less(b, a) || a == b
    decreases |a|
  {
    if a != "" && b != "" && a[0] == b[0] {
      LessTotal(a[1..], b[1..]);
      assert a == [a[0]] + a[1..] && b == [b[0]] + b[1..];
    }
  }

  lemma LessIsOrder()
    ensures StrictWeakOrder(Less)
  {
    forall a, b ensures Less(a, b) ==> !Less(b, a) { LessAsymmetric(a, b); }
    forall a, b, c | Less(a, c) ensures Less(a, b) || Less(b, c) { LessSplits(a, b, c); }
  }

  ghost predicate Ascending(s: seq<Symbol>) {
    forall i, j :: 0 <= i < j < |s| ==> Less(s[i], s[j])
  }

  /** sorted(list(symbols)) */
  method SortedList(symbols: set<Symbol>) returns (r: seq<Symbol>)
    ensures Ascending(r) && forall s :: s in r <==> s in symbols
  {
    var list, rest := [], symbols;
    while rest != {}
      invariant Distinct(list) && rest <= symbols
      invariant forall s :: s in list <==> s in symbols && s !in rest
    {
      var s :| s in rest;
      list, rest := list + [s], rest - {s};
    }
    r := Sort(list, Less);
    SortPermutes(list, Less);
    SortMembers(list, Less);
    LessIsOrder();
    SortSorted(list, Less);
    DistinctPermutation(list, r);
    forall i, j | 0 <= i < j < |r| ensures Less(r[i], r[j]) { LessTotal(r[i], r[j]); }
  }

  /** Everything that can ever enter the queue. */
  ghost function Universe(nodes: map<Symbol, Node>, modified: Symbol): set<Symbol> {
    {modified} + set a, c | a in nodes && c in nodes[a].callers :: c
  }

  /** The worklist invariant: everything seen is reachable, the start has been seen, and the
      callers of every visited symbol are visited or waiting. */
  ghost predicate Frontier(nodes: map<Symbol, Node>, modified: Symbol, visited: set<Symbol>, queue: seq<Symbol>) {
    && visited <= Universe(nodes, modified)
    && (forall q :: q in queue ==> q in Universe(nodes, modified))
    && (modified in visited || modified in queue)
    && (forall s :: s in visited || s in queue ==> ReachesBack(nodes, modified, s))
    && (forall v, c :: v in visited && v in nodes && c in nodes[v].callers ==> c in visited || c in queue)
  }

  lemma VisitKeepsFrontier(nodes: map<Symbol, Node>, modified: Symbol, visited: set<Symbol>, queue: seq<Symbol>, next: seq<Symbol>)
    requires queue != [] && Frontier(nodes, modified, visited, queue)
    requires forall s :: s in next <==>
      s in queue[1..] || (queue[0] in nodes && s in nodes[queue[0]].callers && s !in visited + {queue[0]})
    ensures Frontier(nodes, modified, visited + {queue[0]}, next)
  {
    var curr := queue[0];
    assert queue == [curr] + queue[1..];
    if curr in nodes {
      forall c | c in nodes[curr].callers ensures ReachesBack(nodes, modified, c) {
        ExtendPath(nodes, modified, curr, c);
      }
    }
  }

  lemma SkipKeepsFrontier(nodes: map<Symbol, Node>, modified: Symbol, visited: set<Symbol>, queue: seq<Symbol>)
    requires queue != [] && Frontier(nodes, modified, visited, queue) && queue[0] in visited
    ensures Frontier(nodes, modified, visited, queue[1..])
  {
    assert queue == [queue[0]] + queue[1..];
  }

  /** How many symbols of the universe are still unvisited. */
  ghost function Unvisited(nodes: map<Symbol, Node>, modified: Symbol, visited: set<Symbol>): nat {
    |Universe(nodes, modified) - visited|
  }

  lemma VisitShrinks(nodes: map<Symbol, Node>, modified: Symbol, visited: set<Symbol>, curr: Symbol)
    requires curr in Universe(nodes, modified) && curr !in visited
    ensures Unvisited(nodes, modified, visited + {curr}) < Unvisited(nodes, modified, visited)
  {
    var all := Universe(nodes, modified);
    assert all - visited == (all - (visited + {curr})) + {curr};
  }

  lemma EmptyFrontier(nodes: map<Symbol, Node>, modified: Symbol, visited: set<Symbol>)
    requires Frontier(nodes, modified, visited, [])
    ensures forall s :: s in visited <==> ReachesBack(nodes, modified, s)
  {
    forall s | ReachesBack(nodes, modified, s) ensures s in visited {
      var path :| CallerPath(nodes, modified, path, s);
      ClosedContainsPath(nodes, modified, visited, path, s);
    }
  }

  method GetBlastRadius(nodes: map<Symbol, Node>, modified: Symbol) returns (radius: seq<Symbol>)
    ensures Ascending(radius)
    ensures forall s :: s in radius <==> s != modified && ReachesBack(nodes, modified, s)
  {
    var visited: set<Symbol> := {};
    var queue := [modified];
    assert CallerPath(nodes, modified, [modified], modified);
    while queue != []
      invariant Frontier(nodes, modified, visited, queue)
      decreases Unvisited(nodes, modified, visited), |queue|
    {
      var curr, rest := queue[0], queue[1..];
      if curr in visited {
        SkipKeepsFrontier(nodes, modified, visited, queue);
        queue := rest;
      } else {
        VisitShrinks(nodes, modified, visited, curr);
        var next := EnqueueCallers(if curr in nodes then nodes[curr].callers else [], visited + {curr}, rest);
        VisitKeepsFrontier(nodes, modified, visited, queue, next);
        visited, queue := visited + {curr}, next;
      }
    }
    EmptyFrontier(nodes, modified, visited);
    radius := SortedList(visited - {modified});
  }

  method EnqueueCallers(callers: seq<Symbol>, visited: set<Symbol>, queue: seq<Symbol>) returns (r: seq<Symbol>)
    ensures forall s :: s in r <==> s in queue || (s in callers && s !in visited)
  {
    r := queue;
    for k := 0 to |callers|
      invariant forall s :: s in r <==> s in queue || (s in callers[..k] && s !in visited)
    {
      assert callers[..k + 1] == callers[..k] + [callers[k]];
      if callers[k] !in visited { r := r + [callers[k]]; }
    }
    assert callers[..|callers|] == callers;
  }

  /** A chain of calls from s down to the modified symbol. */
  ghost predicate CallChain(p: Program, chain: seq<Symbol>, s: Symbol, modified: Symbol) {
    && |chain| > 0 && chain[0] == s && chain[|chain| - 1] == modified
    && (forall i :: 0 <= i < |chain| - 1 ==> Calls(p, chain[i], chain[i + 1]))
  }

  /** On an extracted graph the blast radius is what the source promises: the other symbols
      that directly or indirectly call the modified one. */
  lemma BlastRadiusIsCallers(nodes: map<Symbol, Node>, p: Program, modified: Symbol, s: Symbol)
    requires IsGraphOf(nodes, p) && IsTree(p)
    ensures ReachesBack(nodes, modified, s) <==> exists chain :: CallChain(p, chain, s, modified)
  {
    if ReachesBack(nodes, modified, s) {
      var path :| CallerPath(nodes, modified, path, s);
      ReverseAt(path);
      var chain := Reverse(path);
      forall i | 0 <= i < |chain| - 1 ensures Calls(p, chain[i], chain[i + 1]) {
        var j := |path| - 2 - i;
        assert path[j] in nodes && path[j + 1] in nodes[path[j]].callers;
        CallerMeansCall(nodes, p, path[j + 1], path[j]);
      }
      assert CallChain(p, chain, s, modified);
    }
    if exists chain :: CallChain(p, chain, s, modified) {
      var chain :| CallChain(p, chain, s, modified);
      ReverseAt(chain);
      var path := Reverse(chain);
      forall i | 0 <= i < |path| - 1 ensures path[i] in nodes && path[i + 1] in nodes[path[i]].callers {
        var j := |chain| - 2 - i;
        assert Calls(p, chain[j], chain[j + 1]);
        CallMeansCaller(nodes, p, chain[j], chain[j + 1]);
      }
      assert CallerPath(nodes, modified, path, s);
    }
  }

  lemma CallerMeansCall(nodes: map<Symbol, Node>, p: Program, a: Symbol, b: Symbol)
    requires IsGraphOf(nodes, p) && b in nodes && a in nodes[b].callers
    ensures Calls(p, a, b)
  {
    assert CallEdge(p)(a, b) == Calls(p, a, b);
  }

  lemma CallMeansCaller(nodes: map<Symbol, Node>, p: Program, a: Symbol, b: Symbol)
    requires IsGraphOf(nodes, p) && IsTree(p) && Calls(p, a, b)
    ensures b in nodes && a in nodes[b].callers
  {
    SitesExactly(p, a, b);
    var u, k :| CallSite(Units(p.body), u, k, a, b);
    assert Units(p.body)[u] in Units(p.body);
    assert CallEdge(p)(a, b) == Calls(p, a, b);
  }
}
