/** The transition kernel of an undirected adjacency list, and how far mass can travel along it. */
module PageRank {
  import opened Sums
  import opened Diffusion

  type Adjacency = seq<seq<nat>>

  /** Every neighbour index is a node index. */
  ghost predicate WellFormed(adj: Adjacency) {
    forall u, k :: 0 <= u < |adj| && 0 <= k < |adj[u]| ==> adj[u][k] < |adj|
  }

  /** How often v occurs among the first k entries of s. */
  function Occurs(s: seq<nat>, k: nat, v: int): nat
    requires k <= |s|
  {
    if k == 0 then 0 else Occurs(s, k - 1, v) + if s[k - 1] == v then 1 else 0
  }

  /** The share of u's mass that one spreading step sends to v; a node without
      neighbours keeps its own mass. */
  function Share(adj: Adjacency, u: int, v: int): real {
    if !(0 <= u < |adj|) then 0.0
    else if adj[u] == [] then (if u == v then 1.0 else 0.0)
    else Occurs(adj[u], |adj[u]|, v) as real / |adj[u]| as real
  }

  function KernelOf(adj: Adjacency): Kernel { (u, v) => Share(adj, u, v) }

  // ----- every node distributes exactly its own mass

  function OccursReal(s: seq<nat>, k: nat): int -> real
    requires k <= |s|
  {
    v => Occurs(s, k, v) as real
  }

  lemma {:induction false} OccursTotal(s: seq<nat>, k: nat, n: nat)
    requires k <= |s| && forall j :: 0 <= j < |s| ==> s[j] < n
    ensures Sum(OccursReal(s, k), n) == k as real
  {
    if k == 0 {
      SumZero(OccursReal(s, 0), n);
    } else {
      OccursTotal(s, k - 1, n);
      var hit := v => if v == s[k - 1] then 1.0 else 0.0;
      SumSingle(hit, s[k - 1], n);
      SumAdd(OccursReal(s, k - 1), hit, OccursReal(s, k), n);
    }
  }

  function ShareFrom(adj: Adjacency, u: int): int -> real { v => Share(adj, u, v) }

  lemma ShareIsScaled(adj: Adjacency, u: nat, v: int, inverse: real)
    requires u < |adj| && adj[u] != [] && inverse * |adj[u]| as real == 1.0
    ensures Share(adj, u, v) == inverse * Occurs(adj[u], |adj[u]|, v) as real
  {
    var c, d := Occurs(adj[u], |adj[u]|, v) as real, |adj[u]| as real;
    assert inverse * c == inverse * (c / d * d) == c / d * (inverse * d);
  }

  lemma Inverse(d: real) returns (inverse: real)
    requires d != 0.0
    ensures inverse * d == 1.0
  {
    inverse := 1.0 / d;
  }

  ghost predicate IsMultiple(g: int -> real, c: real, f: int -> real) {
    forall v :: g(v) == c * f(v)
  }

  lemma SharesSumToOne(adj: Adjacency, u: nat)
    requires WellFormed(adj) && u < |adj|
    ensures Sum(ShareFrom(adj, u), |adj|) == 1.0
  {
    if adj[u] == [] {
      SumSingle(ShareFrom(adj, u), u, |adj|);
    } else {
      LinkedShares(adj, u);
    }
  }

  lemma LinkedShares(adj: Adjacency, u: nat)
    requires WellFormed(adj) && u < |adj| && adj[u] != []
    ensures Sum(ShareFrom(adj, u), |adj|) == 1.0
  {
    var inverse := Inverse(|adj[u]| as real);
    OccursTotal(adj[u], |adj[u]|, |adj|);
    SharesAreScaled(adj, u, inverse);
    ScaledSum(OccursReal(adj[u], |adj[u]|), ShareFrom(adj, u), |adj|, inverse, |adj[u]| as real);
  }

  lemma ScaledSum(f: int -> real, g: int -> real, n: nat, inverse: real, total: real)
    requires IsMultiple(g, inverse, f) && Sum(f, n) == total && inverse * total == 1.0
    ensures Sum(g, n) == 1.0
  {
    SumScale(inverse, f, g, n);
  }

  lemma SharesAreScaled(adj: Adjacency, u: nat, inverse: real)
    requires u < |adj| && adj[u] != [] && inverse * |adj[u]| as real == 1.0
    ensures IsMultiple(ShareFrom(adj, u), inverse, OccursReal(adj[u], |adj[u]|))
  {
    forall v ensures ShareFrom(adj, u)(v) == inverse * OccursReal(adj[u], |adj[u]|)(v) {
      ShareIsScaled(adj, u, v, inverse);
    }
  }

  lemma ShareNonnegative(adj: Adjacency, u: int, v: int)
    ensures Share(adj, u, v) >= 0.0
  {}

  /** Every node hands out exactly its own mass, so the kernel is stochastic. */
  lemma KernelIsStochastic(adj: Adjacency)
    requires WellFormed(adj)
    ensures Stochastic(KernelOf(adj), |adj|)
  {
    var kernel, n := KernelOf(adj), |adj|;
    forall u, v | 0 <= u < n && 0 <= v < n ensures kernel(u, v) >= 0.0 {
      ShareNonnegative(adj, u, v);
    }
    forall u | 0 <= u < n ensures RowSum(kernel, n)(u) == 1.0 {
      SharesSumToOne(adj, u);
      SumCongruence(ShareFrom(adj, u), v => kernel(u, v), n);
    }
  }

  // ----- hop locality

  ghost predicate Adjacent(adj: Adjacency, u: nat, v: nat) {
    u < |adj| && v < |adj| && v in adj[u]
  }

  /** path leads from a seed (a node with positive p0) to v along adjacency entries. */
  ghost predicate HopPath(adj: Adjacency, p0: seq<real>, path: seq<nat>, v: nat)
    requires |p0| == |adj|
  {
    && |path| > 0
    && path[0] < |adj| && p0[path[0]] > 0.0
    && path[|path| - 1] == v
    && (forall i :: 0 <= i < |path| - 1 ==> Adjacent(adj, path[i], path[i + 1]))
  }

  /** v lies within k hops of a seed. */
  ghost predicate WithinHops(adj: Adjacency, p0: seq<real>, k: nat, v: nat)
    requires |p0| == |adj|
  {
    exists path :: HopPath(adj, p0, path, v) && |path| <= k + 1
  }

  lemma {:induction false} OccursPositive(s: seq<nat>, k: nat, v: int)
    requires k <= |s|
    ensures Occurs(s, k, v) > 0 <==> v in s[..k]
  {
    if k > 0 {
      OccursPositive(s, k - 1, v);
      assert s[..k] == s[..k - 1] + [s[k - 1]];
    }
  }

  lemma ShareSupport(adj: Adjacency, u: nat, v: nat)
    requires u < |adj| && v < |adj| && WellFormed(adj)
    ensures Share(adj, u, v) > 0.0 <==> Adjacent(adj, u, v) || (adj[u] == [] && u == v)
  {
    OccursPositive(adj[u], |adj[u]|, v);
    assert adj[u][..|adj[u]|] == adj[u];
    if adj[u] != [] {
      var c, d := Occurs(adj[u], |adj[u]|, v) as real, |adj[u]| as real;
      assert c > 0.0 ==> c / d > 0.0;
    }
  }

  /** Mass reaches only nodes within k hops of a seed ... */
  lemma {:induction false} MassStaysWithinHops(adj: Adjacency, p0: seq<real>, alpha: real, k: nat, v: nat)
    requires WellFormed(adj) && |p0| == |adj| && Distribution(p0) && 0.0 <= alpha <= 1.0
    requires v < |adj| && At(Iterate(KernelOf(adj), |adj|, p0, alpha, k), v) > 0.0
    ensures WithinHops(adj, p0, k, v)
  {
    KernelIsStochastic(adj);
    IterateIsDistribution(KernelOf(adj), |adj|, p0, alpha, k);
    if k == 0 || p0[v] > 0.0 {
      assert HopPath(adj, p0, [v], v);
    } else {
      var p := Iterate(KernelOf(adj), |adj|, p0, alpha, k - 1);
      IterateIsDistribution(KernelOf(adj), |adj|, p0, alpha, k - 1);
      StepEntry(KernelOf(adj), |adj|, p0, p, alpha, v);
      assert p0[v] == 0.0;
      assert Received(KernelOf(adj), |adj|, Entries(p))(v) != 0.0;
      var u := NonzeroTerm(Inflow(KernelOf(adj), |adj|, Entries(p), v), |adj|);
      ShareNonnegative(adj, u, v);
      ShareSupport(adj, u, v);
      MassStaysWithinHops(adj, p0, alpha, k - 1, u);
      var path :| HopPath(adj, p0, path, u) && |path| <= k;
      if adj[u] == [] && u == v {
        assert HopPath(adj, p0, path, v);
      } else {
        assert HopPath(adj, p0, path + [v], v);
      }
    }
  }

  /** ... and, when 0 < alpha < 1, all of them. */
  lemma {:induction false} MassReachesHops(adj: Adjacency, p0: seq<real>, alpha: real, k: nat, v: nat, path: seq<nat>)
    requires WellFormed(adj) && |p0| == |adj| && Distribution(p0) && 0.0 < alpha < 1.0
    requires v < |adj| && HopPath(adj, p0, path, v) && |path| <= k + 1
    ensures At(Iterate(KernelOf(adj), |adj|, p0, alpha, k), v) > 0.0
    decreases k
  {
    KernelIsStochastic(adj);
    IterateIsDistribution(KernelOf(adj), |adj|, p0, alpha, k);
    if |path| == 1 {
      assert alpha * p0[v] > 0.0;
    } else {
      var u, p := path[|path| - 2], Iterate(KernelOf(adj), |adj|, p0, alpha, k - 1);
      assert Adjacent(adj, path[|path| - 2], path[|path| - 2 + 1]);
      assert HopPath(adj, p0, path[..|path| - 1], u);
      IterateIsDistribution(KernelOf(adj), |adj|, p0, alpha, k - 1);
      MassReachesHops(adj, p0, alpha, k - 1, u, path[..|path| - 1]);
      ShareSupport(adj, u, v);
      ReceivedAtLeast(KernelOf(adj), |adj|, p, u, v);
      StepEntry(KernelOf(adj), |adj|, p0, p, alpha, v);
      MixPositive(alpha, Received(KernelOf(adj), |adj|, Entries(p))(v), p0[v]);
    }
  }

  /** The support of the k-th iterate is exactly the k-hop neighbourhood of the seeds. */
  lemma HopLocality(adj: Adjacency, p0: seq<real>, alpha: real, k: nat, v: nat)
    requires WellFormed(adj) && |p0| == |adj| && Distribution(p0) && 0.0 < alpha < 1.0 && v < |adj|
    ensures At(Iterate(KernelOf(adj), |adj|, p0, alpha, k), v) >= 0.0
    ensures At(Iterate(KernelOf(adj), |adj|, p0, alpha, k), v) > 0.0 <==> WithinHops(adj, p0, k, v)
  {
    KernelIsStochastic(adj);
    IterateIsDistribution(KernelOf(adj), |adj|, p0, alpha, k);
    if At(Iterate(KernelOf(adj), |adj|, p0, alpha, k), v) > 0.0 {
      MassStaysWithinHops(adj, p0, alpha, k, v);
    }
    if WithinHops(adj, p0, k, v) {
      var path :| HopPath(adj, p0, path, v) && |path| <= k + 1;
      MassReachesHops(adj, p0, alpha, k, v, path);
    }
  }
}
