/** Damped diffusion of a weight vector over a stochastic kernel: the linear algebra
    behind the power iteration, independent of where the kernel comes from. */
module Diffusion {
  import opened Nonlinear
  import opened Sums

  /** kernel(u, v) is the share of u's weight that one step sends to v. */
  type Kernel = (int, int) -> real

  ghost predicate Stochastic(kernel: Kernel, n: nat) {
    && (forall u, v :: 0 <= u < n && 0 <= v < n ==> kernel(u, v) >= 0.0)
    && (forall u :: 0 <= u < n ==> RowSum(kernel, n)(u) == 1.0)
  }

  function At(p: seq<real>, i: int): real {
    if 0 <= i < |p| then p[i] else 0.0
  }

  function Inflow(kernel: Kernel, n: nat, w: int -> real, v: int): int -> real {
    u => w(u) * kernel(u, v)
  }

  /** What each node receives when every node u hands out weight w(u). */
  function Received(kernel: Kernel, n: nat, w: int -> real): int -> real {
    v => Sum(Inflow(kernel, n, w, v), n)
  }

  function Entries(p: seq<real>): int -> real { i => At(p, i) }

  function Mixed(alpha: real, spread: int -> real, base: int -> real): int -> real {
    Plus(Scaled(1.0 - alpha, spread), Scaled(alpha, base))
  }

  /** One iteration of the source's power method, as a matrix expression. */
  function Step(kernel: Kernel, n: nat, p0: seq<real>, p: seq<real>, alpha: real): seq<real> {
    seq(n, v => Mixed(alpha, Received(kernel, n, Entries(p)), Entries(p0))(v))
  }

  function Iterate(kernel: Kernel, n: nat, p0: seq<real>, alpha: real, k: nat): seq<real> {
    if k == 0 then p0 else Step(kernel, n, p0, Iterate(kernel, n, p0, alpha, k - 1), alpha)
  }

  function Mass(p: seq<real>): real { Sum(Entries(p), |p|) }

  ghost predicate Distribution(p: seq<real>) {
    (forall i :: 0 <= i < |p| ==> p[i] >= 0.0) && Mass(p) == 1.0
  }

  function Gap(p: seq<real>, q: seq<real>): int -> real {
    i => Abs(At(p, i) - At(q, i))
  }

  /** L1 distance: the source's `diff`. */
  function Distance(p: seq<real>, q: seq<real>): real
    requires |p| == |q|
  {
    Sum(Gap(p, q), |p|)
  }

  function Flow(kernel: Kernel, n: nat, w: int -> real): (int, int) -> real {
    (v, u) => w(u) * kernel(u, v)
  }

  lemma FlowRow(kernel: Kernel, n: nat, w: int -> real, v: nat)
    ensures RowSum(Flow(kernel, n, w), n)(v) == Received(kernel, n, w)(v)
  {
    var g := Flow(kernel, n, w);
    SumCongruence(u => g(v, u), Inflow(kernel, n, w, v), n);
  }

  lemma FlowColumn(kernel: Kernel, n: nat, w: int -> real, u: nat)
    requires Stochastic(kernel, n) && u < n
    ensures ColumnSum(Flow(kernel, n, w), n)(u) == w(u)
  {
    var g := Flow(kernel, n, w);
    assert RowSum(kernel, n)(u) == 1.0;
    SumScale(w(u), v => kernel(u, v), v => g(v, u), n);
    SumCongruence(v => kernel(u, v), v => kernel(u, v), n);
  }

  lemma SpreadConserves(kernel: Kernel, n: nat, w: int -> real)
    requires Stochastic(kernel, n)
    ensures Sum(Received(kernel, n, w), n) == Sum(w, n)
  {
    SumSwap(Flow(kernel, n, w), n, n);
    forall v: int | 0 <= v < n ensures RowSum(Flow(kernel, n, w), n)(v) == Received(kernel, n, w)(v) {
      FlowRow(kernel, n, w, v);
    }
    SumCongruence(RowSum(Flow(kernel, n, w), n), Received(kernel, n, w), n);
    forall u: int | 0 <= u < n ensures ColumnSum(Flow(kernel, n, w), n)(u) == w(u) {
      FlowColumn(kernel, n, w, u);
    }
    SumCongruence(ColumnSum(Flow(kernel, n, w), n), w, n);
  }

  lemma ReceivedNonnegative(kernel: Kernel, n: nat, w: int -> real, v: nat)
    requires Stochastic(kernel, n) && v < n
    requires forall u :: 0 <= u < n ==> w(u) >= 0.0
    ensures Received(kernel, n, w)(v) >= 0.0
  {
    forall u | 0 <= u < n ensures Inflow(kernel, n, w, v)(u) >= 0.0 {
      ProductNonnegative(w(u), kernel(u, v));
    }
    SumNonnegative(Inflow(kernel, n, w, v), n);
  }

  /** Mass: a step sends total mass m to (1-alpha)*m + alpha*|p0|. */
  lemma StepMass(kernel: Kernel, n: nat, p0: seq<real>, p: seq<real>, alpha: real)
    requires Stochastic(kernel, n) && |p0| == |p| == n
    ensures Mass(Step(kernel, n, p0, p, alpha)) == (1.0 - alpha) * Mass(p) + alpha * Mass(p0)
  {
    var spread := Received(kernel, n, Entries(p));
    SpreadConserves(kernel, n, Entries(p));
    SumOfCombination(1.0 - alpha, spread, alpha, Entries(p0), n);
    SumCongruence(Entries(Step(kernel, n, p0, p, alpha)), Mixed(alpha, spread, Entries(p0)), n);
  }

  lemma StepEntry(kernel: Kernel, n: nat, p0: seq<real>, p: seq<real>, alpha: real, v: nat)
    requires |p0| == n && v < n
    ensures Step(kernel, n, p0, p, alpha)[v] == At(Step(kernel, n, p0, p, alpha), v)
         == (1.0 - alpha) * Received(kernel, n, Entries(p))(v) + alpha * p0[v]
  {
    var received := Received(kernel, n, Entries(p));
    var mixed := Mixed(alpha, received, Entries(p0));
    assert Step(kernel, n, p0, p, alpha)[v] == mixed(v);
    assert mixed(v) == Scaled(1.0 - alpha, received)(v) + Scaled(alpha, Entries(p0))(v);
    assert Entries(p0)(v) == p0[v];
  }

  lemma StepFloor(kernel: Kernel, n: nat, p0: seq<real>, p: seq<real>, alpha: real, v: nat)
    requires Stochastic(kernel, n) && |p0| == |p| == n && 0.0 <= alpha <= 1.0 && v < n
    requires forall i :: 0 <= i < |p| ==> p[i] >= 0.0
    ensures Step(kernel, n, p0, p, alpha)[v] >= alpha * p0[v]
  {
    StepEntry(kernel, n, p0, p, alpha, v);
    ReceivedNonnegative(kernel, n, Entries(p), v);
    ProductNonnegative(1.0 - alpha, Received(kernel, n, Entries(p))(v));
  }

  lemma {:induction false} IterateLength(kernel: Kernel, n: nat, p0: seq<real>, alpha: real, k: nat)
    requires |p0| == n
    ensures |Iterate(kernel, n, p0, alpha, k)| == n
  {}

  /** Every iterate is a probability vector and keeps at least alpha times the seed weight. */
  lemma {:induction false} IterateIsDistribution(kernel: Kernel, n: nat, p0: seq<real>, alpha: real, k: nat)
    requires Stochastic(kernel, n) && |p0| == n && Distribution(p0) && 0.0 <= alpha <= 1.0
    ensures |Iterate(kernel, n, p0, alpha, k)| == n
    ensures Distribution(Iterate(kernel, n, p0, alpha, k))
    ensures forall i :: 0 <= i < n ==> Iterate(kernel, n, p0, alpha, k)[i] >= alpha * p0[i]
  {
    if k == 0 {
      forall i | 0 <= i < |p0| ensures p0[i] >= alpha * p0[i] {
        ScaleMonotone(p0[i], alpha, 1.0);
      }
    } else {
      IterateIsDistribution(kernel, n, p0, alpha, k - 1);
      StepIsDistribution(kernel, n, p0, Iterate(kernel, n, p0, alpha, k - 1), alpha);
    }
  }

  lemma StepIsDistribution(kernel: Kernel, n: nat, p0: seq<real>, p: seq<real>, alpha: real)
    requires Stochastic(kernel, n) && |p0| == |p| == n && 0.0 <= alpha <= 1.0
    requires Distribution(p0) && Distribution(p)
    ensures Distribution(Step(kernel, n, p0, p, alpha))
    ensures forall i :: 0 <= i < n ==> Step(kernel, n, p0, p, alpha)[i] >= alpha * p0[i]
  {
    StepMass(kernel, n, p0, p, alpha);
    forall v | 0 <= v < n ensures Step(kernel, n, p0, p, alpha)[v] >= alpha * p0[v] >= 0.0 {
      StepFloor(kernel, n, p0, p, alpha, v);
      ProductNonnegative(alpha, p0[v]);
    }
  }

  lemma ReceivedGap(kernel: Kernel, n: nat, p: seq<real>, q: seq<real>, v: nat)
    requires Stochastic(kernel, n) && v < n
    ensures Abs(Received(kernel, n, Entries(p))(v) - Received(kernel, n, Entries(q))(v)) <= Received(kernel, n, Gap(p, q))(v)
  {
    var diff := u => At(p, u) - At(q, u);
    var signed := Inflow(kernel, n, diff, v);
    forall u | 0 <= u < n
      ensures Inflow(kernel, n, Entries(p), v)(u) == signed(u) + Inflow(kernel, n, Entries(q), v)(u)
    {
      SplitProduct(At(p, u), At(q, u), kernel(u, v));
    }
    SumAdd(signed, Inflow(kernel, n, Entries(q), v), Inflow(kernel, n, Entries(p), v), n);
    forall u | 0 <= u < n ensures Inflow(kernel, n, Gap(p, q), v)(u) == Abs(signed(u)) {
      AbsScale(kernel(u, v), diff(u));
    }
    SumAbs(signed, Inflow(kernel, n, Gap(p, q), v), n);
  }

  lemma SplitProduct(x: real, y: real, c: real)
    ensures x * c == (x - y) * c + y * c
  {}

  lemma MixedGap(beta: real, x: real, y: real, common: real, bound: real)
    requires beta >= 0.0 && Abs(x - y) <= bound
    ensures Abs((beta * x + common) - (beta * y + common)) <= beta * bound
  {
    assert (beta * x + common) - (beta * y + common) == beta * (x - y);
    AbsScale(beta, x - y);
    ScaleMonotone(beta, Abs(x - y), bound);
  }

  lemma StepGap(kernel: Kernel, n: nat, p0: seq<real>, p: seq<real>, q: seq<real>, alpha: real, v: nat)
    requires Stochastic(kernel, n) && |p0| == |p| == |q| == n && 0.0 <= alpha <= 1.0 && v < n
    ensures Gap(Step(kernel, n, p0, p, alpha), Step(kernel, n, p0, q, alpha))(v)
         <= Scaled(1.0 - alpha, Received(kernel, n, Gap(p, q)))(v)
  {
    ReceivedGap(kernel, n, p, q, v);
    StepEntry(kernel, n, p0, p, alpha, v);
    StepEntry(kernel, n, p0, q, alpha, v);
    MixedGap(1.0 - alpha, Received(kernel, n, Entries(p))(v), Received(kernel, n, Entries(q))(v),
             alpha * p0[v], Received(kernel, n, Gap(p, q))(v));
  }

  lemma GapBoundsDistance(kernel: Kernel, n: nat, beta: real, p: seq<real>, q: seq<real>, p': seq<real>, q': seq<real>)
    requires Stochastic(kernel, n) && |p| == |q| == |p'| == |q'| == n
    requires forall v :: 0 <= v < n ==> Gap(p', q')(v) <= Scaled(beta, Received(kernel, n, Gap(p, q)))(v)
    ensures Distance(p', q') <= beta * Distance(p, q)
  {
    SumBoundedByScaled(Gap(p', q'), beta, Received(kernel, n, Gap(p, q)), n);
    SpreadConserves(kernel, n, Gap(p, q));
  }

  /** Any two vectors come closer by the factor 1-alpha in one step. */
  lemma StepContracts(kernel: Kernel, n: nat, p0: seq<real>, p: seq<real>, q: seq<real>, alpha: real)
    requires Stochastic(kernel, n) && |p0| == |p| == |q| == n && 0.0 <= alpha <= 1.0
    ensures Distance(Step(kernel, n, p0, p, alpha), Step(kernel, n, p0, q, alpha)) <= (1.0 - alpha) * Distance(p, q)
  {
    var p', q' := Step(kernel, n, p0, p, alpha), Step(kernel, n, p0, q, alpha);
    forall v | 0 <= v < n
      ensures Gap(p', q')(v) <= Scaled(1.0 - alpha, Received(kernel, n, Gap(p, q)))(v)
    {
      StepGap(kernel, n, p0, p, q, alpha, v);
    }
    GapBoundsDistance(kernel, n, 1.0 - alpha, p, q, p', q');
  }

  lemma DistanceTriangle(p: seq<real>, q: seq<real>, r: seq<real>)
    requires |p| == |q| == |r|
    ensures Distance(p, r) <= Distance(p, q) + Distance(q, r)
  {
    var both := i => Gap(p, q)(i) + Gap(q, r)(i);
    SumAdd(Gap(p, q), Gap(q, r), both, |p|);
    SumMonotone(Gap(p, r), both, |p|);
  }

  lemma DistanceSymmetric(p: seq<real>, q: seq<real>)
    requires |p| == |q|
    ensures Distance(p, q) == Distance(q, p) >= 0.0
  {
    SumCongruence(Gap(p, q), Gap(q, p), |p|);
    SumNonnegative(Gap(p, q), |p|);
  }

  lemma KeptGap(alpha: real, x: real, y: real)
    requires 0.0 <= alpha <= 1.0 && x >= 0.0 && y >= 0.0
    ensures Abs(x - ((1.0 - alpha) * y + alpha * x)) <= (1.0 - alpha) * (x + y)
  {
    assert x - ((1.0 - alpha) * y + alpha * x) == (1.0 - alpha) * (x - y);
    AbsScale(1.0 - alpha, x - y);
    ScaleMonotone(1.0 - alpha, Abs(x - y), x + y);
  }

  lemma FirstStepGap(kernel: Kernel, n: nat, p0: seq<real>, alpha: real, v: nat)
    requires Stochastic(kernel, n) && |p0| == n && 0.0 <= alpha <= 1.0 && v < n
    requires forall i :: 0 <= i < |p0| ==> p0[i] >= 0.0
    ensures Gap(p0, Step(kernel, n, p0, p0, alpha))(v)
         <= Scaled(1.0 - alpha, Plus(Entries(p0), Received(kernel, n, Entries(p0))))(v)
  {
    ReceivedNonnegative(kernel, n, Entries(p0), v);
    StepEntry(kernel, n, p0, p0, alpha, v);
    KeptGap(alpha, p0[v], Received(kernel, n, Entries(p0))(v));
  }

  /** The first step moves at most 2*(1-alpha): it keeps alpha of p0 in place. */
  lemma FirstStep(kernel: Kernel, n: nat, p0: seq<real>, alpha: real)
    requires Stochastic(kernel, n) && |p0| == n && Distribution(p0) && 0.0 <= alpha <= 1.0
    ensures Distance(p0, Step(kernel, n, p0, p0, alpha)) <= (1.0 - alpha) * 2.0
  {
    var w, received := Entries(p0), Received(kernel, n, Entries(p0));
    var moved := Gap(p0, Step(kernel, n, p0, p0, alpha));
    SpreadConserves(kernel, n, w);
    SumAdd(w, received, Plus(w, received), n);
    forall v | 0 <= v < n ensures moved(v) <= Scaled(1.0 - alpha, Plus(w, received))(v) {
      FirstStepGap(kernel, n, p0, alpha, v);
    }
    SumBoundedByScaled(moved, 1.0 - alpha, Plus(w, received), n);
  }

  /** The diff measured by iteration k+1 is at most 2*(1-alpha)^(k+1). */
  lemma {:induction false} SuccessiveDifference(kernel: Kernel, n: nat, p0: seq<real>, alpha: real, k: nat)
    requires Stochastic(kernel, n) && |p0| == n && Distribution(p0) && 0.0 <= alpha <= 1.0
    ensures |Iterate(kernel, n, p0, alpha, k)| == |Iterate(kernel, n, p0, alpha, k + 1)| == n
    ensures Distance(Iterate(kernel, n, p0, alpha, k), Iterate(kernel, n, p0, alpha, k + 1))
         <= 2.0 * Power(1.0 - alpha, k + 1)
  {
    IterateLength(kernel, n, p0, alpha, k);
    if k == 0 {
      FirstStep(kernel, n, p0, alpha);
    } else {
      SuccessiveDifference(kernel, n, p0, alpha, k - 1);
      StepContracts(kernel, n, p0, Iterate(kernel, n, p0, alpha, k - 1), Iterate(kernel, n, p0, alpha, k), alpha);
    }
  }

  /** With the default alpha the eighteenth iteration is always under the 1e-5 tolerance. */
  lemma DefaultsConverge(kernel: Kernel, n: nat, p0: seq<real>)
    requires Stochastic(kernel, n) && |p0| == n && Distribution(p0)
    ensures |Iterate(kernel, n, p0, 0.5, 17)| == |Iterate(kernel, n, p0, 0.5, 18)| == n
    ensures Distance(Iterate(kernel, n, p0, 0.5, 17), Iterate(kernel, n, p0, 0.5, 18)) < 0.00001
  {
    SuccessiveDifference(kernel, n, p0, 0.5, 17);
    PowerDoubles(3); PowerDoubles(6); PowerDoubles(12);
    assert Power(0.5, 6) * 64.0 == 1.0;
    assert Power(0.5, 12) * 4096.0 == 1.0;
    PowerAdds(12, 6);
    assert Power(0.5, 18) * 262144.0 == 1.0;
  }

  lemma {:induction false} PowerAdds(a: nat, b: nat)
    ensures Power(0.5, a + b) == Power(0.5, a) * Power(0.5, b)
  {
    if b > 0 { PowerAdds(a, b - 1); }
  }

  lemma PowerDoubles(a: nat)
    ensures Power(0.5, 2 * a) == Power(0.5, a) * Power(0.5, a)
  {
    PowerAdds(a, a);
  }

  /** Stopping error: the result of a step that moved by diff is within
      (1-alpha)/alpha * diff of every fixed point. */
  lemma StoppingError(kernel: Kernel, n: nat, p0: seq<real>, p: seq<real>, fixed: seq<real>, alpha: real)
    requires Stochastic(kernel, n) && |p0| == |p| == |fixed| == n && 0.0 < alpha <= 1.0
    requires Step(kernel, n, p0, fixed, alpha) == fixed
    ensures Distance(Step(kernel, n, p0, p, alpha), fixed)
         <= (1.0 - alpha) / alpha * Distance(p, Step(kernel, n, p0, p, alpha))
  {
    var p' := Step(kernel, n, p0, p, alpha);
    StepContracts(kernel, n, p0, p, fixed, alpha);
    DistanceTriangle(p, p', fixed);
    AbsorbError(alpha, Distance(p', fixed), Distance(p, p'), Distance(p, fixed));
  }

  lemma AbsorbError(alpha: real, e: real, d: real, f: real)
    requires 0.0 < alpha <= 1.0 && e <= (1.0 - alpha) * f && f <= d + e
    ensures e <= (1.0 - alpha) / alpha * d
  {
    var ratio := (1.0 - alpha) / alpha;
    ScaleMonotone(1.0 - alpha, f, d + e);
    Distribute(1.0 - alpha, d, e);
    Complement(alpha, e);
    QuotientIs(ratio, 1.0 - alpha, alpha);
    Associate(alpha, ratio, d);
    ScaleCancel(alpha, e, ratio * d);
  }

  lemma Complement(alpha: real, e: real)
    ensures (1.0 - alpha) * e == e - alpha * e
  {}

  /** Hence at most one fixed point: recall has a single limit to approximate. */
  lemma FixedPointUnique(kernel: Kernel, n: nat, p0: seq<real>, p: seq<real>, q: seq<real>, alpha: real)
    requires Stochastic(kernel, n) && |p0| == |p| == |q| == n && 0.0 < alpha <= 1.0
    requires Step(kernel, n, p0, p, alpha) == p && Step(kernel, n, p0, q, alpha) == q
    ensures p == q
  {
    var distance := Distance(p, q);
    StepContracts(kernel, n, p0, p, q, alpha);
    DistanceSymmetric(p, q);
    Complement(alpha, distance);
    if distance > 0.0 { ProductPositive(alpha, distance, alpha * distance); }
    ZeroDistance(p, q);
  }

  lemma ZeroDistance(p: seq<real>, q: seq<real>)
    requires |p| == |q| && Distance(p, q) <= 0.0
    ensures p == q
  {
    var gap := Gap(p, q);
    forall i | 0 <= i < |p| ensures gap(i) >= 0.0 {}
    forall i | 0 <= i < |p| ensures p[i] == q[i] {
      SumAtLeastTerm(gap, i, |p|);
      assert gap(i) == Abs(p[i] - q[i]);
    }
  }

  // ----- every later iterate

  /** L1 distance of the i-th and the j-th iterate. */
  ghost function Apart(kernel: Kernel, n: nat, p0: seq<real>, alpha: real, i: nat, j: nat): real
    requires |p0| == n
  {
    IterateLength(kernel, n, p0, alpha, i);
    IterateLength(kernel, n, p0, alpha, j);
    Distance(Iterate(kernel, n, p0, alpha, i), Iterate(kernel, n, p0, alpha, j))
  }

  lemma ApartTriangle(kernel: Kernel, n: nat, p0: seq<real>, alpha: real, i: nat, j: nat, k: nat)
    requires |p0| == n
    ensures Apart(kernel, n, p0, alpha, i, k) <= Apart(kernel, n, p0, alpha, i, j) + Apart(kernel, n, p0, alpha, j, k)
    ensures Apart(kernel, n, p0, alpha, i, j) >= 0.0
    ensures Apart(kernel, n, p0, alpha, i, i) == 0.0
  {
    IterateLength(kernel, n, p0, alpha, i);
    IterateLength(kernel, n, p0, alpha, j);
    IterateLength(kernel, n, p0, alpha, k);
    var a, b := Iterate(kernel, n, p0, alpha, i), Iterate(kernel, n, p0, alpha, j);
    DistanceTriangle(a, b, Iterate(kernel, n, p0, alpha, k));
    DistanceSymmetric(a, b);
    ZeroToItself(a);
  }

  lemma ZeroToItself(p: seq<real>)
    ensures Distance(p, p) == 0.0
  {
    var gap := Gap(p, p);
    forall i | 0 <= i < |p| ensures gap(i) == 0.0 {
      assert gap(i) == Abs(At(p, i) - At(p, i));
    }
    SumZero(gap, |p|);
  }

  lemma ApartContracts(kernel: Kernel, n: nat, p0: seq<real>, alpha: real, i: nat, j: nat)
    requires Stochastic(kernel, n) && |p0| == n && 0.0 <= alpha <= 1.0
    ensures Apart(kernel, n, p0, alpha, i + 1, j + 1) <= (1.0 - alpha) * Apart(kernel, n, p0, alpha, i, j)
  {
    IterateLength(kernel, n, p0, alpha, i);
    IterateLength(kernel, n, p0, alpha, j);
    StepContracts(kernel, n, p0, Iterate(kernel, n, p0, alpha, i), Iterate(kernel, n, p0, alpha, j), alpha);
  }

  lemma LaterStep(kernel: Kernel, n: nat, p0: seq<real>, alpha: real, k: nat, j: nat)
    requires Stochastic(kernel, n) && |p0| == n && 0.0 <= alpha <= 1.0
    requires alpha * Apart(kernel, n, p0, alpha, k + 1, j) <= (1.0 - alpha) * Apart(kernel, n, p0, alpha, k, k + 1)
    ensures alpha * Apart(kernel, n, p0, alpha, k + 1, j + 1) <= (1.0 - alpha) * Apart(kernel, n, p0, alpha, k, k + 1)
  {
    ApartTriangle(kernel, n, p0, alpha, k, k + 1, j);
    ApartContracts(kernel, n, p0, alpha, k, j);
    RoomLeft(alpha, 1.0 - alpha, Apart(kernel, n, p0, alpha, k, k + 1), Apart(kernel, n, p0, alpha, k + 1, j),
             Apart(kernel, n, p0, alpha, k, j), Apart(kernel, n, p0, alpha, k + 1, j + 1));
  }

  /** The room that is left, fixed point or none: once an iteration moved by diff, no later iterate,
      however late, is further than (1-alpha)/alpha * diff from its result. */
  lemma {:induction false} LaterIterates(kernel: Kernel, n: nat, p0: seq<real>, alpha: real, k: nat, j: nat)
    requires Stochastic(kernel, n) && |p0| == n && 0.0 <= alpha <= 1.0 && j > k
    ensures alpha * Apart(kernel, n, p0, alpha, k + 1, j) <= (1.0 - alpha) * Apart(kernel, n, p0, alpha, k, k + 1)
    decreases j
  {
    if j == k + 1 {
      ApartTriangle(kernel, n, p0, alpha, k, k + 1, j);
      ApartTriangle(kernel, n, p0, alpha, j, j, j);
      ProductNonnegative(1.0 - alpha, Apart(kernel, n, p0, alpha, k, k + 1));
    } else {
      LaterIterates(kernel, n, p0, alpha, k, j - 1);
      LaterStep(kernel, n, p0, alpha, k, j - 1);
    }
  }

  lemma RoomLeft(alpha: real, beta: real, d: real, e: real, f: real, g: real)
    requires 0.0 <= alpha && 0.0 <= beta && alpha + beta == 1.0
    requires alpha * e <= beta * d && f <= d + e && g <= beta * f
    ensures alpha * g <= beta * d
  {
    ShareBelow(alpha, beta, d, e, f);
    PassOn(alpha, beta, d, f, g);
  }

  lemma PassOn(alpha: real, beta: real, d: real, f: real, g: real)
    requires 0.0 <= alpha && 0.0 <= beta && alpha * f <= d && g <= beta * f
    ensures alpha * g <= beta * d
  {
    ScaleMonotone(beta, alpha * f, d);
    ScaleMonotone(alpha, g, beta * f);
    Exchange(alpha, beta, f);
  }

  lemma ShareBelow(alpha: real, beta: real, d: real, e: real, f: real)
    requires 0.0 <= alpha && alpha + beta == 1.0 && alpha * e <= beta * d && f <= d + e
    ensures alpha * f <= d
  {
    ScaleMonotone(alpha, f, d + e);
    Distribute(alpha, d, e);
    Whole(alpha, beta, d);
  }

  lemma Whole(alpha: real, beta: real, d: real)
    requires alpha + beta == 1.0
    ensures alpha * d + beta * d == d
  {
    Distribute(d, alpha, beta);
  }

  lemma Exchange(x: real, y: real, z: real)
    ensures x * (y * z) == y * (x * z)
  {}

  lemma ReceivedAtLeast(kernel: Kernel, n: nat, p: seq<real>, u: nat, v: nat)
    requires Stochastic(kernel, n) && v < n && u < n && |p| == n && p[u] > 0.0 && kernel(u, v) > 0.0
    requires forall i :: 0 <= i < |p| ==> p[i] >= 0.0
    ensures Received(kernel, n, Entries(p))(v) > 0.0
  {
    forall w | 0 <= w < n ensures Inflow(kernel, n, Entries(p), v)(w) >= 0.0 {
      ProductNonnegative(p[w], kernel(w, v));
    }
    SumAtLeastTerm(Inflow(kernel, n, Entries(p), v), u, n);
    assert p[u] * kernel(u, v) > 0.0;
  }

  lemma MixPositive(alpha: real, x: real, y: real)
    requires 0.0 < alpha < 1.0 && x >= 0.0 && y >= 0.0 && (x > 0.0 || y > 0.0)
    ensures (1.0 - alpha) * x + alpha * y > 0.0
  {
    ProductNonnegative(1.0 - alpha, x);
    ProductNonnegative(alpha, y);
    if x > 0.0 { assert (1.0 - alpha) * x > 0.0; } else { assert alpha * y > 0.0; }
  }
}
