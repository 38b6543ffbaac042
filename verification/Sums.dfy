/** Finite sums of real-valued functions, shared by the numeric modules. */
module Sums {
  import opened Nonlinear

  function Abs(x: real): real {
    if x < 0.0 then -x else x
  }

  /** f(0) + f(1) + ... + f(n-1) */
  function Sum(f: int -> real, n: nat): real {
    if n == 0 then 0.0 else Sum(f, n - 1) + f(n - 1)
  }

  lemma AbsScale(c: real, x: real)
    requires c >= 0.0
    ensures Abs(c * x) == c * Abs(x)
  {}

  lemma {:induction false} SumCongruence(f: int -> real, g: int -> real, n: nat)
    requires forall i :: 0 <= i < n ==> f(i) == g(i)
    ensures Sum(f, n) == Sum(g, n)
  {
    if n > 0 { SumCongruence(f, g, n - 1); }
  }

  lemma {:induction false} SumMonotone(f: int -> real, g: int -> real, n: nat)
    requires forall i :: 0 <= i < n ==> f(i) <= g(i)
    ensures Sum(f, n) <= Sum(g, n)
  {
    if n > 0 { SumMonotone(f, g, n - 1); }
  }

  lemma {:induction false} SumNonnegative(f: int -> real, n: nat)
    requires forall i :: 0 <= i < n ==> f(i) >= 0.0
    ensures Sum(f, n) >= 0.0
  {
    if n > 0 { SumNonnegative(f, n - 1); }
  }

  lemma {:induction false} SumZero(f: int -> real, n: nat)
    requires forall i :: 0 <= i < n ==> f(i) == 0.0
    ensures Sum(f, n) == 0.0
  {
    if n > 0 { SumZero(f, n - 1); }
  }

  lemma {:induction false} SumAdd(f: int -> real, g: int -> real, h: int -> real, n: nat)
    requires forall i :: 0 <= i < n ==> h(i) == f(i) + g(i)
    ensures Sum(h, n) == Sum(f, n) + Sum(g, n)
  {
    if n > 0 { SumAdd(f, g, h, n - 1); }
  }

  lemma {:induction false} SumScale(c: real, f: int -> real, h: int -> real, n: nat)
    requires forall i :: 0 <= i < n ==> h(i) == c * f(i)
    ensures Sum(h, n) == c * Sum(f, n)
  {
    if n > 0 { SumScale(c, f, h, n - 1); }
  }

  function Scaled(c: real, f: int -> real): int -> real { i => c * f(i) }

  function Plus(f: int -> real, g: int -> real): int -> real { i => f(i) + g(i) }

  lemma SumOfCombination(c: real, f: int -> real, d: real, g: int -> real, n: nat)
    ensures Sum(Plus(Scaled(c, f), Scaled(d, g)), n) == c * Sum(f, n) + d * Sum(g, n)
  {
    SumScale(c, f, Scaled(c, f), n);
    SumScale(d, g, Scaled(d, g), n);
    SumAdd(Scaled(c, f), Scaled(d, g), Plus(Scaled(c, f), Scaled(d, g)), n);
  }

  lemma SumBoundedByScaled(f: int -> real, c: real, g: int -> real, n: nat)
    requires forall i :: 0 <= i < n ==> f(i) <= Scaled(c, g)(i)
    ensures Sum(f, n) <= c * Sum(g, n)
  {
    SumMonotone(f, Scaled(c, g), n);
    SumScale(c, g, Scaled(c, g), n);
  }

  lemma {:induction false} SumConstant(c: real, f: int -> real, n: nat)
    requires forall i :: 0 <= i < n ==> f(i) == c
    ensures Sum(f, n) == c * n as real
  {
    if n > 0 {
      SumConstant(c, f, n - 1);
      assert n as real == (n - 1) as real + 1.0;
      OneMore(c, (n - 1) as real, n as real);
    }
  }

  lemma OneMore(c: real, m: real, next: real)
    requires next == m + 1.0
    ensures c * next == c * m + c
  {}

  lemma {:induction false} SumSingle(f: int -> real, k: nat, n: nat)
    requires k < n
    requires forall i :: 0 <= i < n && i != k ==> f(i) == 0.0
    ensures Sum(f, n) == f(k)
  {
    if k == n - 1 { SumZero(f, n - 1); } else { SumSingle(f, k, n - 1); }
  }

  lemma {:induction false} SumAbs(f: int -> real, g: int -> real, n: nat)
    requires forall i :: 0 <= i < n ==> g(i) == Abs(f(i))
    ensures Abs(Sum(f, n)) <= Sum(g, n)
  {
    if n > 0 { SumAbs(f, g, n - 1); }
  }

  /** A non-negative sum dominates each of its terms. */
  lemma {:induction false} SumAtLeastTerm(f: int -> real, k: nat, n: nat)
    requires k < n
    requires forall i :: 0 <= i < n ==> f(i) >= 0.0
    ensures Sum(f, n) >= f(k)
  {
    if k == n - 1 { SumNonnegative(f, n - 1); } else { SumAtLeastTerm(f, k, n - 1); }
  }

  /** A non-zero sum has a non-zero term. */
  lemma {:induction false} NonzeroTerm(f: int -> real, n: nat) returns (k: nat)
    requires Sum(f, n) != 0.0
    ensures k < n && f(k) != 0.0
  {
    if f(n - 1) != 0.0 { k := n - 1; } else { k := NonzeroTerm(f, n - 1); }
  }

  function RowSum(g: (int, int) -> real, m: nat): int -> real {
    i => Sum(j => g(i, j), m)
  }

  function ColumnSum(g: (int, int) -> real, n: nat): int -> real {
    j => Sum(i => g(i, j), n)
  }

  /** Double sums may be taken in either order. */
  lemma {:induction false} SumSwap(g: (int, int) -> real, n: nat, m: nat)
    ensures Sum(RowSum(g, m), n) == Sum(ColumnSum(g, n), m)
  {
    if n == 0 {
      SumZero(ColumnSum(g, 0), m);
    } else {
      SumSwap(g, n - 1, m);
      var last := j => g(n - 1, j);
      SumAdd(ColumnSum(g, n - 1), last, ColumnSum(g, n), m);
      SumCongruence(last, j => g(n - 1, j), m);
    }
  }
}
