/** Binomial coefficients, partial row sums, and how those sums compare. */
module Binomial {

  /** Pascal's triangle. */
  function Comb(n: nat, k: nat): nat {
    if k == 0 then 1 else if n == 0 then 0 else Comb(n - 1, k - 1) + Comb(n - 1, k)
  }

  function Factorial(n: nat): nat {
    if n == 0 then 1 else n * Factorial(n - 1)
  }

  function Pow2(n: nat): nat {
    if n == 0 then 1 else 2 * Pow2(n - 1)
  }

  lemma {:induction false} CombBeyondRow(n: nat, k: nat)
    requires k > n
    ensures Comb(n, k) == 0
  {
    if n > 0 { CombBeyondRow(n - 1, k - 1); CombBeyondRow(n - 1, k); }
  }

  lemma {:induction false} CombDiagonal(n: nat)
    ensures Comb(n, n) == 1
  {
    if n > 0 { CombDiagonal(n - 1); CombBeyondRow(n - 1, n); }
  }

  lemma {:induction false} CombSymmetric(n: nat, k: nat)
    requires k <= n
    ensures Comb(n, k) == Comb(n, n - k)
  {
    if k == 0 || k == n {
      CombDiagonal(n);
    } else {
      CombSymmetric(n - 1, k - 1);
      CombSymmetric(n - 1, k);
    }
  }

  lemma {:induction false} CombPositive(n: nat, k: nat)
    requires k <= n
    ensures Comb(n, k) > 0
  {
    if k > 0 { CombPositive(n - 1, k - 1); }
  }

  /** Absorption: neighbouring entries of a row are in the ratio (n-k) : (k+1). */
  lemma {:induction false} CombAbsorb(n: nat, k: nat)
    requires k <= n
    ensures (k + 1) * Comb(n, k + 1) == (n - k) * Comb(n, k)
  {
    if k == n {
      CombBeyondRow(n, n + 1);
    } else if k == 0 {
      CombAbsorb(n - 1, 0);
    } else {
      CombAbsorb(n - 1, k);
      CombAbsorb(n - 1, k - 1);
      AbsorbStep(n, k, Comb(n - 1, k - 1), Comb(n - 1, k), Comb(n - 1, k + 1));
    }
  }

  lemma AbsorbStep(n: int, k: int, a: int, b: int, c: int)
    requires (k + 1) * c == (n - 1 - k) * b && k * b == (n - k) * a
    ensures (k + 1) * (b + c) == (n - k) * (a + b)
  {
    assert (k + 1) * (b + c) == k * b + b + (k + 1) * c;
    assert (n - k) * (a + b) == (n - k) * a + (n - 1 - k) * b + b;
  }

  /** math.comb: the factorial quotient. */
  lemma {:induction false} CombFactorial(n: nat, k: nat)
    requires k <= n
    ensures Comb(n, k) * (Factorial(k) * Factorial(n - k)) == Factorial(n)
  {
    if k == n {
      CombDiagonal(n);
    } else if k > 0 {
      CombFactorial(n - 1, k - 1);
      CombFactorial(n - 1, k);
      var x, y := Factorial(k - 1), Factorial(n - k - 1);
      CombRecombine(Comb(n - 1, k - 1), Comb(n - 1, k), k, n - k, x, y, Factorial(n - 1));
    }
  }

  lemma CombRecombine(a: nat, b: nat, k: nat, m: nat, x: nat, y: nat, f: nat)
    requires a * (x * (m * y)) == f && b * ((k * x) * y) == f
    ensures (a + b) * ((k * x) * (m * y)) == (k + m) * f
  {
    assert a * ((k * x) * (m * y)) == k * (a * (x * (m * y)));
    assert b * ((k * x) * (m * y)) == m * (b * ((k * x) * y));
  }

  /** Rows do not fall up to the middle. */
  lemma CombRises(n: nat, k: nat)
    requires 2 * k + 1 <= n
    ensures Comb(n, k) <= Comb(n, k + 1)
  {
    CombAbsorb(n, k);
    SmallerFactor(n - k, k + 1, Comb(n, k), Comb(n, k + 1));
  }

  lemma SmallerFactor(p: nat, q: nat, a: nat, b: nat)
    requires p >= q > 0 && q * b == p * a
    ensures a <= b
  {
    assert p * a == q * a + (p - q) * a;
    assert q * (b - a) >= 0;
  }

  // ----- partial row sums

  /** The sum of the first t entries of row n. */
  function Low(n: nat, t: nat): nat {
    if t == 0 then 0 else Low(n, t - 1) + Comb(n, t - 1)
  }

  lemma {:induction false} LowPascal(n: nat, t: nat)
    ensures Low(n + 1, t + 1) == Low(n, t + 1) + Low(n, t)
  {
    if t > 0 { LowPascal(n, t - 1); }
  }

  lemma {:induction false} LowWholeRow(n: nat)
    ensures Low(n, n + 1) == Pow2(n)
  {
    if n > 0 {
      LowWholeRow(n - 1);
      LowPascal(n - 1, n);
      CombBeyondRow(n - 1, n);
    }
  }

  lemma {:induction false} LowMonotone(n: nat, s: nat, t: nat)
    requires s <= t
    ensures Low(n, s) <= Low(n, t)
  {
    if s < t { LowMonotone(n, s, t - 1); }
  }

  /** The first t and the last n+1-t entries mirror each other. */
  lemma {:induction false} LowComplement(n: nat, t: nat)
    requires t <= n + 1
    ensures Low(n, t) + Low(n, n + 1 - t) == Pow2(n)
  {
    if t == 0 {
      LowWholeRow(n);
    } else {
      LowComplement(n, t - 1);
      CombSymmetric(n, t - 1);
    }
  }

  lemma LowTwoSteps(n: nat, t: nat)
    requires t >= 1
    ensures Low(n + 2, t + 1) == 4 * Low(n, t) + Comb(n, t) - Comb(n, t - 1)
  {
    LowPascal(n + 1, t);
    LowPascal(n, t);
    LowPascal(n, t - 1);
  }

  /** Adding one trial to each side cannot thin the lower tail: with n = 2m+d and d >= 1,
      P(X <= m) under n fair flips is at most P(Y <= m+1) under n+2. */
  lemma TailRises(m: nat, d: nat)
    requires d >= 1
    ensures 4 * Low(2 * m + d, m + 1) <= Low(2 * m + d + 2, m + 2)
  {
    LowTwoSteps(2 * m + d, m + 1);
    CombRises(2 * m + d, m);
  }

  /** One more flip thins the tail at a fixed count. */
  lemma TailThins(n: nat, t: nat)
    ensures Low(n + 1, t) <= 2 * Low(n, t)
  {
    if t > 0 { LowPascal(n, t - 1); }
  }
}
