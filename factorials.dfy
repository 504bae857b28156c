/** Exact integer counting functions shared by the unranking and counting models. */
module Factorials {

  /** Largest values of the C types `int` and `unsigned int` (32-bit). */
  const INT_MAX: nat := 0x7fff_ffff
  const UINT_MAX: nat := 0xffff_ffff

  function Fact(n: nat): (f: nat)
    ensures f >= 1
  {
    if n == 0 then 1 else n * Fact(n - 1)
  }

  lemma FactStep(n: nat)
    requires n >= 1
    ensures Fact(n) == Fact(n - 1) * n
  {
  }

  /** The falling factorial P(n, k) = n·(n−1)·…·(n−k+1): the number of
      k-permutations of n elements. It vanishes exactly when k exceeds n. */
  function Falling(n: nat, k: nat): (p: nat)
    ensures p > 0 <==> k <= n
  {
    if k == 0 then 1 else if n == 0 then 0 else n * Falling(n - 1, k - 1)
  }

  /** Binomial coefficient by Pascal's rule. */
  function Binomial(n: nat, k: nat): nat
  {
    if k == 0 then 1 else if n == 0 then 0 else Binomial(n - 1, k - 1) + Binomial(n - 1, k)
  }

  /** Sum of a sequence of frequencies, folded from the left as a C loop does. */
  function Sum(f: seq<nat>): nat
  {
    if f == [] then 0 else Sum(f[..|f| - 1]) + f[|f| - 1]
  }

  /** Peeling off the last factor: P(n, k+1) = P(n, k)·(n − k); with int
      arithmetic this holds for every n and k, the factor being ≤ 0 once k ≥ n. */
  lemma {:induction false} FallingStep(n: nat, k: nat)
    ensures Falling(n, k + 1) == Falling(n, k) * (n - k)
  {
    if k > 0 && n > 0 {
      FallingStep(n - 1, k - 1);
      var w := Falling(n - 1, k - 1);
      assert Falling(n - 1, k) == w * (n - k);
      MulAssoc(n, w, n - k);
    }
  }

  /** P(n, n) = n! */
  lemma {:induction false} FallingFull(n: nat)
    ensures Falling(n, n) == Fact(n)
  {
    if n > 0 { FallingFull(n - 1); }
  }

  /** P(n, a + b) = P(n, a)·P(n − a, b). */
  lemma {:induction false} FallingSplit(n: nat, a: nat, b: nat)
    requires a <= n
    ensures Falling(n, a + b) == Falling(n, a) * Falling(n - a, b)
  {
    if a > 0 {
      FallingSplit(n - 1, a - 1, b);
      assert a + b - 1 == (a - 1) + b;
      MulAssoc(n, Falling(n - 1, a - 1), Falling(n - a, b));
    }
  }

  /** r! = (r!/j!)·j!, where r!/j! is the falling factorial P(r, r − j). */
  lemma FactRatio(r: nat, j: nat)
    requires j <= r
    ensures Fact(r) == Falling(r, r - j) * Fact(j)
  {
    FallingSplit(r, r - j, j);
    FallingFull(r);
    FallingFull(j);
  }

  /** Pascal's rule for the falling factorial: P(n, k) = P(n−1, k) + k·P(n−1, k−1). */
  lemma FallingPascal(n: nat, k: nat)
    requires 1 <= n && 1 <= k
    ensures Falling(n, k) == Falling(n - 1, k) + k * Falling(n - 1, k - 1)
  {
    FallingStep(n - 1, k - 1);
    var w := Falling(n - 1, k - 1);
    assert Falling(n - 1, k) == w * (n - k);
    assert w * (n - k) + k * w == n * w;
  }

  /** P(n, k) = C(n, k)·k! */
  lemma {:induction false} BinomialFalling(n: nat, k: nat)
    ensures Falling(n, k) == Binomial(n, k) * Fact(k)
  {
    if k > 0 && n > 0 {
      BinomialFalling(n - 1, k);
      BinomialFalling(n - 1, k - 1);
      FallingPascal(n, k);
      PascalAlgebra(Binomial(n - 1, k), Binomial(n - 1, k - 1), k, Fact(k - 1));
    }
  }

  lemma PascalAlgebra(b1: int, b0: int, k: int, f: int)
    ensures b1 * (k * f) + k * (b0 * f) == (b1 + b0) * (k * f)
  {
  }

  /** C(n, k) vanishes above the diagonal, is 1 on it and n at k = 1. */
  lemma {:induction false} BinomialEdges(n: nat, k: nat)
    ensures k > n ==> Binomial(n, k) == 0
    ensures Binomial(n, n) == 1
    ensures Binomial(n, 1) == n
  {
    if n > 0 {
      if k > 0 { BinomialEdges(n - 1, k - 1); }
      BinomialEdges(n - 1, k);
      BinomialEdges(n - 1, n);
      BinomialEdges(n - 1, n - 1);
      BinomialEdges(n - 1, 1);
    }
  }

  // Ring and division facts

  lemma MulMono(a: nat, b: nat, w: nat)
    requires a <= b
    ensures a * w <= b * w
  {
  }

  lemma MulAssoc(a: int, b: int, c: int)
    ensures a * (b * c) == (a * b) * c
  {
  }

  lemma MulCancel(x: int, y: int, w: int)
    requires w > 0 && x * w < y * w
    ensures x < y
  {
  }

  lemma MulBetween(d: int, w: int)
    requires w > 0 && -w < d * w < w
    ensures d == 0
  {
  }

  /** Division with remainder has a unique quotient and remainder. */
  lemma DivModUnique(a: nat, w: nat, q: nat, r: nat)
    requires w > 0 && r < w && a == q * w + r
    ensures a / w == q && a % w == r
  {
    var q0, r0 := a / w, a % w;
    assert (q - q0) * w == r0 - r;
    MulBetween(q - q0, w);
  }

  lemma DivBound(a: nat, w: nat, n: nat)
    requires w > 0 && a < n * w
    ensures a / w < n && a % w < w
  {
    assert a / w * w <= a;
    MulCancel(a / w, n, w);
  }

  lemma DivMod(a: nat, w: nat)
    requires w > 0
    ensures a == a / w * w + a % w
  {
  }

  lemma Distribute(a: int, x: int, y: int)
    ensures a * x + a * y == a * (x + y)
  {
  }

  lemma Regroup(f: int, b: int, c: int, a: int)
    ensures f * (b * c) * a == f * (b * a) * c
  {
  }

  lemma SumTimes(x: int, y: int, a: int)
    ensures (x + y) * a == x * a + y * a
  {
  }
}
