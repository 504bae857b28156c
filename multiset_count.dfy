/** The number of length-j arrangements of a multiset with label
    frequencies f, defined by a convolution over the last label, and the
    values that pin it down: 1 at length 0, 0 beyond Σf, P(m, j) for m
    distinct labels and the multinomial coefficient at full length. */
module MultisetCount {
  import opened Factorials

  function Min(a: nat, b: nat): nat
  {
    if a <= b then a else b
  }

  /** Arrangements(f, j): the number of length-j sequences over the labels
      0..|f|−1 in which label t occurs at most f[t] times. The last label
      occurs some c <= min(f[last], j) times and its C(j, c) placements
      leave a length-(j − c) arrangement of the other labels. */
  function Arrangements(f: seq<nat>, j: nat): nat
    decreases |f|, 0
  {
    if f == [] then (if j == 0 then 1 else 0)
    else PlaceLast(f[..|f| - 1], j, Min(f[|f| - 1], j) + 1)
  }

  /** Σ_{c < m} C(j, c)·Arrangements(g, j − c). */
  function PlaceLast(g: seq<nat>, j: nat, m: nat): nat
    requires m <= j + 1
    decreases |g|, m + 1
  {
    if m == 0 then 0
    else PlaceLast(g, j, m - 1) + Binomial(j, m - 1) * Arrangements(g, j - (m - 1))
  }

  /** Product of the factorials of the frequencies. */
  function FactProduct(f: seq<nat>): nat
  {
    if f == [] then 1 else FactProduct(f[..|f| - 1]) * Fact(f[|f| - 1])
  }

  // ---------------------------------------------------------------
  // Properties of the count

  /** A single label of frequency c arranges in exactly one way up to length c. */
  lemma {:induction false} PlaceLastEmpty(t: nat, m: nat)
    requires m <= t + 1
    ensures PlaceLast([], t, m) == if m == t + 1 then 1 else 0
  {
    if m > 0 {
      PlaceLastEmpty(t, m - 1);
      BinomialEdges(t, t);
    }
  }

  lemma ArrangementsSingle(c: nat, t: nat)
    ensures Arrangements([c], t) == if t <= c then 1 else 0
  {
    assert [c][..0] == [];
    PlaceLastEmpty(t, Min(c, t) + 1);
  }

  /** There is exactly one arrangement of length 0. */
  lemma {:induction false} ArrangementsOfNothing(f: seq<nat>)
    ensures Arrangements(f, 0) == 1
    decreases |f|
  {
    if f != [] {
      var g := f[..|f| - 1];
      ArrangementsOfNothing(g);
      assert Arrangements(f, 0) == PlaceLast(g, 0, 1);
      assert PlaceLast(g, 0, 1) == Binomial(0, 0) * Arrangements(g, 0);
    }
  }

  lemma {:induction false} PlaceLastZero(g: seq<nat>, j: nat, m: nat)
    requires m <= j + 1
    requires forall t :: j + 1 - m <= t <= j ==> Arrangements(g, t) == 0
    ensures PlaceLast(g, j, m) == 0
  {
    if m > 0 { PlaceLastZero(g, j, m - 1); }
  }

  /** No arrangement is longer than the multiset. */
  lemma {:induction false} ArrangementsBeyond(f: seq<nat>, j: nat)
    requires j > Sum(f)
    ensures Arrangements(f, j) == 0
    decreases |f|
  {
    if f != [] {
      var g, c := f[..|f| - 1], f[|f| - 1];
      forall t | j - Min(c, j) <= t <= j ensures Arrangements(g, t) == 0 {
        ArrangementsBeyond(g, t);
      }
      PlaceLastZero(g, j, Min(c, j) + 1);
    }
  }

  /** With every frequency 1 the count is the k-permutation count P(m, j). */
  lemma {:induction false} ArrangementsAllOnes(m: nat, j: nat)
    ensures Arrangements(seq(m, _ => 1), j) == Falling(m, j)
    decreases m
  {
    var f := seq(m, _ => 1);
    if m > 0 {
      var g := f[..m - 1];
      assert g == seq(m - 1, _ => 1);
      if j == 0 {
        ArrangementsOfNothing(f);
      } else {
        ArrangementsAllOnes(m - 1, j);
        ArrangementsAllOnes(m - 1, j - 1);
        BinomialEdges(j, 1);
        assert Arrangements(f, j) == PlaceLast(g, j, 2);
        assert PlaceLast(g, j, 1) == Binomial(j, 0) * Arrangements(g, j);
        assert Arrangements(f, j) == Arrangements(g, j) + j * Arrangements(g, j - 1);
        FallingPascal(m, j);
      }
    } else {
      assert f == [];
    }
  }

  /** Using every element: Arrangements(f, Σf) is the multinomial coefficient
      (Σf)! / ∏ f[t]!. */
  lemma {:induction false} ArrangementsFull(f: seq<nat>)
    ensures Arrangements(f, Sum(f)) * FactProduct(f) == Fact(Sum(f))
    decreases |f|
  {
    if f != [] {
      var g, c := f[..|f| - 1], f[|f| - 1];
      var N := Sum(g);
      ArrangementsFull(g);
      LastLabelFull(g, c);
      BinomialFalling(N + c, c);
      FactRatio(N + c, N);
      assert N + c - N == c;
      MultinomialAlgebra(Binomial(N + c, c), Arrangements(g, N), FactProduct(g), Fact(c), Fact(N));
    }
  }

  /** Filling the whole length, the last label must take all c of its copies. */
  lemma LastLabelFull(g: seq<nat>, c: nat)
    ensures Arrangements(g + [c], Sum(g) + c) == Binomial(Sum(g) + c, c) * Arrangements(g, Sum(g))
  {
    var f, N := g + [c], Sum(g);
    assert f[..|f| - 1] == g && f[|f| - 1] == c;
    forall t | N + c + 1 - c <= t <= N + c ensures Arrangements(g, t) == 0 {
      ArrangementsBeyond(g, t);
    }
    PlaceLastZero(g, N + c, c);
    assert Min(c, N + c) == c;
    assert N + c - c == N;
  }

  lemma MultinomialAlgebra(b: int, a: int, pg: int, fc: int, fn: int)
    requires a * pg == fn
    ensures b * a * (pg * fc) == b * fc * fn
  {
    assert b * a * (pg * fc) == b * fc * (a * pg);
  }
}
