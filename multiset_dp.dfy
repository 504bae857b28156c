/** _nperm_f_bigz of src/k_permutations.c: the factorial table, the rolling
    array folded label by label in place, and the exact ceiling divisions. */
module MultisetDP {
  import opened Factorials
  import opened MultisetCount
  import opened MultisetWords

  /** The DP's entry for length j: (r!/j!)·Arrangements(g, j). */
  function Scaled(r: nat, g: seq<nat>, j: nat): nat
    requires j <= r
  {
    Falling(r, r - j) * Arrangements(g, j)
  }

  /** mpz_cdiv_q on non-negative operands: the quotient rounded up. */
  function CeilDiv(a: nat, b: nat): nat
    requires b > 0
  {
    if a % b == 0 then a / b else a / b + 1
  }

  lemma CeilDivExact(q: nat, b: nat)
    requires b > 0
    ensures CeilDiv(q * b, b) == q
  {
    DivModUnique(q * b, b, q, 0);
  }

  /** The term of the convolution divides exactly:
      ⌈(r!/(j−c)!)·A / c!⌉ = (r!/j!)·C(j, c)·A. */
  lemma TermExact(r: nat, j: nat, c: nat, a: nat)
    requires c <= j <= r
    ensures CeilDiv(Falling(r, r - (j - c)) * a, Fact(c)) == Falling(r, r - j) * (Binomial(j, c) * a)
  {
    FallingSplit(r, r - j, c);
    assert r - (j - c) == (r - j) + c;
    BinomialFalling(j, c);
    var F, B := Falling(r, r - j), Binomial(j, c);
    assert Falling(r, r - (j - c)) == F * (B * Fact(c));
    Regroup(F, B, Fact(c), a);
    CeilDivExact(F * (B * a), Fact(c));
  }

  /** The innermost k-loop of _nperm_f_bigz: with p[0..j] holding the
      entries for the labels g, Σ_{k <= min(c, j)} ⌈p[j − k] / k!⌉ is the
      entry for length j once a label of frequency c is added. */
  method Convolve(p: array<nat>, fact: array<nat>, r: nat, g: seq<nat>, c: nat, j: nat)
    returns (s: nat)
    requires j < p.Length && j <= r
    requires forall t :: 0 <= t <= j ==> p[t] == Scaled(r, g, t)
    requires Min(c, j) < fact.Length
    requires forall t :: 0 <= t < fact.Length ==> fact[t] == Fact(t)
    ensures s == Scaled(r, g + [c], j)
  {
    ghost var F := Falling(r, r - j);
    s := 0;
    var k := 0;
    while k <= c && k <= j
      invariant 0 <= k <= j + 1 && k <= c + 1
      invariant s == F * PlaceLast(g, j, k)
    {
      ghost var A := Arrangements(g, j - k);
      assert p[j - k] == Falling(r, r - (j - k)) * A;
      TermExact(r, j, k, A);
      var term := CeilDiv(p[j - k], fact[k]);
      assert term == F * (Binomial(j, k) * A);
      Distribute(F, PlaceLast(g, j, k), Binomial(j, k) * A);
      s := s + term;
      k := k + 1;
    }
    ghost var f := g + [c];
    assert f[..|f| - 1] == g && f[|f| - 1] == c;
  }

  /** The table fact[j] = j! for j < len (mpz_mul_ui up from fact[0] = 1). */
  method FactTable(len: nat) returns (fact: array<nat>)
    requires len >= 1
    ensures fresh(fact) && fact.Length == len
    ensures forall t :: 0 <= t < len ==> fact[t] == Fact(t)
  {
    fact := new nat[len];
    fact[0] := 1;
    var j := 1;
    while j < len
      invariant 1 <= j <= len
      invariant forall t :: 0 <= t < j ==> fact[t] == Fact(t)
      modifies fact
    {
      assert fact[j - 1] == Fact(j - 1);
      FactStep(j);
      fact[j] := fact[j - 1] * j;
      j := j + 1;
    }
  }

  /** The first label of frequency c on a zeroed p: p[j] = ⌈r! / j!⌉ for
      j <= min(r, c), the rest left 0. */
  method FirstLabel(p: array<nat>, fact: array<nat>, r: nat, rfact: nat, c: nat)
    requires p.Length == r + 1 && p != fact
    requires forall t :: 0 <= t <= r ==> p[t] == 0
    requires Min(r, c) < fact.Length
    requires forall t :: 0 <= t < fact.Length ==> fact[t] == Fact(t)
    requires rfact == Fact(r)
    modifies p
    ensures forall t :: 0 <= t <= r ==> p[t] == Scaled(r, [c], t)
    ensures forall t :: 0 <= t <= r ==> p[t] == if t <= c then Fact(r) / Fact(t) else 0
  {
    var j := 0;
    while j <= r && j <= c
      invariant 0 <= j <= r + 1 && j <= c + 1
      invariant forall t :: 0 <= t < j ==> p[t] == Falling(r, r - t)
      invariant forall t :: j <= t <= r ==> p[t] == 0
      modifies p
    {
      FactRatio(r, j);
      CeilDivExact(Falling(r, r - j), Fact(j));
      p[j] := CeilDiv(rfact, fact[j]);
      j := j + 1;
    }
    forall t | 0 <= t <= r
      ensures p[t] == Scaled(r, [c], t)
      ensures p[t] == if t <= c then Fact(r) / Fact(t) else 0
    {
      ArrangementsSingle(c, t);
      if t <= c {
        FactRatio(r, t);
        DivModUnique(Fact(r), Fact(t), Falling(r, r - t), 0);
      }
    }
  }

  /** A middle label of frequency c: for j = r down to 1, p[j] is replaced by
      its convolution with the new label, which only reads p[0..j]; p[0] = r!
      stays. Returns the last sum formed (that of j = 1), or 0 when r = 0 and
      no sum is formed, where the C variable keeps its earlier value. The
      result is never used: the last label forms its own sum. */
  method FoldLabel(p: array<nat>, fact: array<nat>, r: nat, g: seq<nat>, c: nat)
    returns (ptemp: nat)
    requires p.Length == r + 1 && p != fact
    requires forall t :: 0 <= t <= r ==> p[t] == Scaled(r, g, t)
    requires Min(r, c) < fact.Length
    requires forall t :: 0 <= t < fact.Length ==> fact[t] == Fact(t)
    modifies p
    ensures forall t :: 0 <= t <= r ==> p[t] == Scaled(r, g + [c], t)
    ensures p[0] == old(p[0])
  {
    ptemp := 0;
    var j := r;
    while j > 0
      invariant 0 <= j <= r
      invariant forall t :: 0 <= t <= j ==> p[t] == Scaled(r, g, t)
      invariant forall t :: j < t <= r ==> p[t] == Scaled(r, g + [c], t)
      modifies p
    {
      ptemp := Convolve(p, fact, r, g, c, j);
      p[j] := ptemp;
      j := j - 1;
    }
    ArrangementsOfNothing(g);
    ArrangementsOfNothing(g + [c]);
  }

  /** The label loop of _nperm_f_bigz on a fresh, zeroed p[0..r]: the first
      label initialises p, the middle ones are folded in by the downward
      sweep, and the last one only forms the sum for length r. */
  method FoldLabels(f: seq<nat>, r: nat, fact: array<nat>, rfact: nat) returns (ptemp: nat)
    requires forall t :: 0 <= t < |f| ==> Min(r, f[t]) < fact.Length
    requires forall t :: 0 <= t < fact.Length ==> fact[t] == Fact(t)
    requires rfact == Fact(r)
    ensures |f| >= 1 ==> ptemp == Arrangements(f, r)
    ensures |f| == 0 ==> ptemp == 0
  {
    var p := new nat[r + 1](_ => 0);
    ptemp := 0;
    var i := 0;
    while i < |f|
      invariant 0 <= i <= |f|
      invariant i == 0 ==> ptemp == 0 && forall t :: 0 <= t <= r ==> p[t] == 0
      invariant 0 < i < |f| ==> forall t :: 0 <= t <= r ==> p[t] == Scaled(r, f[..i], t)
      invariant i == |f| >= 1 ==> ptemp == Arrangements(f, r)
      modifies p
    {
      assert f[..i + 1] == f[..i] + [f[i]];
      if i == 0 {
        FirstLabel(p, fact, r, rfact, f[0]);
        assert f[..1] == [f[0]];
        ptemp := p[r];
        assert |f| == 1 ==> f[..1] == f;
      } else if i < |f| - 1 {
        ptemp := FoldLabel(p, fact, r, f[..i], f[i]);
      } else {
        ptemp := Convolve(p, fact, r, f[..i], f[i], r);
        assert f[..i + 1] == f;
      }
      i := i + 1;
    }
  }

  /** _nperm_f_bigz: r > Σf gives 0; otherwise a rolling array
      p[j] = (r!/j!)·Arrangements(f[..i], j) is folded label by label, in
      place and sweeping j downward, with exact ceiling divisions by k!.
      The count is the number of words of length r that f allows. */
  method NPermFBigz(f: seq<nat>, r: nat) returns (count: nat)
    ensures |f| >= 1 ==> count == Arrangements(f, r) && count == |Words(f, r)|
    ensures |f| == 0 ==> count == 0
    ensures r > Sum(f) ==> count == 0
  {
    WordsCount(f, r);
    var n := 0;
    var i := 0;
    while i < |f|
      invariant 0 <= i <= |f|
      invariant n == Sum(f[..i])
    {
      assert f[..i + 1][..i] == f[..i];
      n := n + f[i];
      i := i + 1;
    }
    assert f[..|f|] == f;
    if r > n {
      if |f| >= 1 { ArrangementsBeyond(f, r); }
      return 0;
    }

    var maxf := 0;
    i := 0;
    while i < |f|
      invariant 0 <= i <= |f|
      invariant forall t :: 0 <= t < i ==> f[t] <= maxf
    {
      if f[i] > maxf {
        maxf := f[i];
      }
      i := i + 1;
    }

    var rfact := Fact(r);
    var factlen := Min(r, maxf) + 1;
    var fact := FactTable(factlen);
    count := FoldLabels(f, r, fact, rfact);
  }
}
