/** What the multiset count counts: the set of words it enumerates, and the
    proof that Arrangements(f, j) is the size of that set. */
module MultisetWords {
  import opened Factorials
  import opened MultisetCount

  /** f with one copy of label t taken away. */
  function Dec(f: seq<nat>, t: nat): seq<nat>
    requires t < |f| && f[t] > 0
  {
    f[t := f[t] - 1]
  }

  // ---------------------------------------------------------------
  // Removing the first letter: Arrangements(f, J + 1) = Σ_t Arrangements(Dec(f, t), J)

  /** Σ over the labels t < n with f[t] > 0 of Arrangements(Dec(f, t), J). */
  function FirstLetter(f: seq<nat>, J: nat, n: nat): nat
    requires n <= |f|
  {
    if n == 0 then 0
    else FirstLetter(f, J, n - 1) + (if f[n - 1] > 0 then Arrangements(Dec(f, n - 1), J) else 0)
  }

  /** Σ_{m < M} C(J, m)·Arrangements(g, J + 1 − m). */
  function Shifted(g: seq<nat>, J: nat, M: nat): nat
    requires M <= J + 2
  {
    if M == 0 then 0 else Shifted(g, J, M - 1) + Binomial(J, M - 1) * Arrangements(g, J + 1 - (M - 1))
  }

  /** Σ_{m < M} C(J, m)·FirstLetter(g, J − m, n). */
  function ByLength(g: seq<nat>, J: nat, M: nat, n: nat): nat
    requires M <= J + 1 && n <= |g|
  {
    if M == 0 then 0 else ByLength(g, J, M - 1, n) + Binomial(J, M - 1) * FirstLetter(g, J - (M - 1), n)
  }

  /** Σ over the labels t < n with g[t] > 0 of PlaceLast(Dec(g, t), J, M). */
  function ByLabel(g: seq<nat>, J: nat, M: nat, n: nat): nat
    requires M <= J + 1 && n <= |g|
  {
    if n == 0 then 0
    else ByLabel(g, J, M, n - 1) + (if g[n - 1] > 0 then PlaceLast(Dec(g, n - 1), J, M) else 0)
  }

  /** One more term of the convolution PlaceLast. */
  lemma PlaceLastStep(g: seq<nat>, j: nat, m: nat)
    requires 0 < m <= j + 1
    ensures PlaceLast(g, j, m) == PlaceLast(g, j, m - 1) + Binomial(j, m - 1) * Arrangements(g, j - (m - 1))
  {
  }

  /** One more term of the sum Shifted. */
  lemma ShiftedStep(g: seq<nat>, J: nat, M: nat)
    requires 0 < M <= J + 2
    ensures Shifted(g, J, M) == Shifted(g, J, M - 1) + Binomial(J, M - 1) * Arrangements(g, J + 1 - (M - 1))
  {
  }

  /** Pascal's rule splits the convolution for length J + 1 into the one
      for J, shifted by one, and the one for J itself. */
  lemma {:induction false} PascalSplit(g: seq<nat>, J: nat, K: nat)
    requires K <= J + 1
    ensures PlaceLast(g, J + 1, K + 1) == Shifted(g, J, K + 1) + PlaceLast(g, J, K)
  {
    PlaceLastStep(g, J + 1, K + 1);
    ShiftedStep(g, J, K + 1);
    var a := Arrangements(g, J + 1 - K);
    if K > 0 {
      PascalSplit(g, J, K - 1);
      PlaceLastStep(g, J, K);
      var b1, b2 := Binomial(J, K - 1), Binomial(J, K);
      assert Binomial(J + 1, K) == b1 + b2;
      assert J - (K - 1) == J + 1 - K;
      SumTimes(b1, b2, a);
    }
  }

  lemma {:induction false} ByLengthZero(g: seq<nat>, J: nat, M: nat)
    requires M <= J + 1
    ensures ByLength(g, J, M, 0) == 0
  {
    if M > 0 { ByLengthZero(g, J, M - 1); }
  }

  /** ByLength grows, label by label, exactly as ByLabel does. */
  lemma {:induction false} ByLengthStep(g: seq<nat>, J: nat, M: nat, n: nat)
    requires M <= J + 1 && 0 < n <= |g|
    ensures ByLength(g, J, M, n) == ByLength(g, J, M, n - 1)
      + (if g[n - 1] > 0 then PlaceLast(Dec(g, n - 1), J, M) else 0)
  {
    if M > 0 {
      ByLengthStep(g, J, M - 1, n);
      var b, x := Binomial(J, M - 1), FirstLetter(g, J - (M - 1), n - 1);
      var y := if g[n - 1] > 0 then Arrangements(Dec(g, n - 1), J - (M - 1)) else 0;
      Distribute(b, x, y);
    }
  }

  /** Exchanging the two sums. */
  lemma {:induction false} SwapSums(g: seq<nat>, J: nat, M: nat, n: nat)
    requires M <= J + 1 && n <= |g|
    ensures ByLength(g, J, M, n) == ByLabel(g, J, M, n)
  {
    if n == 0 {
      ByLengthZero(g, J, M);
    } else {
      SwapSums(g, J, M, n - 1);
      ByLengthStep(g, J, M, n);
    }
  }

  /** The shifted convolution, with every count of length x + 1 taken
      apart by its first letter (RemoveFirst on g). */
  lemma {:induction false} ShiftedByLength(g: seq<nat>, J: nat, M: nat)
    requires M <= J + 1
    ensures Shifted(g, J, M) == ByLength(g, J, M, |g|)
    decreases |g|, M + 1
  {
    if M > 0 {
      ShiftedByLength(g, J, M - 1);
      var x := J - (M - 1);
      assert J + 1 - (M - 1) == x + 1;
      RemoveFirst(g, x);
    }
  }

  /** One more label in the sum FirstLetter. */
  lemma FirstLetterStep(f: seq<nat>, J: nat, n: nat)
    requires 0 < n <= |f|
    ensures FirstLetter(f, J, n) == FirstLetter(f, J, n - 1)
      + (if f[n - 1] > 0 then Arrangements(Dec(f, n - 1), J) else 0)
  {
  }

  /** One more label in the sum ByLabel. */
  lemma ByLabelStep(g: seq<nat>, J: nat, M: nat, n: nat)
    requires M <= J + 1 && 0 < n <= |g|
    ensures ByLabel(g, J, M, n) == ByLabel(g, J, M, n - 1)
      + (if g[n - 1] > 0 then PlaceLast(Dec(g, n - 1), J, M) else 0)
  {
  }

  /** The labels before the last one: removing one of them from g + [c]
      leaves Dec(g, t) + [c], whose count is a convolution over g's. */
  lemma {:induction false} EarlierLabels(g: seq<nat>, c: nat, J: nat, n: nat)
    requires n <= |g|
    ensures FirstLetter(g + [c], J, n) == ByLabel(g, J, Min(c, J) + 1, n)
  {
    if n > 0 {
      var t, f, M := n - 1, g + [c], Min(c, J) + 1;
      EarlierLabels(g, c, J, t);
      FirstLetterStep(f, J, n);
      ByLabelStep(g, J, M, n);
      assert f[t] == g[t];
      if g[t] > 0 {
        DecAppend(g, c, t);
        LastLabelSplit(Dec(g, t), c, J);
      }
    }
  }

  lemma DecAppend(g: seq<nat>, c: nat, t: nat)
    requires t < |g| && g[t] > 0
    ensures Dec(g + [c], t) == Dec(g, t) + [c]
  {
  }

  /** Taking one copy of the last label c leaves the convolution over the
      last label with c − 1 copies. */
  lemma LastLabelTaken(g: seq<nat>, c: nat, J: nat)
    requires c > 0
    ensures Arrangements(Dec(g + [c], |g|), J) == PlaceLast(g, J, Min(c - 1, J) + 1)
  {
    assert Dec(g + [c], |g|) == g + [c - 1];
    LastLabelSplit(g, c - 1, J);
  }

  /** The count for h + [c], unfolded once over its last label. */
  lemma LastLabelSplit(h: seq<nat>, c: nat, J: nat)
    ensures Arrangements(h + [c], J) == PlaceLast(h, J, Min(c, J) + 1)
  {
    var f := h + [c];
    assert f[..|f| - 1] == h && f[|f| - 1] == c;
  }

  /** Every arrangement of length J + 1 starts with some label t that still
      has a copy, followed by an arrangement of length J of the rest. */
  lemma {:induction false} RemoveFirst(f: seq<nat>, J: nat)
    ensures Arrangements(f, J + 1) == FirstLetter(f, J, |f|)
    decreases |f|, 1
  {
    if f != [] {
      var g, c := f[..|f| - 1], f[|f| - 1];
      assert f == g + [c];
      RemoveFirstAppend(g, c, J);
    }
  }

  /** RemoveFirst for g + [c]: Pascal's rule splits the convolution over
      the last label c into the arrangements that start with an earlier
      label and those that start with the last one. */
  lemma {:induction false} RemoveFirstAppend(g: seq<nat>, c: nat, J: nat)
    ensures Arrangements(g + [c], J + 1) == FirstLetter(g + [c], J, |g| + 1)
    decreases |g| + 1, 0
  {
    var K := Min(c, J + 1);
    LastLabelSplit(g, c, J + 1);
    PascalSplit(g, J, K);
    EarlierShifted(g, c, J);
    FirstLetterLast(g, c, J);
  }

  /** The shifted half of Pascal's split counts the arrangements of g + [c]
      that start with one of g's labels. */
  lemma {:induction false} EarlierShifted(g: seq<nat>, c: nat, J: nat)
    ensures Shifted(g, J, Min(c, J + 1) + 1) == FirstLetter(g + [c], J, |g|)
    decreases |g|, J + 3
  {
    var M := Min(c, J) + 1;
    var S := Shifted(g, J, M);
    assert Shifted(g, J, Min(c, J + 1) + 1) == S by {
      if c >= J + 1 {
        BinomialEdges(J, J + 1);
        ShiftedStep(g, J, J + 2);
      }
    }
    assert S == ByLength(g, J, M, |g|) by {
      ShiftedByLength(g, J, M);
    }
    assert ByLength(g, J, M, |g|) == ByLabel(g, J, M, |g|) by {
      SwapSums(g, J, M, |g|);
    }
    EarlierLabels(g, c, J, |g|);
  }

  /** The other half counts those that start with the last label. */
  lemma FirstLetterLast(g: seq<nat>, c: nat, J: nat)
    ensures FirstLetter(g + [c], J, |g| + 1) == FirstLetter(g + [c], J, |g|) + PlaceLast(g, J, Min(c, J + 1))
  {
    var f := g + [c];
    FirstLetterStep(f, J, |g| + 1);
    assert f[|g|] == c;
    if c > 0 {
      LastLabelTaken(g, c, J);
      assert Min(c - 1, J) + 1 == Min(c, J + 1);
    }
  }

  // ---------------------------------------------------------------
  // The words themselves

  /** w uses only the labels 0..|f|−1, and label t at most f[t] times. */
  ghost predicate Fits(f: seq<nat>, w: seq<nat>)
  {
    && (forall i :: 0 <= i < |w| ==> w[i] < |f|)
    && (forall t :: 0 <= t < |f| ==> multiset(w)[t] <= f[t])
  }

  /** All words of length j over the labels 0..m−1. */
  ghost function AllWords(m: nat, j: nat): set<seq<nat>>
  {
    if j == 0 then {[]} else set x, w | 0 <= x < m && w in AllWords(m, j - 1) :: [x] + w
  }

  /** The words of length j that f allows: what _nperm_f_bigz counts. */
  ghost function Words(f: seq<nat>, j: nat): set<seq<nat>>
  {
    set w | w in AllWords(|f|, j) && Fits(f, w)
  }

  ghost predicate Over(m: nat, w: seq<nat>)
  {
    forall i :: 0 <= i < |w| ==> w[i] < m
  }

  lemma {:induction false} AllWordsMember(m: nat, j: nat, w: seq<nat>)
    ensures w in AllWords(m, j) <==> |w| == j && Over(m, w)
    decreases j
  {
    if j > 0 {
      if |w| == j && Over(m, w) {
        AllWordsMember(m, j - 1, w[1..]);
        assert [w[0]] + w[1..] == w;
      }
      if w in AllWords(m, j) {
        var x, u :| 0 <= x < m && u in AllWords(m, j - 1) && w == [x] + u;
        AllWordsMember(m, j - 1, u);
        forall i | 0 < i < |w| ensures w[i] < m {
          assert w[i] == u[i - 1];
        }
      }
    }
  }

  /** A word belongs to Words(f, j) exactly when it has length j and fits f. */
  lemma WordsMember(f: seq<nat>, j: nat, w: seq<nat>)
    ensures w in Words(f, j) <==> |w| == j && Fits(f, w)
  {
    AllWordsMember(|f|, j, w);
  }

  lemma WordsOfNothing(f: seq<nat>)
    ensures Words(f, 0) == {[]}
  {
    forall w ensures w in Words(f, 0) <==> w == [] {
      WordsMember(f, 0, w);
    }
  }

  /** A non-empty word fits f exactly when its first label has a copy left
      and the rest fits what remains. */
  lemma FitsFirst(f: seq<nat>, w: seq<nat>)
    requires |w| > 0 && w[0] < |f|
    ensures Fits(f, w) <==> f[w[0]] > 0 && Fits(Dec(f, w[0]), w[1..])
  {
    var x, u := w[0], w[1..];
    assert w == [x] + u;
    assert multiset(w) == multiset{x} + multiset(u);
    if Fits(f, w) {
      assert multiset(w)[x] >= 1;
      forall i | 0 <= i < |u| ensures u[i] < |f| {
        assert u[i] == w[i + 1];
      }
    }
    if f[x] > 0 && Fits(Dec(f, x), u) {
      forall t | 0 <= t < |f| ensures multiset(w)[t] <= f[t] {
        assert Dec(f, x)[t] == if t == x then f[t] - 1 else f[t];
      }
    }
  }

  /** The words [t] + w for w in S. */
  ghost function Prefixed(t: nat, S: set<seq<nat>>): set<seq<nat>>
  {
    set w | w in S :: [t] + w
  }

  lemma PrefixedMember(t: nat, S: set<seq<nat>>, w: seq<nat>)
    ensures w in Prefixed(t, S) <==> |w| > 0 && w[0] == t && w[1..] in S
  {
    if |w| > 0 && w[0] == t && w[1..] in S {
      assert w == [t] + w[1..];
    }
    if w in Prefixed(t, S) {
      var u :| u in S && w == [t] + u;
      assert w[1..] == u;
    }
  }

  /** Prefixing a label loses no word. */
  lemma {:induction false} PrefixedCard(t: nat, S: set<seq<nat>>)
    ensures |Prefixed(t, S)| == |S|
    decreases |S|
  {
    if S != {} {
      var x :| x in S;
      var S' := S - {x};
      PrefixedCard(t, S');
      assert Prefixed(t, S) == Prefixed(t, S') + {[t] + x};
      PrefixedMember(t, S', [t] + x);
      assert ([t] + x)[1..] == x;
    }
  }

  /** Σ over the labels t < n with f[t] > 0 of sz[t]. */
  function SumWhere(f: seq<nat>, sz: seq<nat>, n: nat): nat
    requires n <= |f| && n <= |sz|
  {
    if n == 0 then 0 else SumWhere(f, sz, n - 1) + (if f[n - 1] > 0 then sz[n - 1] else 0)
  }

  /** The sizes of a family of sets. */
  ghost function Sizes(W: seq<set<seq<nat>>>): seq<nat>
  {
    seq(|W|, i requires 0 <= i < |W| => |W[i]|)
  }

  /** The union, over the labels t < n with f[t] > 0, of t put in front of
      each word of W[t]. */
  ghost function Branches(f: seq<nat>, W: seq<set<seq<nat>>>, n: nat): set<seq<nat>>
    requires n <= |f| && n <= |W|
  {
    if n == 0 then {}
    else Branches(f, W, n - 1) + (if f[n - 1] > 0 then Prefixed(n - 1, W[n - 1]) else {})
  }

  lemma {:induction false} BranchesMember(f: seq<nat>, W: seq<set<seq<nat>>>, n: nat, w: seq<nat>)
    requires n <= |f| && n <= |W|
    ensures w in Branches(f, W, n) <==>
      |w| > 0 && w[0] < n && f[w[0]] > 0 && w[1..] in W[w[0]]
  {
    if n > 0 {
      BranchesMember(f, W, n - 1, w);
      if f[n - 1] > 0 {
        PrefixedMember(n - 1, W[n - 1], w);
      }
    }
  }

  /** Words starting with label t are not among those starting below t. */
  lemma BranchesDisjoint(f: seq<nat>, W: seq<set<seq<nat>>>, t: nat)
    requires t < |f| && t < |W|
    ensures Branches(f, W, t) * Prefixed(t, W[t]) == {}
  {
    forall w | w in Branches(f, W, t) ensures w !in Prefixed(t, W[t]) {
      BranchesMember(f, W, t, w);
      PrefixedMember(t, W[t], w);
    }
  }

  /** The branches are disjoint and prefixing loses no word, so the union
      has the sum of the sizes of the sets it is built from. */
  lemma {:induction false} BranchesCard(f: seq<nat>, W: seq<set<seq<nat>>>, n: nat)
    requires n <= |f| && n <= |W|
    ensures |Branches(f, W, n)| == SumWhere(f, Sizes(W), n)
  {
    if n > 0 {
      var t := n - 1;
      BranchesCard(f, W, t);
      if f[t] > 0 {
        BranchesDisjoint(f, W, t);
        PrefixedCard(t, W[t]);
      }
    }
  }

  /** Summing sizes that agree with the convolution gives FirstLetter. */
  lemma {:induction false} SumWhereCount(f: seq<nat>, sz: seq<nat>, J: nat, n: nat)
    requires n <= |f| == |sz|
    requires forall t :: 0 <= t < |f| && f[t] > 0 ==> sz[t] == Arrangements(Dec(f, t), J)
    ensures SumWhere(f, sz, n) == FirstLetter(f, J, n)
  {
    if n > 0 {
      SumWhereCount(f, sz, J, n - 1);
    }
  }

  /** What may follow each first label t: the words of length J of what
      remains, or nothing when t has no copy left. */
  ghost function Remains(f: seq<nat>, J: nat): seq<set<seq<nat>>>
  {
    seq(|f|, t requires 0 <= t < |f| => if f[t] > 0 then Words(Dec(f, t), J) else {})
  }

  /** Splitting by the first label: a word of length J + 1 fits f exactly
      when its first label t has a copy left and the rest is a word of
      length J of what remains. */
  lemma WordsFirst(f: seq<nat>, J: nat)
    ensures Words(f, J + 1) == Branches(f, Remains(f, J), |f|)
  {
    var W := Remains(f, J);
    forall w ensures w in Words(f, J + 1) <==> w in Branches(f, W, |f|) {
      WordsMember(f, J + 1, w);
      BranchesMember(f, W, |f|, w);
      if |w| > 0 && w[0] < |f| {
        FitsFirst(f, w);
        if f[w[0]] > 0 {
          assert W[w[0]] == Words(Dec(f, w[0]), J);
          WordsMember(Dec(f, w[0]), J, w[1..]);
        }
      } else if |w| > 0 {
        assert !Fits(f, w);
      }
    }
  }

  /** The count is the number of words: Arrangements(f, j) = |Words(f, j)|. */
  lemma {:induction false} WordsCount(f: seq<nat>, j: nat)
    ensures |Words(f, j)| == Arrangements(f, j)
    decreases j
  {
    if j == 0 {
      WordsOfNothing(f);
      ArrangementsOfNothing(f);
    } else {
      var J := j - 1;
      var W := Remains(f, J);
      forall t | 0 <= t < |f| && f[t] > 0 ensures Sizes(W)[t] == Arrangements(Dec(f, t), J) {
        WordsCount(Dec(f, t), J);
      }
      WordsFirst(f, J);
      BranchesCard(f, W, |f|);
      SumWhereCount(f, Sizes(W), J, |f|);
      RemoveFirst(f, J);
    }
  }
}
