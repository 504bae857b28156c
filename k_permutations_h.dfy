/** The imperative routines of src/permutations/k_permutations.h: the exact
    falling factorial, the two unranking routines (their shared backward
    lift pass factored out), the fresh session state and the explicit-rank
    path of get_k_permutations. */
module KPermutations {
  import opened Factorials
  import opened Unranking

  /** n_k_permutations_bigz: P(n, k), or 0 when n < k. */
  method NKPermutationsBigz(n: nat, k: nat) returns (p: nat)
    ensures p == Falling(n, k)
    ensures n < k ==> p == 0
    ensures k == 0 ==> p == 1
    ensures k == n ==> p == Fact(n)
  {
    FallingFull(n);
    if n < k {
      return 0;
    }
    p := 1;
    var i := 0;
    while i < k
      invariant 0 <= i <= k
      invariant p == Falling(n, i)
    {
      FallingStep(n, i);
      p := p * (n - i);
      i := i + 1;
    }
  }

  /** One round of the backward pass: ar[i] is compared with the still
      unadjusted entries ar[i−1], …, ar[0] and goes up by one for each that
      is <= its current value. */
  method LiftEntry(ar: array<nat>, i: nat, ghost raw: seq<nat>)
    requires 0 < i < ar.Length && i < |raw|
    requires forall t :: 0 <= t <= i ==> ar[t] == raw[t]
    modifies ar
    ensures ar[..] == old(ar[..])[i := Lift(raw, i, raw[i])]
  {
    var j := i;
    while j > 0
      invariant 0 <= j <= i
      invariant Lift(raw, j, ar[i]) == Lift(raw, i, raw[i])
      invariant forall t :: 0 <= t < ar.Length && t != i ==> ar[t] == old(ar[t])
    {
      j := j - 1;
      if ar[j] <= ar[i] {
        ar[i] := ar[i] + 1;
      }
    }
  }

  /** The backward pass: for i = k−1 down to 1, ar[i] is lifted past the
      entries before it, which are still unadjusted. */
  method LiftInPlace(ar: array<nat>, k: nat)
    requires 1 <= k <= ar.Length
    modifies ar
    ensures ar[..k] == Lifted(old(ar[..k]))
    ensures ar[k..] == old(ar[k..])
  {
    ghost var raw := ar[..k];
    var i := k - 1;
    while i > 0
      invariant 0 <= i < k
      invariant forall t :: 0 <= t <= i ==> ar[t] == raw[t]
      invariant forall t :: i < t < k ==> ar[t] == Lift(raw, t, raw[t])
      invariant ar[k..] == old(ar[k..])
    {
      LiftEntry(ar, i, raw);
      i := i - 1;
    }
    assert ar[..k] == Lifted(raw);
  }

  /** The first pass of ith_k_permutation: ar[i] = index / P(n−1−i, k−1−i)
      and the rank goes on as the remainder, with the divisors of the
      floating-point falling factorial, exact while P(n, k) fits an
      unsigned int. */
  method DigitPass(ar: array<nat>, n: nat, k: nat, index: nat)
    requires 1 <= k <= n && k <= ar.Length
    requires Falling(n, k) <= UINT_MAX
    requires index < Falling(n, k)
    modifies ar
    ensures ar[..k] == Digits(n, k, index)
    ensures ar[k..] == old(ar[k..])
  {
    var idx: nat := index;
    var i := 0;
    while i < k
      invariant 0 <= i <= k
      invariant idx < Falling(n - i, k - i)
      invariant ar[..i] + Digits(n - i, k - i, idx) == Digits(n, k, index)
      invariant ar[k..] == old(ar[k..])
    {
      var j := Falling(n - 1 - i, k - 1 - i);
      ghost var before := ar[..i];
      assert |before| == i;
      DigitsPrefixStep(before, n, k, index, idx);
      ar[i] := idx / j;
      assert ar[..i + 1] == before + [idx / j];
      idx := idx % j;
      i := i + 1;
    }
    assert Digits(n - k, 0, idx) == [];
  }

  /** ith_k_permutation, the native path: the first pass writes the digits
      of the rank, the backward pass lifts them. */
  method IthKPermutation(ar: array<nat>, n: nat, k: nat, index: nat)
    requires 1 <= k <= n && k <= ar.Length
    requires Falling(n, k) <= UINT_MAX
    requires index < Falling(n, k)
    modifies ar
    ensures ar[..k] == Unrank(n, k, index)
    ensures IsKPermutation(ar[..k], n, k)
    ensures ar[k..] == old(ar[k..])
  {
    DigitPass(ar, n, k, index);
    LiftInPlace(ar, k);
    UnrankIsKPermutation(n, k, index);
  }

  /** The first pass of ith_k_permutation_bigz, with exact divisors from
      n_k_permutations_bigz; the rank is consumed in place and what is left
      of it is returned (always 0, the last divisor being P(n−k, 0) = 1). */
  method DigitPassBigz(ar: array<nat>, n: nat, k: nat, index: nat) returns (rest: nat)
    requires 1 <= k <= n && k <= ar.Length
    requires index < Falling(n, k)
    modifies ar
    ensures ar[..k] == Digits(n, k, index)
    ensures ar[k..] == old(ar[k..])
    ensures rest == 0
  {
    var idx: nat := index;
    var i := 0;
    while i < k
      invariant 0 <= i <= k
      invariant idx < Falling(n - i, k - i)
      invariant ar[..i] + Digits(n - i, k - i, idx) == Digits(n, k, index)
      invariant ar[k..] == old(ar[k..])
    {
      var p := NKPermutationsBigz(n - 1 - i, k - 1 - i);
      ghost var before := ar[..i];
      assert |before| == i;
      DigitsPrefixStep(before, n, k, index, idx);
      var q: nat := idx / p;
      idx := idx % p;
      ar[i] := q;
      assert ar[..i + 1] == before + [q];
      i := i + 1;
    }
    assert Digits(n - k, 0, idx) == [];
    rest := idx;
  }

  /** ith_k_permutation_bigz: the big-integer first pass, then the same
      backward pass. */
  method IthKPermutationBigz(ar: array<nat>, n: nat, k: nat, index: nat) returns (rest: nat)
    requires 1 <= k <= n && k <= ar.Length
    requires index < Falling(n, k)
    modifies ar
    ensures ar[..k] == Unrank(n, k, index)
    ensures IsKPermutation(ar[..k], n, k)
    ensures ar[k..] == old(ar[k..])
    ensures rest == 0
  {
    rest := DigitPassBigz(ar, n, k, index);
    LiftInPlace(ar, k);
    UnrankIsKPermutation(n, k, index);
  }

  /** Product of a sequence. */
  function Product(s: seq<nat>): nat
  {
    if s == [] then 1 else s[0] * Product(s[1..])
  }

  /** The cycle counters n, n−1, …, n−k+1 of a fresh session multiply to P(n, k). */
  lemma {:induction false} CycleProduct(n: nat, k: nat)
    requires k <= n
    ensures Product(seq(k, i => n - i)) == Falling(n, k)
  {
    if k > 0 {
      assert seq(k, i => n - i)[1..] == seq(k - 1, i => (n - 1) - i);
      CycleProduct(n - 1, k - 1);
    }
  }

  /** Fresh session of next_k_permutations: ap = [0, 1, …, n−1],
      cycle[i] = n − i, stored as an unsigned int, and status = 0, so that
      the first round emits this state without advancing it. */
  method FreshSession(n: nat, k: nat) returns (ap: array<nat>, cycle: array<nat>, status: bool)
    requires n <= INT_MAX && k <= INT_MAX
    ensures fresh(ap) && fresh(cycle)
    ensures !status
    ensures ap[..] == seq(n, i => i)
    ensures cycle.Length == k
    ensures forall i :: 0 <= i < k ==> cycle[i] == (n - i) % (UINT_MAX + 1)
    ensures k <= n ==> ap[..k] == Unrank(n, k, 0)
    ensures k <= n ==> cycle[..] == seq(k, i => n - i) && Product(cycle[..]) == Falling(n, k)
  {
    ap := new nat[n];
    var i := 0;
    while i < n
      invariant 0 <= i <= n
      invariant forall t :: 0 <= t < i ==> ap[t] == t
    {
      ap[i] := i;
      i := i + 1;
    }
    cycle := new nat[k];
    i := 0;
    while i < k
      invariant 0 <= i <= k
      invariant forall t :: 0 <= t < i ==> cycle[t] == (n - t) % (UINT_MAX + 1)
      invariant forall t :: 0 <= t < n ==> ap[t] == t
    {
      cycle[i] := (n - i) % (UINT_MAX + 1);
      i := i + 1;
    }
    status := false;
    if k <= n {
      UnrankFirst(n, k);
      CycleProduct(n, k);
      forall t | 0 <= t < k ensures cycle[t] == n - t {
        assert 0 <= n - t <= UINT_MAX;
      }
      assert cycle[..] == seq(k, i => n - i);
    }
  }

  /** get_k_permutations takes the big-integer path when the ranks arrive
      as strings or P(n, k) exceeds INT_MAX. */
  predicate UsesBigz(ranksAreStrings: bool, n: nat, k: nat)
  {
    ranksAreStrings || Falling(n, k) > INT_MAX
  }

  /** get_k_permutations with explicit 1-based ranks: each rank is turned
      0-based and unranked by the path the dispatch test picks. */
  method GetKPermutations(n: nat, k: nat, ranks: seq<nat>, ranksAreStrings: bool)
    returns (records: seq<seq<nat>>, bigz: bool)
    requires 1 <= k <= n
    requires forall j :: 0 <= j < |ranks| ==> 1 <= ranks[j] <= Falling(n, k)
    ensures bigz <==> ranksAreStrings || Falling(n, k) > INT_MAX
    ensures !bigz ==> Falling(n, k) <= INT_MAX < UINT_MAX
    ensures |records| == |ranks|
    ensures forall j :: 0 <= j < |ranks| ==>
      records[j] == Unrank(n, k, ranks[j] - 1) && IsKPermutation(records[j], n, k)
  {
    var ap := new nat[k];
    bigz := UsesBigz(ranksAreStrings, n, k);
    records := [];
    var j := 0;
    while j < |ranks|
      invariant 0 <= j <= |ranks|
      invariant |records| == j
      invariant forall t :: 0 <= t < j ==>
        records[t] == Unrank(n, k, ranks[t] - 1) && IsKPermutation(records[t], n, k)
    {
      var z := ranks[j] - 1;
      if bigz {
        var _ := IthKPermutationBigz(ap, n, k, z);
      } else {
        IthKPermutation(ap, n, k, z);
      }
      assert ap[..] == ap[..k];
      records := records + [ap[..]];
      j := j + 1;
    }
  }
}
