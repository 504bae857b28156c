/** The mathematics of unranking k-permutations: the mixed-radix first
    pass, the backward "lift" pass, their inverses, and the facts that make
    unranking a lexicographic-order-preserving bijection. */
module Unranking {
  import opened Factorials

  // ---------------------------------------------------------------
  // k-permutations and lexicographic order

  /** s is an ordered selection of k distinct values from {0, …, n−1}. */
  predicate IsKPermutation(s: seq<nat>, n: nat, k: nat)
  {
    && |s| == k
    && (forall i :: 0 <= i < |s| ==> s[i] < n)
    && (forall i, j :: 0 <= i < j < |s| ==> s[i] != s[j])
  }

  predicate LexLess(a: seq<nat>, b: seq<nat>)
  {
    exists m :: 0 <= m < |a| && m < |b| && a[..m] == b[..m] && a[m] < b[m]
  }

  // ---------------------------------------------------------------
  // First pass: mixed-radix digits with the radices P(n−1−i, k−1−i)

  /** Digits(n, k, index): digit i is what the source stores in ar[i]
      after its first loop, the quotient by P(n−1−i, k−1−i). */
  function Digits(n: nat, k: nat, index: nat): (d: seq<nat>)
    requires k <= n
    ensures |d| == k
    decreases k
  {
    if k == 0 then []
    else
      var w := Falling(n - 1, k - 1);
      [index / w] + Digits(n - 1, k - 1, index % w)
  }

  /** Inverse of Digits: Σ d[i]·P(n−1−i, |d|−1−i). */
  function Undigits(n: nat, d: seq<nat>): nat
    requires |d| <= n
  {
    if d == [] then 0 else d[0] * Falling(n - 1, |d| - 1) + Undigits(n - 1, d[1..])
  }

  /** Digit i lies below its radix n − i. */
  predicate ValidDigits(n: nat, d: seq<nat>)
  {
    forall i :: 0 <= i < |d| ==> d[i] + i < n
  }

  /** For an in-range rank every digit is below its radix. */
  lemma {:induction false} DigitsValid(n: nat, k: nat, index: nat)
    requires k <= n && index < Falling(n, k)
    ensures ValidDigits(n, Digits(n, k, index))
    decreases k
  {
    if k > 0 {
      var w := Falling(n - 1, k - 1);
      DivBound(index, w, n);
      DigitsValid(n - 1, k - 1, index % w);
    }
  }

  /** One step of the first pass: the leading digit and the residual rank,
      which stays below the next radix product. */
  lemma DigitsStep(n: nat, k: nat, index: nat)
    requires 1 <= k <= n && index < Falling(n, k)
    ensures var w := Falling(n - 1, k - 1);
      && w > 0
      && 0 <= index / w < n
      && index % w < w
      && Digits(n, k, index) == [index / w] + Digits(n - 1, k - 1, index % w)
  {
    DivBound(index, Falling(n - 1, k - 1), n);
  }

  /** One round of the digit loop: with the first i digits written out as
      pre and idx the rank still to be split, the next digit is
      idx / P(n−1−i, k−1−i) and the rest of the rank is the remainder. */
  lemma DigitsPrefixStep(pre: seq<nat>, n: nat, k: nat, index: nat, idx: nat)
    requires |pre| < k <= n
    requires idx < Falling(n - |pre|, k - |pre|)
    requires pre + Digits(n - |pre|, k - |pre|, idx) == Digits(n, k, index)
    ensures var i, w := |pre|, Falling(n - 1 - |pre|, k - 1 - |pre|);
      && w > 0
      && 0 <= idx / w
      && idx % w < Falling(n - (i + 1), k - (i + 1))
      && (pre + [idx / w]) + Digits(n - (i + 1), k - (i + 1), idx % w) == Digits(n, k, index)
  {
    var i := |pre|;
    DigitsStep(n - i, k - i, idx);
    var w := Falling(n - 1 - i, k - 1 - i);
    var rest := Digits(n - (i + 1), k - (i + 1), idx % w);
    assert Digits(n - i, k - i, idx) == [idx / w] + rest;
    assert (pre + [idx / w]) + rest == pre + ([idx / w] + rest);
  }


  /** Re-summing the digits gives the rank back: index = Σ ar[i]·P(n−1−i, k−1−i). */
  lemma {:induction false} UndigitsDigits(n: nat, k: nat, index: nat)
    requires k <= n && index < Falling(n, k)
    ensures Undigits(n, Digits(n, k, index)) == index
    decreases k
  {
    if k > 0 {
      var w := Falling(n - 1, k - 1);
      var q, r := index / w, index % w;
      DivBound(index, w, n);
      var d, t := Digits(n, k, index), Digits(n - 1, k - 1, r);
      assert d == [q] + t;
      assert d[0] == q && d[1..] == t;
      UndigitsDigits(n - 1, k - 1, r);
      assert Undigits(n, d) == q * w + r;
      DivMod(index, w);
    }
  }

  lemma ValidDigitsTail(n: nat, d: seq<nat>)
    requires d != [] && |d| <= n && ValidDigits(n, d)
    ensures ValidDigits(n - 1, d[1..])
  {
    var t := d[1..];
    forall i | 0 <= i < |t| ensures t[i] + i < n - 1 {
      assert t[i] == d[i + 1];
    }
  }

  /** Valid digits re-sum to an in-range rank. */
  lemma {:induction false} UndigitsBound(n: nat, d: seq<nat>)
    requires |d| <= n && ValidDigits(n, d)
    ensures Undigits(n, d) < Falling(n, |d|)
  {
    if d != [] {
      var w := Falling(n - 1, |d| - 1);
      var u := Undigits(n - 1, d[1..]);
      assert Undigits(n, d) == d[0] * w + u;
      assert u < w by {
        ValidDigitsTail(n, d);
        UndigitsBound(n - 1, d[1..]);
      }
      assert Falling(n, |d|) == n * w;
      RadixBound(d[0], u, w, n);
    }
  }

  /** Valid digits are the digits of the rank they re-sum to. */
  lemma {:induction false} DigitsUndigits(n: nat, d: seq<nat>)
    requires |d| <= n && ValidDigits(n, d)
    ensures Digits(n, |d|, Undigits(n, d)) == d
  {
    if d != [] {
      var k := |d|;
      var w := Falling(n - 1, k - 1);
      var t := d[1..];
      var u := Undigits(n - 1, t);
      var x := Undigits(n, d);
      assert x == d[0] * w + u;
      ValidDigitsTail(n, d);
      assert u < w by { UndigitsBound(n - 1, t); }
      DivModUnique(x, w, d[0], u);
      assert Digits(n - 1, k - 1, u) == t by { DigitsUndigits(n - 1, t); }
      assert Digits(n, k, x) == [d[0]] + Digits(n - 1, k - 1, u);
      assert [d[0]] + t == d;
    }
  }

  lemma RadixBound(q: nat, u: nat, w: nat, n: nat)
    requires q < n && u < w
    ensures q * w + u < n * w
  {
    assert (q + 1) * w <= n * w;
  }

  // ---------------------------------------------------------------
  // Second pass: the lift

  /** One comparison of the inner loop: x moves up past an earlier raw entry r <= x. */
  function Bump(r: nat, x: nat): nat
  {
    if r <= x then x + 1 else x
  }

  /** x compared, in turn, with the unadjusted entries raw[m−1], …, raw[0]. */
  function Lift(raw: seq<nat>, m: nat, x: nat): nat
    requires m <= |raw|
  {
    if m == 0 then x else Lift(raw, m - 1, Bump(raw[m - 1], x))
  }

  /** The array after the lift pass: entry i lifted through the raw entries before it. */
  function Lifted(raw: seq<nat>): (v: seq<nat>)
    ensures |v| == |raw|
  {
    seq(|raw|, i requires 0 <= i < |raw| => Lift(raw, i, raw[i]))
  }

  /** Number of values below y that do not occur in s. */
  function FreeBelow(s: seq<nat>, y: nat): nat
  {
    if y == 0 then 0 else FreeBelow(s, y - 1) + (if y - 1 in s then 0 else 1)
  }

  /** y is the x-th smallest (counting from 0) natural number not in s. */
  predicate IsNthFree(s: seq<nat>, x: nat, y: nat)
  {
    y !in s && FreeBelow(s, y) == x
  }

  /** The inverse of the lift: entry i becomes the number of unused values below it. */
  function Lowered(p: seq<nat>): (raw: seq<nat>)
    ensures |raw| == |p|
  {
    seq(|p|, i requires 0 <= i < |p| => FreeBelow(p[..i], p[i]))
  }

  lemma {:induction false} LiftMonotone(raw: seq<nat>, m: nat, x: nat, x': nat)
    requires m <= |raw| && x < x'
    ensures Lift(raw, m, x) < Lift(raw, m, x')
  {
    if m > 0 {
      LiftMonotone(raw, m - 1, Bump(raw[m - 1], x), Bump(raw[m - 1], x'));
    }
  }

  lemma {:induction false} LiftBounds(raw: seq<nat>, m: nat, x: nat)
    requires m <= |raw|
    ensures x <= Lift(raw, m, x) <= x + m
  {
    if m > 0 {
      LiftBounds(raw, m - 1, Bump(raw[m - 1], x));
    }
  }

  /** Lift(raw, m, ·) reads only raw[..m]. */
  lemma {:induction false} LiftAgree(raw: seq<nat>, raw': seq<nat>, m: nat, x: nat)
    requires m <= |raw| && m <= |raw'| && raw[..m] == raw'[..m]
    ensures Lift(raw, m, x) == Lift(raw', m, x)
  {
    if m > 0 {
      assert raw[m - 1] == raw[..m][m - 1] == raw'[m - 1];
      assert raw[..m - 1] == raw[..m][..m - 1];
      assert raw'[..m - 1] == raw'[..m][..m - 1];
      LiftAgree(raw, raw', m - 1, Bump(raw[m - 1], x));
    }
  }

  lemma {:induction false} FreeBelowEmpty(y: nat)
    ensures FreeBelow([], y) == y
  {
    if y > 0 { FreeBelowEmpty(y - 1); }
  }

  lemma {:induction false} FreeBelowMonotone(s: seq<nat>, a: nat, b: nat)
    requires a <= b
    ensures FreeBelow(s, a) <= FreeBelow(s, b)
    decreases b
  {
    if a < b { FreeBelowMonotone(s, a, b - 1); }
  }

  /** Removing a fresh value v from the free set loses it from every count above v. */
  lemma {:induction false} FreeBelowAppend(s: seq<nat>, v: nat, y: nat)
    requires v !in s
    ensures FreeBelow(s + [v], y) + (if v < y then 1 else 0) == FreeBelow(s, y)
  {
    if y > 0 {
      FreeBelowAppend(s, v, y - 1);
      assert (y - 1 in s + [v]) <==> (y - 1 in s || y - 1 == v);
    }
  }

  /** The values of a k-permutation of {0..n−1} leave exactly n − k values free below n. */
  lemma {:induction false} FreeBelowAll(s: seq<nat>, n: nat)
    requires IsKPermutation(s, n, |s|)
    ensures FreeBelow(s, n) + |s| == n
  {
    if s == [] {
      FreeBelowEmpty(n);
    } else {
      var s', v := s[..|s| - 1], s[|s| - 1];
      assert s == s' + [v];
      assert v !in s' by {
        forall i | 0 <= i < |s'| ensures s'[i] != v {
          assert s'[i] == s[i];
        }
      }
      assert IsKPermutation(s', n, |s'|) by {
        forall i, j | 0 <= i < j < |s'| ensures s'[i] != s'[j] {
          assert s'[i] == s[i] && s'[j] == s[j];
        }
      }
      FreeBelowAll(s', n);
      FreeBelowAppend(s', v, n);
    }
  }

  /** The x-th free value is unique. */
  lemma NthFreeUnique(s: seq<nat>, x: nat, y: nat, y': nat)
    requires IsNthFree(s, x, y) && IsNthFree(s, x, y')
    ensures y == y'
  {
    if y < y' {
      FreeBelowMonotone(s, y + 1, y');
    } else if y' < y {
      FreeBelowMonotone(s, y' + 1, y);
    }
  }

  /** The heart of the lift pass: Lift(raw, m, x) is the x-th smallest value
      not among the first m lifted entries. */
  lemma {:induction false} LiftIsNthFree(raw: seq<nat>, m: nat, x: nat)
    requires m <= |raw|
    ensures IsNthFree(Lifted(raw)[..m], x, Lift(raw, m, x))
  {
    var V := Lifted(raw);
    if m == 0 {
      FreeBelowEmpty(x);
      assert V[..0] == [];
    } else {
      var r := raw[m - 1];
      var b := Bump(r, x);
      var y := Lift(raw, m, x);
      var v := V[m - 1];
      assert v == Lift(raw, m - 1, r);
      LiftIsNthFree(raw, m - 1, b);
      LiftIsNthFree(raw, m - 1, r);
      if b < r { LiftMonotone(raw, m - 1, b, r); }
      if r < b { LiftMonotone(raw, m - 1, r, b); }
      assert V[..m] == V[..m - 1] + [v];
      FreeBelowAppend(V[..m - 1], v, y);
    }
  }

  /** Lowering undoes lifting. */
  lemma LoweredLifted(raw: seq<nat>)
    ensures Lowered(Lifted(raw)) == raw
  {
    var V := Lifted(raw);
    forall i | 0 <= i < |raw| ensures Lowered(V)[i] == raw[i] {
      LiftIsNthFree(raw, i, raw[i]);
    }
  }

  /** Lowering a sequence of distinct values and lifting gives it back. */
  lemma LiftedLowered(p: seq<nat>)
    requires forall i, j :: 0 <= i < j < |p| ==> p[i] != p[j]
    ensures Lifted(Lowered(p)) == p
  {
    var raw := Lowered(p);
    var V := Lifted(raw);
    var m := 0;
    while m < |p|
      invariant 0 <= m <= |p|
      invariant V[..m] == p[..m]
    {
      LiftIsNthFree(raw, m, raw[m]);
      assert p[m] !in p[..m] by {
        forall i | 0 <= i < m ensures p[..m][i] != p[m] {
          assert p[..m][i] == p[i];
        }
      }
      NthFreeUnique(p[..m], raw[m], V[m], p[m]);
      assert V[..m + 1] == V[..m] + [V[m]];
      assert p[..m + 1] == p[..m] + [p[m]];
      m := m + 1;
    }
    assert V == V[..m] && p == p[..m];
  }

  // ---------------------------------------------------------------
  // Unranking and ranking

  /** What ith_k_permutation writes into ar[0..k−1] for a 0-based rank. */
  function Unrank(n: nat, k: nat, index: nat): seq<nat>
    requires k <= n
  {
    Lifted(Digits(n, k, index))
  }

  /** The inverse: lower the permutation, then re-sum its digits. */
  function Rank(n: nat, p: seq<nat>): nat
    requires |p| <= n
  {
    Undigits(n, Lowered(p))
  }

  /** The lift turns valid digits into a k-permutation of {0..n−1}. */
  lemma LiftedIsKPermutation(n: nat, raw: seq<nat>)
    requires ValidDigits(n, raw)
    ensures IsKPermutation(Lifted(raw), n, |raw|)
  {
    var V := Lifted(raw);
    forall i | 0 <= i < |V| ensures V[i] < n {
      LiftBounds(raw, i, raw[i]);
    }
    forall i, j | 0 <= i < j < |V| ensures V[i] != V[j] {
      LiftIsNthFree(raw, j, raw[j]);
      assert V[..j][i] == V[i];
    }
  }

  /** Every in-range rank unranks to a k-permutation. */
  lemma UnrankIsKPermutation(n: nat, k: nat, index: nat)
    requires k <= n && index < Falling(n, k)
    ensures IsKPermutation(Unrank(n, k, index), n, k)
  {
    DigitsValid(n, k, index);
    LiftedIsKPermutation(n, Digits(n, k, index));
  }

  /** Entry i of the unranked permutation is the d_i-th smallest value of
      {0..n−1} not used by entries 0..i−1, where d_i is the first-pass digit. */
  lemma UnrankSelectsNthFree(n: nat, k: nat, index: nat, i: nat)
    requires k <= n && index < Falling(n, k) && i < k
    ensures var p := Unrank(n, k, index);
      IsNthFree(p[..i], Digits(n, k, index)[i], p[i]) && p[i] < n
  {
    var raw := Digits(n, k, index);
    LiftIsNthFree(raw, i, raw[i]);
    UnrankIsKPermutation(n, k, index);
  }

  /** Ranking inverts unranking on [0, P(n, k)). */
  lemma RankUnrank(n: nat, k: nat, index: nat)
    requires k <= n && index < Falling(n, k)
    ensures Rank(n, Unrank(n, k, index)) == index
  {
    LoweredLifted(Digits(n, k, index));
    UndigitsDigits(n, k, index);
  }

  /** Every k-permutation of {0..n−1} has an in-range rank that unranks to it. */
  lemma UnrankRank(n: nat, k: nat, p: seq<nat>)
    requires k <= n && IsKPermutation(p, n, k)
    ensures Rank(n, p) < Falling(n, k)
    ensures Unrank(n, k, Rank(n, p)) == p
  {
    var raw := Lowered(p);
    assert ValidDigits(n, raw) by {
      forall i | 0 <= i < k ensures raw[i] + i < n {
        var s := p[..i];
        assert IsKPermutation(s, n, i) by {
          forall a, b | 0 <= a < b < i ensures s[a] != s[b] {
            assert s[a] == p[a] && s[b] == p[b];
          }
        }
        FreeBelowAll(s, n);
        assert p[i] !in s by {
          forall t | 0 <= t < i ensures s[t] != p[i] {
            assert s[t] == p[t];
          }
        }
        FreeBelowMonotone(s, p[i] + 1, n);
      }
    }
    UndigitsBound(n, raw);
    DigitsUndigits(n, raw);
    LiftedLowered(p);
  }

  /** Rank 0 unranks to [0, 1, …, k−1]. */
  lemma UnrankFirst(n: nat, k: nat)
    requires k <= n
    ensures Unrank(n, k, 0) == seq(k, i => i)
  {
    var raw := Digits(n, k, 0);
    ZeroDigits(n, k);
    forall i | 0 <= i < k ensures Lifted(raw)[i] == i {
      LiftOverZeros(raw, i, 0);
    }
  }

  lemma {:induction false} ZeroDigits(n: nat, k: nat)
    requires k <= n
    ensures forall i :: 0 <= i < k ==> Digits(n, k, 0)[i] == 0
    decreases k
  {
    if k > 0 { ZeroDigits(n - 1, k - 1); }
  }

  lemma {:induction false} LiftOverZeros(raw: seq<nat>, m: nat, x: nat)
    requires m <= |raw| && forall j :: 0 <= j < m ==> raw[j] == 0
    ensures Lift(raw, m, x) == x + m
  {
    if m > 0 { LiftOverZeros(raw, m - 1, x + 1); }
  }

  /** The last rank P(n, k) − 1 unranks to [n−1, n−2, …, n−k]. */
  lemma UnrankLast(n: nat, k: nat)
    requires 1 <= k <= n
    ensures Unrank(n, k, Falling(n, k) - 1) == seq(k, i => n - 1 - i)
  {
    var raw, top := Digits(n, k, Falling(n, k) - 1), seq(k, i => n - 1 - i);
    assert raw == top by { MaxDigits(n, k); }
    var v := Lifted(top);
    forall i | 0 <= i < k ensures v[i] == top[i] {
      LiftBelow(top, i, top[i]);
    }
    assert v == top;
  }

  lemma {:induction false} MaxDigits(n: nat, k: nat)
    requires k <= n
    ensures Digits(n, k, Falling(n, k) - 1) == seq(k, i => n - 1 - i)
    decreases k
  {
    if k > 0 {
      var w := Falling(n - 1, k - 1);
      assert Falling(n, k) == n * w;
      assert n * w - 1 == (n - 1) * w + (w - 1);
      DivModUnique(Falling(n, k) - 1, w, n - 1, w - 1);
      MaxDigits(n - 1, k - 1);
      assert Digits(n, k, Falling(n, k) - 1) == [n - 1] + seq(k - 1, i => n - 2 - i);
    }
  }

  lemma {:induction false} LiftBelow(raw: seq<nat>, m: nat, x: nat)
    requires m <= |raw| && forall j :: 0 <= j < m ==> raw[j] > x
    ensures Lift(raw, m, x) == x
  {
    if m > 0 { LiftBelow(raw, m - 1, x); }
  }

  lemma DivOrder(a: nat, b: nat, w: nat)
    requires w > 0 && a < b
    ensures a / w <= b / w
    ensures a / w == b / w ==> a % w < b % w
  {
    var qa, qb := a / w, b / w;
    DivMod(a, w);
    DivMod(b, w);
    assert (qb + 1) * w == qb * w + w;
    assert qa * w < (qb + 1) * w;
    MulCancel(qa, qb + 1, w);
  }

  lemma LexCons(q: nat, a: seq<nat>, b: seq<nat>)
    requires LexLess(a, b)
    ensures LexLess([q] + a, [q] + b)
  {
    var m :| 0 <= m < |a| && m < |b| && a[..m] == b[..m] && a[m] < b[m];
    assert ([q] + a)[..m + 1] == [q] + a[..m];
    assert ([q] + b)[..m + 1] == [q] + b[..m];
    assert ([q] + a)[m + 1] == a[m] && ([q] + b)[m + 1] == b[m];
  }

  /** A smaller rank has lexicographically smaller digits. */
  lemma {:induction false} DigitsOrder(n: nat, k: nat, a: nat, b: nat)
    requires k <= n && a < b < Falling(n, k)
    ensures LexLess(Digits(n, k, a), Digits(n, k, b))
    decreases k
  {
    var w := Falling(n - 1, k - 1);
    var qa, ra, qb, rb := a / w, a % w, b / w, b % w;
    DivOrder(a, b, w);
    var ta, tb := Digits(n - 1, k - 1, ra), Digits(n - 1, k - 1, rb);
    assert Digits(n, k, a) == [qa] + ta;
    assert Digits(n, k, b) == [qb] + tb;
    if qa < qb {
      assert ([qa] + ta)[..0] == ([qb] + tb)[..0];
    } else {
      assert rb < w by { DivMod(b, w); }
      DigitsOrder(n - 1, k - 1, ra, rb);
      LexCons(qa, ta, tb);
    }
  }

  /** The lift preserves lexicographic order. */
  lemma LiftedOrder(raw: seq<nat>, raw': seq<nat>)
    requires |raw| == |raw'| && LexLess(raw, raw')
    ensures LexLess(Lifted(raw), Lifted(raw'))
  {
    var m :| 0 <= m < |raw| && raw[..m] == raw'[..m] && raw[m] < raw'[m];
    var V, V' := Lifted(raw), Lifted(raw');
    forall i | 0 <= i < m ensures V[i] == V'[i] {
      assert raw[..i] == raw[..m][..i] && raw'[..i] == raw'[..m][..i];
      assert raw[i] == raw[..m][i];
      LiftAgree(raw, raw', i, raw[i]);
    }
    assert V[..m] == V'[..m];
    LiftMonotone(raw, m, raw[m], raw'[m]);
    LiftAgree(raw, raw', m, raw'[m]);
  }

  /** Unranking is strictly monotone from rank order to lexicographic order. */
  lemma UnrankOrder(n: nat, k: nat, a: nat, b: nat)
    requires k <= n && a < b < Falling(n, k)
    ensures LexLess(Unrank(n, k, a), Unrank(n, k, b))
  {
    DigitsOrder(n, k, a, b);
    LiftedOrder(Digits(n, k, a), Digits(n, k, b));
  }
}
