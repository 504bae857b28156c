/** The batch driver next_k_permutations of src/k_permutations.c: the fill of
    a fresh state, and the loop that emits up to d records, advancing the
    state with the successor before every record except the first of a
    fresh state, and stopping early when the successor reports that the
    sequence is exhausted. The successor itself is a parameter. */
module KPermutationBatch {
  import opened Factorials

  datatype Option<T> = None | Some(value: T)

  /** Matrix layouts: a record per row (type 'r') or per column (type 'c'). */
  datatype Layout = Row | Column

  /** One output element: the state value itself when no labels are given,
      otherwise the label it selects. */
  datatype Cell<T> = Index(v: nat) | Label(l: T)

  /** What one call of the successor reports, and the state it leaves. */
  datatype Step = Step(ok: bool, next: seq<nat>)

  /** The successor only rearranges the state it is given. */
  ghost predicate Permutes(succ: seq<nat> -> Step)
  {
    forall x: seq<nat> {:trigger multiset(succ(x).next)} :: multiset(succ(x).next) == multiset(x)
  }

  /** The states a batch emits, the state it leaves behind and its final
      status flag. */
  datatype Run = Run(records: seq<seq<nat>>, final: seq<nat>, status: bool)

  // ---------------------------------------------------------------
  // The initial multiset state

  function Repeat(v: nat, c: nat): seq<nat>
  {
    seq(c, _ => v)
  }

  /** Label i+1 written f[i] times, labels in increasing order. */
  function Expand(f: seq<nat>): (s: seq<nat>)
    ensures |s| == Sum(f)
  {
    if f == [] then [] else Expand(f[..|f| - 1]) + Repeat(|f|, f[|f| - 1])
  }

  lemma {:induction false} SumPrefix(f: seq<nat>, i: nat)
    requires i <= |f|
    ensures Sum(f[..i]) <= Sum(f)
    decreases |f| - i
  {
    if i < |f| {
      SumPrefix(f, i + 1);
      assert f[..i + 1][..i] == f[..i];
    } else {
      assert f[..i] == f;
    }
  }

  /** Every entry of the initial state is a label 1..|f|. */
  lemma {:induction false} ExpandRange(f: seq<nat>)
    ensures forall t :: 0 <= t < |Expand(f)| ==> 1 <= Expand(f)[t] <= |f|
    decreases |f|
  {
    if f != [] {
      ExpandRange(f[..|f| - 1]);
    }
  }

  /** The initial state is in nondecreasing order. */
  lemma {:induction false} ExpandSorted(f: seq<nat>)
    ensures forall a, b :: 0 <= a < b < |Expand(f)| ==> Expand(f)[a] <= Expand(f)[b]
    decreases |f|
  {
    if f != [] {
      var g := f[..|f| - 1];
      ExpandRange(g);
      ExpandSorted(g);
    }
  }

  lemma {:induction false} RepeatCount(v: nat, c: nat)
    ensures multiset(Repeat(v, c))[v] == c
    ensures forall x :: x != v ==> multiset(Repeat(v, c))[x] == 0
  {
    if c > 0 {
      RepeatCount(v, c - 1);
      assert Repeat(v, c) == Repeat(v, c - 1) + [v];
    }
  }

  /** Label i+1 occurs exactly f[i] times, and nothing else occurs. */
  lemma {:induction false} ExpandCount(f: seq<nat>)
    ensures forall i :: 0 <= i < |f| ==> multiset(Expand(f))[i + 1] == f[i]
    ensures forall x :: (x == 0 || x > |f|) ==> multiset(Expand(f))[x] == 0
    decreases |f|
  {
    if f != [] {
      var g, c := f[..|f| - 1], f[|f| - 1];
      ExpandCount(g);
      RepeatCount(|f|, c);
      assert multiset(Expand(f)) == multiset(Expand(g)) + multiset(Repeat(|f|, c));
      forall i | 0 <= i < |f| ensures multiset(Expand(f))[i + 1] == f[i] {
        if i < |g| {
          assert g[i] == f[i];
        }
      }
    }
  }

  /** The fill of a fresh state: 1, 2, …, n without frequencies, otherwise
      each label i+1 written f[i] times from position 0 on. */
  method InitialArrangement(ap: array<nat>, f: Option<seq<nat>>)
    requires f.Some? ==> Sum(f.value) <= ap.Length
    modifies ap
    ensures f.None? ==> ap[..] == seq(ap.Length, i => i + 1)
    ensures f.Some? ==> ap[..Sum(f.value)] == Expand(f.value)
    ensures f.Some? ==> ap[Sum(f.value)..] == old(ap[Sum(f.value)..])
  {
    if f.None? {
      var i := 0;
      while i < ap.Length
        invariant 0 <= i <= ap.Length
        invariant forall t :: 0 <= t < i ==> ap[t] == t + 1
      {
        ap[i] := i + 1;
        i := i + 1;
      }
    } else {
      var fs := f.value;
      ghost var total := Sum(fs);
      var k := 0;
      var i := 0;
      while i < |fs|
        invariant 0 <= i <= |fs|
        invariant k == Sum(fs[..i]) <= total
        invariant ap[..k] == Expand(fs[..i])
        invariant ap[total..] == old(ap[total..])
      {
        assert fs[..i + 1][..i] == fs[..i];
        SumPrefix(fs, i + 1);
        var j := 0;
        while j < fs[i]
          invariant 0 <= j <= fs[i]
          invariant k == Sum(fs[..i]) + j <= total
          invariant ap[..k] == Expand(fs[..i]) + Repeat(i + 1, j)
          invariant ap[total..] == old(ap[total..])
        {
          ghost var before := ap[..k];
          ap[k] := i + 1;
          assert ap[..k + 1] == before + [i + 1];
          assert Repeat(i + 1, j + 1) == Repeat(i + 1, j) + [i + 1];
          k := k + 1;
          j := j + 1;
        }
        i := i + 1;
      }
      assert fs[..|fs|] == fs;
    }
  }

  // ---------------------------------------------------------------
  // The emit / advance / stop state machine

  /** The run of a batch of d records from state a, where status says
      whether the state has already been emitted (a resumed session) and so
      must be advanced before the next record. */
  function Emit(a: seq<nat>, status: bool, d: nat, succ: seq<nat> -> Step): (run: Run)
    ensures |run.records| <= d
    decreases d
  {
    if d == 0 then Run([], a, status)
    else
      var s := if status then succ(a) else Step(true, a);
      if !s.ok then Run([], s.next, false)
      else
        var rest := Emit(s.next, true, d - 1, succ);
        Run([s.next] + rest.records, rest.final, rest.status)
  }

  /** The records already emitted joined to the run still to come. */
  function Glue(recs: seq<seq<nat>>, run: Run): Run
  {
    Run(recs + run.records, run.final, run.status)
  }

  /** One round of the loop that emits: the state b, reached by an advance
      that succeeded (or a fresh state taken as it is), joins the records. */
  lemma GlueEmit(recs: seq<seq<nat>>, a: seq<nat>, status: bool, d: nat, succ: seq<nat> -> Step, b: seq<nat>)
    requires d > 0
    requires status ==> succ(a) == Step(true, b)
    requires !status ==> b == a
    ensures Glue(recs, Emit(a, status, d, succ)) == Glue(recs + [b], Emit(b, true, d - 1, succ))
  {
  }

  /** A round whose advance failed ends the run with the state it left. */
  lemma GlueStop(recs: seq<seq<nat>>, a: seq<nat>, d: nat, succ: seq<nat> -> Step)
    requires d > 0 && !succ(a).ok
    ensures Glue(recs, Emit(a, true, d, succ)) == Run(recs, succ(a).next, false)
  {
  }

  /** The state a record is the successor of: the one before it, or a. */
  function Before(a: seq<nat>, records: seq<seq<nat>>, t: nat): seq<nat>
    requires t <= |records|
  {
    if t == 0 then a else records[t - 1]
  }

  /** With d > 0 a batch holds fewer than d records
      exactly when it ended on a failed advance, which leaves status 0; with
      d = 0 nothing happens at all. */
  lemma {:induction false} EmitCount(a: seq<nat>, status: bool, d: nat, succ: seq<nat> -> Step)
    ensures d > 0 ==> (|Emit(a, status, d, succ).records| < d <==> !Emit(a, status, d, succ).status)
    ensures d == 0 ==> Emit(a, status, d, succ) == Run([], a, status)
    decreases d
  {
    if d > 0 {
      var s := if status then succ(a) else Step(true, a);
      if s.ok {
        EmitCount(s.next, true, d - 1, succ);
      }
    }
  }

  /** A fresh state is emitted first, without consulting the successor. */
  lemma EmitFresh(a: seq<nat>, d: nat, succ: seq<nat> -> Step)
    requires d > 0
    ensures |Emit(a, false, d, succ).records| >= 1
    ensures Emit(a, false, d, succ).records[0] == a
  {
  }

  /** Each record is the successor's output on the state before it
      (except the first record taken from a fresh state). */
  ghost predicate Chained(a: seq<nat>, status: bool, rs: seq<seq<nat>>, succ: seq<nat> -> Step)
  {
    forall t :: 0 <= t < |rs| && (t > 0 || status) ==> succ(Before(a, rs, t)) == Step(true, rs[t])
  }

  /** Every record after the first is the successor of the one before it,
      and the first is the successor of a when the session is resumed. */
  lemma {:induction false} EmitChain(a: seq<nat>, status: bool, d: nat, succ: seq<nat> -> Step)
    ensures Chained(a, status, Emit(a, status, d, succ).records, succ)
    decreases d
  {
    if d > 0 {
      var s := if status then succ(a) else Step(true, a);
      if s.ok {
        EmitChain(s.next, true, d - 1, succ);
        var rs, tail := Emit(a, status, d, succ).records, Emit(s.next, true, d - 1, succ).records;
        assert rs == [s.next] + tail;
        forall t | 0 <= t < |rs| && (t > 0 || status) ensures succ(Before(a, rs, t)) == Step(true, rs[t]) {
          if t > 0 {
            assert Before(a, rs, t) == Before(s.next, tail, t - 1) && rs[t] == tail[t - 1];
            assert Chained(s.next, true, tail, succ);
            assert succ(Before(s.next, tail, t - 1)) == Step(true, tail[t - 1]);
          } else {
            assert s == succ(a) && s == Step(true, s.next);
          }
        }
      }
    }
  }

  /** A batch cut short: the advance after the last record (after a, if
      there is none) failed and left the final state; a fresh state is
      never cut short before its first record. */
  lemma {:induction false} EmitStop(a: seq<nat>, status: bool, d: nat, succ: seq<nat> -> Step)
    requires |Emit(a, status, d, succ).records| < d
    ensures var run := Emit(a, status, d, succ);
      var last := Before(a, run.records, |run.records|);
      && (run.records == [] ==> status)
      && !succ(last).ok
      && run.final == succ(last).next
    decreases d
  {
    var s := if status then succ(a) else Step(true, a);
    if s.ok {
      EmitStop(s.next, true, d - 1, succ);
      var rs, tail := Emit(a, status, d, succ).records, Emit(s.next, true, d - 1, succ).records;
      assert rs == [s.next] + tail;
      assert Before(a, rs, |rs|) == Before(s.next, tail, |tail|);
    }
  }

  /** A successor that permutes its argument keeps every record, and the
      final state, a rearrangement of a. */
  lemma {:induction false} EmitPermutes(a: seq<nat>, status: bool, d: nat, succ: seq<nat> -> Step)
    requires Permutes(succ)
    ensures var run := Emit(a, status, d, succ);
      && (forall t :: 0 <= t < |run.records| ==> multiset(run.records[t]) == multiset(a))
      && multiset(run.final) == multiset(a)
    decreases d
  {
    if d > 0 {
      var s := if status then succ(a) else Step(true, a);
      if s.ok {
        EmitPermutes(s.next, true, d - 1, succ);
        var rs, tail := Emit(a, status, d, succ).records, Emit(s.next, true, d - 1, succ).records;
        assert rs == [s.next] + tail;
        forall t | 0 < t < |rs| ensures rs[t] == tail[t - 1] {
        }
      }
    }
  }

  // ---------------------------------------------------------------
  // Label lookup and the matrix layouts

  predicate InRange<T>(labels: Option<seq<T>>, v: nat)
  {
    labels.Some? ==> 1 <= v <= |labels.value|
  }

  /** Every value of s selects a label. */
  predicate Covered<T>(labels: Option<seq<T>>, s: seq<nat>)
  {
    forall t :: 0 <= t < |s| ==> InRange(labels, s[t])
  }

  /** The output element for state value v: v itself, or labels[v − 1]. */
  function Project<T>(labels: Option<seq<T>>, v: nat): Cell<T>
    requires InRange(labels, v)
  {
    if labels.None? then Index(v) else Label(labels.value[v - 1])
  }

  /** The r output elements of one record. */
  function Record<T>(labels: Option<seq<T>>, s: seq<nat>, r: nat): (rec: seq<Cell<T>>)
    requires r <= |s| && Covered(labels, s)
    ensures |rec| == r
    ensures forall i :: 0 <= i < r ==> rec[i] == Project(labels, s[i])
  {
    if r == 0 then [] else Record(labels, s, r - 1) + [Project(labels, s[r - 1])]
  }

  /** A rearrangement of a covered state is covered. */
  lemma CoveredPermutation<T>(labels: Option<seq<T>>, a: seq<nat>, b: seq<nat>)
    requires Covered(labels, a) && multiset(a) == multiset(b)
    ensures Covered(labels, b)
  {
    forall t | 0 <= t < |b| ensures InRange(labels, b[t]) {
      assert b[t] in multiset(a);
      var u :| 0 <= u < |a| && a[u] == b[t];
    }
  }

  /** Where element i of record j goes in the r·d buffer of a batch of d. */
  function Pos(layout: Layout, j: nat, i: nat, r: nat, d: nat): nat
  {
    if layout == Row then j + i * d else j * r + i
  }

  /** Every position lies inside the buffer and gives back the record and
      element it was computed from. */
  lemma PosDecode(layout: Layout, j: nat, i: nat, r: nat, d: nat)
    requires j < d && i < r
    ensures Pos(layout, j, i, r, d) < r * d
    ensures layout == Row ==> Pos(layout, j, i, r, d) / d == i && Pos(layout, j, i, r, d) % d == j
    ensures layout == Column ==> Pos(layout, j, i, r, d) / r == j && Pos(layout, j, i, r, d) % r == i
  {
    if layout == Row {
      MulMono(i + 1, r, d);
      assert i * d + d == (i + 1) * d;
      DivModUnique(j + i * d, d, i, j);
    } else {
      MulMono(j + 1, d, r);
      assert j * r + r == (j + 1) * r;
      assert (j + 1) * r == r * (j + 1) && d * r == r * d;
      DivModUnique(j * r + i, r, j, i);
    }
  }

  /** Distinct elements of a batch never share a position. */
  lemma PosInjective(layout: Layout, j: nat, i: nat, j': nat, i': nat, r: nat, d: nat)
    requires j < d && i < r && j' < d && i' < r
    requires Pos(layout, j, i, r, d) == Pos(layout, j', i', r, d)
    ensures j == j' && i == i'
  {
    PosDecode(layout, j, i, r, d);
    PosDecode(layout, j', i', r, d);
  }

  // ---------------------------------------------------------------
  // The batch loops

  /** One call of the successor on the state in ap. */
  method Advance(ap: array<nat>, succ: seq<nat> -> Step) returns (ok: bool)
    requires Permutes(succ)
    modifies ap
    ensures ok == succ(old(ap[..])).ok
    ensures ap[..] == succ(old(ap[..])).next
  {
    var s := succ(ap[..]);
    assert |s.next| == |multiset(s.next)| == ap.Length;
    forall i | 0 <= i < ap.Length {
      ap[i] := s.next[i];
    }
    ok := s.ok;
  }

  /** The records rs sit in buf: element i of record t, looked up, at
      Pos(layout, t, i, r, d). */
  ghost predicate Laid<T>(buf: seq<Cell<T>>, layout: Layout, rs: seq<seq<nat>>, labels: Option<seq<T>>,
                          r: nat, d: nat)
  {
    forall t, i :: 0 <= t < |rs| && 0 <= i < r ==> CellLaid(buf, layout, rs[t], labels, r, d, t, i)
  }

  /** Element i of record rec, the t-th of the batch, sits in buf. */
  ghost predicate CellLaid<T>(buf: seq<Cell<T>>, layout: Layout, rec: seq<nat>, labels: Option<seq<T>>,
                              r: nat, d: nat, t: nat, i: nat)
  {
    && i < |rec| && InRange(labels, rec[i])
    && Pos(layout, t, i, r, d) < |buf|
    && buf[Pos(layout, t, i, r, d)] == Project(labels, rec[i])
  }

  /** The inner loop of the 'r' and 'c' branches: element i of the
      current state goes, as its label, to the buffer position of element i
      of record j = |rs|; the earlier records stay where they are. */
  method WriteRecord<T>(buf: array<Cell<T>>, ap: array<nat>, labels: Option<seq<T>>,
                        layout: Layout, ghost rs: seq<seq<nat>>, j: nat, r: nat, d: nat)
    requires j == |rs| && j < d && r <= ap.Length && buf.Length == r * d
    requires Covered(labels, ap[..])
    requires Laid(buf[..], layout, rs, labels, r, d)
    modifies buf
    ensures Laid(buf[..], layout, rs + [ap[..]], labels, r, d)
  {
    ghost var b0 := buf[..];
    ghost var rs' := rs + [ap[..]];
    forall t, i | 0 <= t < d && 0 <= i < r ensures Pos(layout, t, i, r, d) < buf.Length {
      PosDecode(layout, t, i, r, d);
    }
    var i := 0;
    while i < r
      invariant 0 <= i <= r
      invariant forall i' :: 0 <= i' < i ==> buf[Pos(layout, j, i', r, d)] == Project(labels, ap[i'])
      invariant forall t, i' :: 0 <= t < j && 0 <= i' < r ==>
        buf[Pos(layout, t, i', r, d)] == b0[Pos(layout, t, i', r, d)]
    {
      forall t, i' | 0 <= t < d && 0 <= i' < r && (t != j || i' != i)
        ensures Pos(layout, t, i', r, d) != Pos(layout, j, i, r, d)
      {
        if Pos(layout, t, i', r, d) == Pos(layout, j, i, r, d) {
          PosInjective(layout, t, i', j, i, r, d);
        }
      }
      buf[Pos(layout, j, i, r, d)] := Project(labels, ap[i]);
      i := i + 1;
    }
    forall t, i | 0 <= t < |rs'| && 0 <= i < r
      ensures CellLaid(buf[..], layout, rs'[t], labels, r, d, t, i)
    {
      if t < j {
        assert rs'[t] == rs[t];
        assert CellLaid(b0, layout, rs[t], labels, r, d, t, i);
      } else {
        assert rs'[t] == ap[..];
      }
    }
  }

  /** The head of each round: a resumed state is advanced, and the round
      emits only if that succeeded; a fresh state is emitted as it is. */
  method Round<T>(ap: array<nat>, succ: seq<nat> -> Step, status: bool, labels: Option<seq<T>>)
    returns (emit: bool)
    requires Permutes(succ) && Covered(labels, ap[..])
    modifies ap
    ensures Covered(labels, ap[..])
    ensures status ==> emit == succ(old(ap[..])).ok && ap[..] == succ(old(ap[..])).next
    ensures !status ==> emit && ap[..] == old(ap[..])
  {
    emit := true;
    if status {
      ghost var prev := ap[..];
      emit := Advance(ap, succ);
      assert multiset(ap[..]) == multiset(prev);
      CoveredPermutation(labels, prev, ap[..]);
    }
  }

  /** next_k_permutations for the 'r' and 'c' layouts: count records are
      written into an r·d buffer, status 0 at the end means the caller
      shrinks it to count records, and ap holds the state to resume from. */
  method NextMatrix<T>(ap: array<nat>, r: nat, d: nat, resumed: bool, labels: Option<seq<T>>,
                       layout: Layout, succ: seq<nat> -> Step)
    returns (buf: array<Cell<T>>, count: nat, truncated: bool)
    requires r <= ap.Length
    requires Permutes(succ)
    requires Covered(labels, ap[..])
    modifies ap
    ensures fresh(buf) && buf.Length == r * d
    ensures var run := Emit(old(ap[..]), resumed, d, succ);
      && count == |run.records|
      && truncated == !run.status
      && ap[..] == run.final
      && Laid(buf[..], layout, run.records, labels, r, d)
  {
    ghost var a0 := ap[..];
    ghost var run := Emit(a0, resumed, d, succ);
    buf := new Cell<T>[r * d](_ => Index(0));
    var status := resumed;
    ghost var recs: seq<seq<nat>> := [];
    ghost var cur, rem := a0, d;
    var j := 0;
    while j < d
      invariant 0 <= j <= d && |recs| == j
      invariant Covered(labels, ap[..])
      invariant cur == ap[..] && rem == d - j
      invariant run == Glue(recs, Emit(cur, status, rem, succ))
      invariant Laid(buf[..], layout, recs, labels, r, d)
      modifies ap, buf
    {
      var emit := Round(ap, succ, status, labels);
      if !emit {
        GlueStop(recs, cur, rem, succ);
        status := false;
        cur := ap[..];
        break;
      }
      GlueEmit(recs, cur, status, rem, succ, ap[..]);
      status := true;
      cur, rem := ap[..], rem - 1;
      WriteRecord(buf, ap, labels, layout, recs, j, r, d);
      recs := recs + [ap[..]];
      j := j + 1;
    }
    assert run == Run(recs, cur, status);
    count := j;
    truncated := !status;
  }

  /** The records rs fill the first |rs| slots of out. */
  ghost predicate Listed<T>(out: seq<seq<Cell<T>>>, rs: seq<seq<nat>>, labels: Option<seq<T>>, r: nat)
  {
    && |rs| <= |out|
    && forall t :: 0 <= t < |rs| ==>
         r <= |rs[t]| && Covered(labels, rs[t]) && out[t] == Record(labels, rs[t], r)
  }

  lemma ListedStep<T>(out: seq<seq<Cell<T>>>, rs: seq<seq<nat>>, labels: Option<seq<T>>, r: nat, s: seq<nat>)
    requires Listed(out, rs, labels, r) && |rs| < |out|
    requires r <= |s| && Covered(labels, s)
    ensures Listed(out[|rs| := Record(labels, s, r)], rs + [s], labels, r)
  {
    var out', rs' := out[|rs| := Record(labels, s, r)], rs + [s];
    forall t | 0 <= t < |rs'|
      ensures r <= |rs'[t]| && Covered(labels, rs'[t]) && out'[t] == Record(labels, rs'[t], r)
    {
      if t < |rs| {
        assert rs'[t] == rs[t];
      }
    }
  }

  /** The inner loop of the list branch: a fresh vector of the r looked-up
      elements of the current state. */
  method BuildRecord<T>(ap: array<nat>, labels: Option<seq<T>>, r: nat) returns (resulti: seq<Cell<T>>)
    requires r <= ap.Length && Covered(labels, ap[..])
    ensures resulti == Record(labels, ap[..], r)
  {
    resulti := [];
    var i := 0;
    while i < r
      invariant 0 <= i <= r
      invariant |resulti| == i
      invariant forall i' :: 0 <= i' < i ==> resulti[i'] == Project(labels, ap[i'])
    {
      resulti := resulti + [Project(labels, ap[i])];
      i := i + 1;
    }
  }

  /** The body of the list branch: the vector of record j = |rs| goes to
      slot j; the earlier slots stay as they are. */
  method StoreRecord<T>(out: array<seq<Cell<T>>>, ap: array<nat>, labels: Option<seq<T>>,
                        ghost rs: seq<seq<nat>>, j: nat, r: nat)
    requires j == |rs| < out.Length && r <= ap.Length
    requires Covered(labels, ap[..])
    requires Listed(out[..], rs, labels, r)
    modifies out
    ensures Listed(out[..], rs + [ap[..]], labels, r)
  {
    var resulti := BuildRecord(ap, labels, r);
    ghost var before := out[..];
    out[j] := resulti;
    assert out[..] == before[j := resulti];
    ListedStep(before, rs, labels, r, ap[..]);
  }

  /** next_k_permutations for the list layout: record j becomes its own
      vector of r elements at slot j of a d-slot list. */
  method NextList<T>(ap: array<nat>, r: nat, d: nat, resumed: bool, labels: Option<seq<T>>,
                     succ: seq<nat> -> Step)
    returns (out: array<seq<Cell<T>>>, count: nat, truncated: bool)
    requires r <= ap.Length
    requires Permutes(succ)
    requires Covered(labels, ap[..])
    modifies ap
    ensures fresh(out) && out.Length == d
    ensures var run := Emit(old(ap[..]), resumed, d, succ);
      && count == |run.records|
      && truncated == !run.status
      && ap[..] == run.final
      && Listed(out[..], run.records, labels, r)
  {
    ghost var a0 := ap[..];
    ghost var run := Emit(a0, resumed, d, succ);
    out := new seq<Cell<T>>[d](_ => []);
    var status := resumed;
    ghost var recs: seq<seq<nat>> := [];
    ghost var cur, rem := a0, d;
    var j := 0;
    while j < d
      invariant 0 <= j <= d && |recs| == j
      invariant Covered(labels, ap[..])
      invariant cur == ap[..] && rem == d - j
      invariant run == Glue(recs, Emit(cur, status, rem, succ))
      invariant Listed(out[..], recs, labels, r)
      modifies ap, out
    {
      var emit := Round(ap, succ, status, labels);
      if !emit {
        GlueStop(recs, cur, rem, succ);
        status := false;
        cur := ap[..];
        break;
      }
      GlueEmit(recs, cur, status, rem, succ, ap[..]);
      status := true;
      cur, rem := ap[..], rem - 1;
      StoreRecord(out, ap, labels, recs, j, r);
      recs := recs + [ap[..]];
      j := j + 1;
    }
    assert run == Run(recs, cur, status);
    count := j;
    truncated := !status;
  }

  // ---------------------------------------------------------------
  // The entry point

  /** The result type: type 'r' or 'c' gives a flat r·d buffer, anything
      else a list of d vectors. */
  datatype Shape = Matrix(layout: Layout) | List

  datatype Output<T> = Flat(cells: seq<Cell<T>>) | Nested(rows: seq<seq<Cell<T>>>)

  /** The state a fresh session starts from. */
  function Initial(n: nat, f: Option<seq<nat>>): seq<nat>
  {
    if f.None? then seq(n, i => i + 1) else Expand(f.value)
  }

  /** Without labels every state is covered; with labels, a fresh state is
      covered when every value it holds names one. */
  lemma InitialCovered<T>(n: nat, f: Option<seq<nat>>, labels: Option<seq<T>>)
    requires labels.Some? ==> (if f.None? then n else |f.value|) <= |labels.value|
    ensures Covered(labels, Initial(n, f))
  {
    if f.Some? {
      ExpandRange(f.value);
    }
  }

  /** next_k_permutations: a session without a stored state gets a fresh one
      of n entries, filled by InitialArrangement and emitted first; a stored
      state is resumed (status 1) and advanced before its first record. The
      batch then goes to a matrix or to a list. */
  method NextKPermutations<T>(n: nat, r: nat, d: nat, state: Option<array<nat>>, labels: Option<seq<T>>,
                              f: Option<seq<nat>>, shape: Shape, succ: seq<nat> -> Step)
    returns (ap: array<nat>, out: Output<T>, count: nat, truncated: bool)
    requires Permutes(succ)
    requires state.Some? ==> r <= state.value.Length && Covered(labels, state.value[..])
    requires state.None? ==> r <= n
    requires state.None? && f.Some? ==> Sum(f.value) == n
    requires state.None? && labels.Some? ==> (if f.None? then n else |f.value|) <= |labels.value|
    modifies if state.Some? then {state.value} else {}
    ensures state.Some? ==> ap == state.value
    ensures state.None? ==> fresh(ap) && ap.Length == n
    ensures var a0 := if state.Some? then old(state.value[..]) else Initial(n, f);
      var run := Emit(a0, state.Some?, d, succ);
      && count == |run.records|
      && truncated == !run.status
      && ap[..] == run.final
      && (shape.Matrix? ==> out.Flat? && |out.cells| == r * d
                              && Laid(out.cells, shape.layout, run.records, labels, r, d))
      && (shape.List? ==> out.Nested? && |out.rows| == d && Listed(out.rows, run.records, labels, r))
  {
    if state.None? {
      ap := new nat[n];
      InitialArrangement(ap, f);
      assert f.Some? ==> ap[..] == ap[..Sum(f.value)];
      assert ap[..] == Initial(n, f);
      InitialCovered(n, f, labels);
    } else {
      ap := state.value;
    }
    if shape.Matrix? {
      var buf;
      buf, count, truncated := NextMatrix(ap, r, d, state.Some?, labels, shape.layout, succ);
      out := Flat(buf[..]);
    } else {
      var lst;
      lst, count, truncated := NextList(ap, r, d, state.Some?, labels, succ);
      out := Nested(lst[..]);
    }
  }
}
