/** `split`: partition a long range and sort its parts. */
module SuffixSort {
  import opened Common
  import opened SuffixOrder
  import opened SuffixGroups
  import opened SuffixSplit
  import opened SuffixSelect
  import opened SuffixPartition

  lemma PivotCounted(p: seq<int>, v: seq<int>, a: seq<int>, d: seq<int>, start: int, end: int, h: int, x: int,
                     jj: int, kk: int, i: int)
    requires Partitioning(p, p, v, a, d, start, end, h, x, start, 0, 0, jj, kk)
    requires start <= i < end && v[a[i] + h] == x
    ensures jj < kk
  {
    assert d[i - start] == Side(v[p[i] + h], x);
    CountAtLeast(d, 1, i - start, i - start + 1);
  }

  ghost predicate AllAgree(text: seq<byte>, p: seq<int>, lo: int, hi: int, h: nat) {
    && 0 <= lo <= hi <= |p|
    && forall i, m :: lo <= i < hi && lo <= m < hi && i != m ==> Agree(text, p[i], p[m], 2 * h)
  }

  /** The partitioned range, in terms of the suffixes themselves: what later
      changes to the keys cannot undo. */
  ghost predicate ThreeWay(text: seq<byte>, q: seq<int>, v: seq<int>, a: seq<int>, start: int, jj: int, kk: int,
                           end: int, e: int, h: nat) {
    && Splittable(text, q, v, a, start, end, e, h)
    && start <= jj < kk <= end
    && Below(text, q, start, jj, e) && Below(text, q, jj, kk, e) && AllAgree(text, q, jj, kk, h)
  }

  lemma KeysToThreeWay(text: seq<byte>, q: seq<int>, v: seq<int>, a: seq<int>, start: int, jj: int, kk: int,
                       end: int, e: int, h: nat, x: int)
    requires Splittable(text, q, v, a, start, end, e, h) && start <= jj < kk <= end
    requires forall i :: start <= i < end ==> 0 <= q[i] + h < |v|
    requires forall i :: start <= i < jj ==> v[q[i] + h] < x
    requires forall i :: jj <= i < kk ==> v[q[i] + h] == x
    requires forall i :: kk <= i < end ==> v[q[i] + h] > x
    ensures ThreeWay(text, q, v, a, start, jj, kk, end, e, h)
  {
    forall i, m | start <= i < kk && i <= m <= e && i != m
      ensures (i < jj <= m) || (jj <= i && kk <= m) ==> SufLess(text, q[i], q[m])
      ensures jj <= i && m < kk ==> Agree(text, q[i], q[m], 2 * h) && Agree(text, q[m], q[i], 2 * h)
    {
      if m < end { KeysDecide(text, q, v, a, start, end, e, h, i, m); }
    }
  }

  /** The first recursive call sorts the least part of the range. */
  lemma LowRound(text: seq<byte>, q: seq<int>, v: seq<int>, a: seq<int>, q1: seq<int>, v1: seq<int>, a1: seq<int>,
                 start: int, jj: int, kk: int, end: int, e: int, h: nat)
    requires ThreeWay(text, q, v, a, start, jj, kk, end, e, h) && start < jj
    requires SplitState(text, q, v, a, q1, v1, a1, start, jj, jj, e, h)
    ensures RoundDone(text, q, v, a, q1, v1, a1, start, jj, end, e, h)
    ensures Below(text, q1, jj, kk, e) && AllAgree(text, q1, jj, kk, h)
  {
    LowUntouched(text, q, v, a, q1, v1, a1, start, jj, kk, end, e, h);
    LowStarts(text, q, v, a, q1, v1, a1, start, jj, kk, end, e, h);
    LowFramed(q, v, a, q1, v1, a1, start, jj, end);
    hide Agree, SufLess, Grouped, Perm, Refined, Framed, Starts;
  }

  /** From the pivot's region on, nothing has moved. */
  lemma LowUntouched(text: seq<byte>, q: seq<int>, v: seq<int>, a: seq<int>, q1: seq<int>, v1: seq<int>, a1: seq<int>,
                     start: int, jj: int, kk: int, end: int, e: int, h: nat)
    requires ThreeWay(text, q, v, a, start, jj, kk, end, e, h) && start < jj
    requires SplitState(text, q, v, a, q1, v1, a1, start, jj, jj, e, h)
    ensures |q1| == |q| && Loaded(q1, a1, jj, end, h)
    ensures Below(text, q1, jj, end, e) && Below(text, q1, jj, kk, e) && AllAgree(text, q1, jj, kk, h)
  {
    hide Agree, SufLess, Grouped, Perm, Refined, Starts;
    assert forall k :: jj <= k < |q| ==> q1[k] == q[k] && a1[k] == a[k];
  }

  /** And the pivot's region starts what is left of the group. */
  lemma LowStarts(text: seq<byte>, q: seq<int>, v: seq<int>, a: seq<int>, q1: seq<int>, v1: seq<int>, a1: seq<int>,
                  start: int, jj: int, kk: int, end: int, e: int, h: nat)
    requires ThreeWay(text, q, v, a, start, jj, kk, end, e, h) && start < jj
    requires SplitState(text, q, v, a, q1, v1, a1, start, jj, jj, e, h)
    ensures Starts(q1, v1, jj) && IsGroup(q1, v1, jj, e)
  {
    hide Agree, Below, AllAgree, Ordered, Loaded;
    assert forall k :: jj <= k <= e ==> q1[k] == q[k] && v1[q[k]] == v[q[k]];
  }

  lemma LowFramed(q: seq<int>, v: seq<int>, a: seq<int>, q1: seq<int>, v1: seq<int>, a1: seq<int>,
                  start: int, jj: int, end: int)
    requires Framed(q, v, a, q1, v1, a1, start, jj) && jj <= end <= |q|
    ensures Framed(q, v, a, q1, v1, a1, start, end)
  {
    FramedTrans(q, v, a, q1, v1, a1, q1, v1, a1, start, start, jj, end, end, end);
  }

  /** Numbering the middle region makes it one group. */
  lemma MiddleRound(text: seq<byte>, q: seq<int>, v: seq<int>, a: seq<int>, w: seq<int>, b: seq<int>,
                    k: int, cut: int, end: int, e: int, h: nat)
    requires Splittable(text, q, v, a, k, end, e, h) && k < cut <= end
    requires Below(text, q, k, cut, e) && AllAgree(text, q, k, cut, h)
    requires IsAssigned(q, v, w, k, cut) && |b| == |q|
    requires forall i :: 0 <= i < |q| && !(k <= i < cut) ==> b[i] == a[i]
    requires forall i :: k <= i < cut ==> b[i] == if cut == k + 1 then -1 else q[i]
    ensures RoundDone(text, q, v, a, q, w, b, k, cut, end, e, h)
  {
    AfterNumbering(text, q, v, a, w, b, k, cut, end, e, h);
    AssignFrames(q, v, a, q, w, b, k, cut, end);
    AssignedStarts(q, v, q, w, k, cut, end);
    NumberedRefined(text, q, w, b, k, cut, h);
  }

  /** The second recursive call sorts all that is left. */
  lemma HighRound(text: seq<byte>, q: seq<int>, v: seq<int>, a: seq<int>, q1: seq<int>, v1: seq<int>, a1: seq<int>,
                  kk: int, end: int, e: int, h: nat)
    requires SplitState(text, q, v, a, q1, v1, a1, kk, end, end, e, h)
    ensures RoundDone(text, q, v, a, q1, v1, a1, kk, end, end, e, h)
  {
  }

  lemma SplittableBounds(text: seq<byte>, q: seq<int>, v: seq<int>, a: seq<int>, k: int, end: int, e: int, h: nat)
    requires Splittable(text, q, v, a, k, end, e, h)
    ensures Perm(q) && |q| == |v| == |a| == |text| + 1 && 0 <= k <= end <= |q|
    ensures Loaded(q, a, k, end, h) && (forall i :: k <= i < end ==> a[i] == q[i] && 0 <= a[i] && a[i] + h < |v|)
  {
  }

  /** Partition a long range by the key of its middle element. */
  method Partition(I: array<int>, V: array<int>, start: int, len: int, h: nat,
                   ghost text: seq<byte>, ghost p: seq<int>, ghost e: int)
    returns (jj: int, kk: int, ghost q: seq<int>)
    requires I != V && I.Length == V.Length && len > 0
    requires Splittable(text, p, V[..], I[..], start, start + len, e, h)
    modifies I
    ensures ThreeWay(text, q, V[..], I[..], start, jj, kk, start + len, e, h)
    ensures Reordered(p, q, start, start + len)
    ensures forall m :: 0 <= m < I.Length && !(start <= m < start + len) ==> I[m] == old(I[m])
  {
    hide *;
    ghost var v, a, end := V[..], I[..], start + len;
    SplittableBounds(text, p, v, a, start, end, e, h);
    var x := V[I[start + len / 2] + h];
    ghost var d;
    jj, kk, d := CountSides(I, V, start, len, h, x, p);
    PivotCounted(p, v, a, d, start, end, h, x, jj, kk, start + len / 2);
    var j, k;
    j, k, q, d := PartitionLow(I, V, start, start + len, h, x, jj, kk, p, d);
    assert V[..] == v;
    ghost var kEnd;
    kEnd, q, d := PartitionMiddle(I, V, start, start + len, h, x, j, k, jj, kk, p, q, d);
    assert V[..] == v;
    Partitioned(p, q, v, I[..], d, start, end, h, x, kEnd, jj, kk);
    assert forall i :: start <= i < end ==> I[..][i] == q[i] by { LoadedValues(q, I[..], start, end, h); }
    ReorderSplittable(text, p, q, v, a, I[..], start, end, e, h);
    KeysToThreeWay(text, q, v, I[..], start, jj, kk, end, e, h, x);
  }

  lemma LoadedValues(q: seq<int>, a: seq<int>, lo: int, hi: int, h: int)
    requires Loaded(q, a, lo, hi, h)
    ensures |a| == |q| && 0 <= lo <= hi <= |q| && forall i :: lo <= i < hi ==> a[i] == q[i]
  {
  }

  lemma AfterPartition(text: seq<byte>, p: seq<int>, v: seq<int>, a: seq<int>, q: seq<int>, b: seq<int>,
                       start: int, jj: int, kk: int, end: int, e: int, h: nat)
    requires Splittable(text, p, v, a, start, end, e, h)
    requires ThreeWay(text, q, v, b, start, jj, kk, end, e, h) && Reordered(p, q, start, end)
    requires forall m :: 0 <= m < |a| && !(start <= m < end) ==> b[m] == a[m]
    ensures SplitState(text, p, v, a, q, v, b, start, start, end, e, h)
    ensures start <= jj < kk <= end <= |q|
    ensures start < jj ==> Splittable(text, q, v, b, start, jj, e, h)
    ensures Below(text, q, jj, kk, e) && AllAgree(text, q, jj, kk, h)
  {
  }

  /** `split`: sort start..start+len-1 of the group ending at e by the group
      numbers h further on, recursing on what is below and above the pivot. */
  method Split(I: array<int>, V: array<int>, start: int, len: int, h: nat,
               ghost text: seq<byte>, ghost p: seq<int>, ghost e: int)
    returns (ghost q: seq<int>)
    requires I != V && I.Length == V.Length && len >= 0
    requires Splittable(text, p, V[..], I[..], start, start + len, e, h)
    modifies I, V
    ensures SplitState(text, p, old(V[..]), old(I[..]), q, V[..], I[..], start, start + len, start + len, e, h)
    decreases len
  {
    hide *;
    if len < 16 {
      q := SplitSmall(I, V, start, len, h, text, p, e);
      return;
    }
    ghost var v, a, end := V[..], I[..], start + len;
    var jj, kk;
    jj, kk, q := Partition(I, V, start, len, h, text, p, e);
    SplittableBounds(text, p, v, a, start, end, e, h);
    assert V[..] == v;
    AfterPartition(text, p, v, a, q, I[..], start, jj, kk, end, e, h);
    ghost var q1, v1, a1 := q, V[..], I[..];
    if jj > start {
      q := Split(I, V, start, jj - start, h, text, q, e);
      LowRound(text, q1, v1, a1, q, V[..], I[..], start, jj, kk, end, e, h);
      SplitStep(text, p, v, a, q1, v1, a1, q, V[..], I[..], start, start, jj, end, e, h);
    }
    ghost var q2, v2, a2 := q, V[..], I[..];
    SplitRest(text, p, v, a, q, v2, a2, start, jj, end, e, h);
    SplittableBounds(text, q, v2, a2, jj, end, e, h);
    NumberClass(I, V, jj, kk, q);
    MiddleRound(text, q, v2, a2, V[..], I[..], jj, kk, end, e, h);
    SplitStep(text, p, v, a, q2, v2, a2, q, V[..], I[..], start, jj, kk, end, e, h);
    if start + len > kk {
      ghost var q3, v3, a3 := q, V[..], I[..];
      SplitRest(text, p, v, a, q, v3, a3, start, kk, end, e, h);
      q := Split(I, V, kk, start + len - kk, h, text, q, e);
      HighRound(text, q3, v3, a3, q, V[..], I[..], kk, end, e, h);
      SplitStep(text, p, v, a, q3, v3, a3, q, V[..], I[..], start, kk, end, end, e, h);
    }
  }
}
