/** The selection sort `split` uses on short ranges, in place. */
module SuffixSelect {
  import opened Common
  import opened SuffixOrder
  import opened SuffixGroups
  import opened SuffixSplit

  /** The first j of k..end-1 share the least key; all others have larger keys. */
  ghost predicate LeastFirst(q: seq<int>, v: seq<int>, k: int, j: int, end: int, h: int) {
    && 0 <= k < k + j <= end <= |q|
    && (forall i :: k <= i < end ==> 0 <= q[i] + h < |v|)
    && (forall i :: k <= i < k + j ==> v[q[i] + h] == v[q[k] + h])
    && (forall i :: k + j <= i < end ==> v[q[k] + h] < v[q[i] + h])
  }

  /** Swap two entries of the range being reordered. */
  method Exchange(I: array<int>, i: int, j: int, ghost p: seq<int>, ghost q: seq<int>, ghost lo: int, ghost hi: int,
                  ghost h: nat)
    returns (ghost r: seq<int>)
    requires Reordered(p, q, lo, hi) && I.Length == |p| && Loaded(q, I[..], lo, hi, h)
    requires lo <= i < hi && lo <= j < hi
    modifies I
    ensures r == q[i := q[j]][j := q[i]]
    ensures Reordered(p, r, lo, hi) && Loaded(r, I[..], lo, hi, h)
    ensures forall m :: 0 <= m < |p| && !(lo <= m < hi) ==> I[m] == old(I[m])
  {
    SwapKeepsPerm(q, i, j);
    r := q[i := q[j]][j := q[i]];
    var tmp := I[i];
    I[i] := I[j];
    I[j] := tmp;
  }

  lemma StaysReordered(p: seq<int>, lo: int, hi: int)
    requires Perm(p) && 0 <= lo <= hi <= |p|
    ensures Reordered(p, p, lo, hi)
  {
  }

  /** Gather the suffixes of least key at the front of k..end-1. */
  method GatherLeast(I: array<int>, V: array<int>, k: int, end: int, h: nat, ghost p: seq<int>)
    returns (j: int, ghost q: seq<int>)
    requires I != V && I.Length == V.Length == |p| && Perm(p) && k < end
    requires Loaded(p, I[..], k, end, h)
    modifies I
    ensures Reordered(p, q, k, end) && Loaded(q, I[..], k, end, h)
    ensures forall i :: 0 <= i < |p| && !(k <= i < end) ==> I[i] == old(I[i])
    ensures LeastFirst(q, V[..], k, j, end, h)
  {
    hide Perm, Reordered;
    StaysReordered(p, k, end);
    q := p;
    j := 1;
    assert I[k] == p[k];
    var x := V[I[k] + h];
    var i := 1;
    while k + i < end
      invariant 0 < j <= i <= end - k
      invariant Reordered(p, q, k, end) && Loaded(q, I[..], k, end, h)
      invariant forall m :: 0 <= m < |p| && !(k <= m < end) ==> I[m] == old(I[m])
      invariant forall m :: k <= m < k + j ==> V[q[m] + h] == x
      invariant forall m :: k + j <= m < k + i ==> x < V[q[m] + h]
    {
      assert I[k + i] == q[k + i];
      if V[I[k + i] + h] < x {
        x := V[I[k + i] + h];
        j := 0;
      }
      if V[I[k + i] + h] == x {
        q := Exchange(I, k + j, k + i, p, q, k, end, h);
        j := j + 1;
      }
      i := i + 1;
    }
  }

  /** Give lo..hi-1 their final group number, and mark the suffix if it is alone. */
  method NumberClass(I: array<int>, V: array<int>, lo: int, hi: int, ghost p: seq<int>)
    requires I != V && I.Length == V.Length == |p| && Perm(p) && 0 <= lo < hi <= |p|
    requires forall i :: lo <= i < hi ==> I[i] == p[i]
    modifies I, V
    ensures IsAssigned(p, old(V[..]), V[..], lo, hi)
    ensures forall i :: 0 <= i < |p| && !(lo <= i < hi) ==> I[i] == old(I[i])
    ensures forall i :: lo <= i < hi ==> I[i] == if hi == lo + 1 then -1 else p[i]
  {
    var i := 0;
    while i < hi - lo
      invariant 0 <= i <= hi - lo
      invariant forall m :: 0 <= m < |p| ==> I[m] == old(I[m])
      invariant forall m :: 0 <= m < |p| && !(lo <= m < lo + i) ==> V[p[m]] == old(V[p[m]])
      invariant forall m :: lo <= m < lo + i ==> V[p[m]] == hi - 1
    {
      V[I[lo + i]] := hi - 1;
      i := i + 1;
    }
    if hi == lo + 1 {
      I[lo] := -1;
    }
  }

  lemma LeastBelow(text: seq<byte>, p: seq<int>, v: seq<int>, a: seq<int>, k: int, j: int, end: int, e: int, h: nat)
    requires Splittable(text, p, v, a, k, end, e, h) && LeastFirst(p, v, k, j, end, h)
    ensures Below(text, p, k, k + j, e)
    ensures forall i, m :: k <= i < k + j && k <= m < k + j && i != m ==> Agree(text, p[i], p[m], 2 * h)
  {
    forall i, m | k <= i < k + j && k <= m <= e && i != m
      ensures k + j <= m ==> SufLess(text, p[i], p[m])
      ensures m < k + j ==> Agree(text, p[i], p[m], 2 * h)
    {
      if m < end { KeysDecide(text, p, v, a, k, end, e, h, i, m); }
    }
  }

  /** What sorting k..cut-1, the least part of k..end-1, establishes, from p, v, a to q, w, b. */
  ghost predicate RoundDone(text: seq<byte>, p: seq<int>, v: seq<int>, a: seq<int>, q: seq<int>, w: seq<int>,
                            b: seq<int>,
                            k: int, cut: int, end: int, e: int, h: nat) {
    && Framed(p, v, a, q, w, b, k, end)
    && Grouped(text, q, w, h) && Starts(q, w, cut)
    && Refined(text, q, w, b, k, cut, h)
    && (cut < end ==> Splittable(text, q, w, b, cut, end, e, h))
  }

  lemma FinishRound(text: seq<byte>, p: seq<int>, v: seq<int>, a: seq<int>, q: seq<int>, a': seq<int>, w: seq<int>,
                    b: seq<int>,
                    k: int, j: int, end: int, e: int, h: nat)
    requires Splittable(text, p, v, a, k, end, e, h)
    requires Reordered(p, q, k, end) && Loaded(q, a', k, end, h)
    requires LeastFirst(q, v, k, j, end, h)
    requires IsAssigned(q, v, w, k, k + j) && |b| == |p|
    requires forall i :: 0 <= i < |p| && !(k <= i < end) ==> b[i] == a[i]
    requires forall i :: k + j <= i < end ==> b[i] == a'[i]
    requires forall i :: k <= i < k + j ==> b[i] == if j == 1 then -1 else q[i]
    ensures RoundDone(text, p, v, a, q, w, b, k, k + j, end, e, h)
  {
    hide Below, Grouped, Framed;
    ReorderSplittable(text, p, q, v, a, a', k, end, e, h);
    LeastBelow(text, q, v, a', k, j, end, e, h);
    AfterNumbering(text, q, v, a', w, b, k, k + j, end, e, h);
    AssignFrames(p, v, a, q, w, b, k, k + j, end);
    AssignedStarts(p, v, q, w, k, k + j, end);
    NumberedRefined(text, q, w, b, k, k + j, h);
  }

  lemma AssignedStarts(p: seq<int>, v: seq<int>, q: seq<int>, w: seq<int>, lo: int, cut: int, hi: int)
    requires Starts(p, v, lo) && Reordered(p, q, lo, hi) && cut <= hi && IsAssigned(q, v, w, lo, cut)
    ensures Starts(q, w, lo)
  {
    forall k | 0 <= k < lo ensures w[q[k]] < lo {
      assert q[k] == p[k];
    }
  }

  lemma AssignFrames(p: seq<int>, v: seq<int>, a: seq<int>, q: seq<int>, w: seq<int>, b: seq<int>, lo: int, cut: int,
                     hi: int)
    requires Reordered(p, q, lo, hi) && lo < cut <= hi && |p| == |a| == |b|
    requires IsAssigned(q, v, w, lo, cut)
    requires forall i :: 0 <= i < |p| && !(lo <= i < hi) ==> b[i] == a[i]
    ensures Framed(p, v, a, q, w, b, lo, hi)
  {
    forall k | 0 <= k < |p| && !(lo <= k < hi) ensures w[p[k]] == v[p[k]] {
      assert q[k] == p[k];
    }
  }

  /** One round of the selection: the least class of k..end-1 becomes a group. */
  method SplitLeast(I: array<int>, V: array<int>, k: int, end: int, h: nat,
                    ghost text: seq<byte>, ghost p: seq<int>, ghost e: int)
    returns (j: int, ghost q: seq<int>)
    requires I != V && I.Length == V.Length && k < end
    requires Splittable(text, p, V[..], I[..], k, end, e, h)
    modifies I, V
    ensures 0 < j <= end - k
    ensures RoundDone(text, p, old(V[..]), old(I[..]), q, V[..], I[..], k, k + j, end, e, h)
  {
    hide Below, Ordered, RoundDone, Starts;
    ghost var v := V[..];
    ghost var a := I[..];
    j, q := GatherLeast(I, V, k, end, h, p);
    assert V[..] == v;
    ghost var a' := I[..];
    NumberClass(I, V, k, k + j, q);
    FinishRound(text, p, v, a, q, a', V[..], I[..], k, j, end, e, h);
  }

  /** The state of a split of start..end-1 in which start..k-1 are done. */
  ghost predicate SplitState(text: seq<byte>, p: seq<int>, v: seq<int>, a: seq<int>, q: seq<int>, w: seq<int>,
                             b: seq<int>,
                             start: int, k: int, end: int, e: int, h: nat) {
    && Framed(p, v, a, q, w, b, start, end)
    && Grouped(text, q, w, h) && Starts(q, w, start)
    && Refined(text, q, w, b, start, k, h)
    && (k < end ==> Splittable(text, q, w, b, k, end, e, h))
  }

  lemma SplitStart(text: seq<byte>, p: seq<int>, v: seq<int>, a: seq<int>, start: int, end: int, e: int, h: nat)
    requires Splittable(text, p, v, a, start, end, e, h)
    ensures SplitState(text, p, v, a, p, v, a, start, start, end, e, h)
  {
  }

  lemma SplitStep(text: seq<byte>, p: seq<int>, v: seq<int>, a: seq<int>, p1: seq<int>, v1: seq<int>, a1: seq<int>,
                  q: seq<int>, w: seq<int>, b: seq<int>, start: int, k: int, cut: int, end: int, e: int, h: nat)
    requires start <= k < cut <= end
    requires SplitState(text, p, v, a, p1, v1, a1, start, k, end, e, h)
    requires RoundDone(text, p1, v1, a1, q, w, b, k, cut, end, e, h)
    ensures SplitState(text, p, v, a, q, w, b, start, cut, end, e, h)
  {
    hide Refined, Splittable, Starts, Grouped;
    StartsFramed(p1, v1, a1, q, w, b, start, k, end);
    RefinedFramed(text, p1, v1, a1, q, w, b, start, k, end, h);
    RefinedJoin(text, q, w, b, start, k, cut, h);
    FramedTrans(p, v, a, p1, v1, a1, q, w, b, start, start, end, end, k, end);
  }

  lemma StartsFramed(p: seq<int>, v: seq<int>, a: seq<int>, p': seq<int>, v': seq<int>, a': seq<int>, s: int,
                     lo: int, hi: int)
    requires Starts(p, v, s) && s <= lo && Framed(p, v, a, p', v', a', lo, hi)
    ensures Starts(p', v', s)
  {
    forall k | 0 <= k < s ensures v'[p'[k]] < s {
      assert p'[k] == p[k];
    }
  }

  /** The selection sort that `split` runs on fewer than sixteen suffixes. */
  method SplitSmall(I: array<int>, V: array<int>, start: int, len: int, h: nat,
                    ghost text: seq<byte>, ghost p: seq<int>, ghost e: int)
    returns (ghost q: seq<int>)
    requires I != V && I.Length == V.Length && len >= 0
    requires Splittable(text, p, V[..], I[..], start, start + len, e, h)
    modifies I, V
    ensures SplitState(text, p, old(V[..]), old(I[..]), q, V[..], I[..], start, start + len, start + len, e, h)
  {
    hide *;
    ghost var v, a, end := V[..], I[..], start + len;
    q := p;
    SplitStart(text, p, v, a, start, end, e, h);
    var k := start;
    while k < start + len
      invariant start <= k <= end
      invariant SplitState(text, p, v, a, q, V[..], I[..], start, k, end, e, h)
    {
      ghost var p1, v1, a1 := q, V[..], I[..];
      assert Splittable(text, q, V[..], I[..], k, end, e, h) by {
        SplitRest(text, p, v, a, q, V[..], I[..], start, k, end, e, h);
      }
      var j;
      j, q := SplitLeast(I, V, k, start + len, h, text, q, e);
      SplitStep(text, p, v, a, p1, v1, a1, q, V[..], I[..], start, k, k + j, end, e, h);
      k := k + j;
    }
  }

  lemma SplitRest(text: seq<byte>, p: seq<int>, v: seq<int>, a: seq<int>, q: seq<int>, w: seq<int>, b: seq<int>,
                        start: int, k: int, end: int, e: int, h: nat)
    requires SplitState(text, p, v, a, q, w, b, start, k, end, e, h) && k < end
    ensures Splittable(text, q, w, b, k, end, e, h)
  {
  }
}
