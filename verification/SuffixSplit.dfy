/** `split`: sort one group by the group numbers h bytes further on, in place. */
module SuffixSplit {
  import opened Common
  import opened SuffixOrder
  import opened SuffixGroups

  /** A group of one: its suffix is at its final index. */
  ghost predicate Singleton(p: seq<int>, v: seq<int>, k: int) {
    && Perm(p) && |p| == |v| && 0 <= k < |p|
    && v[p[k]] == k && (k == 0 || v[p[k - 1]] < k)
  }

  ghost predicate Reordered(p: seq<int>, q: seq<int>, lo: int, hi: int) {
    && Perm(p) && Perm(q) && |p| == |q| && 0 <= lo <= hi <= |p|
    && forall i :: 0 <= i < |p| && !(lo <= i < hi) ==> q[i] == p[i]
  }

  /** On lo..hi-1 the array holds p, and every key read stays inside v. */
  ghost predicate Loaded(p: seq<int>, a: seq<int>, lo: int, hi: int, h: int) {
    && |a| == |p| && 0 <= lo <= hi <= |p|
    && forall i :: lo <= i < hi ==> a[i] == p[i] && 0 <= p[i] && p[i] + h < |p|
  }

  /** lo..hi-1 is split into groups of its own that share 2h bytes, and its
      groups of one are marked in the array. */
  ghost predicate Refined(text: seq<byte>, p: seq<int>, v: seq<int>, a: seq<int>, lo: int, hi: int, h: nat) {
    && Perm(p) && |p| == |v| == |a| && 0 <= lo <= hi <= |p|
    && (forall k :: lo <= k < hi ==> k <= v[p[k]] < hi)
    && (forall k :: lo <= k < hi ==> a[k] == if Singleton(p, v, k) then -1 else p[k])
    && (forall i, j :: lo <= i < hi && lo <= j < hi && i != j && v[p[i]] == v[p[j]] ==> Agree(text, p[i], p[j], 2 * h))
  }

  /** Nothing outside lo..hi-1 has changed. */
  ghost predicate Framed(p: seq<int>, v: seq<int>, a: seq<int>, p': seq<int>, v': seq<int>, a': seq<int>, lo: int,
                         hi: int) {
    && Reordered(p, p', lo, hi) && |p| == |v| == |a| == |v'| == |a'|
    && (forall k :: 0 <= k < |p| && !(lo <= k < hi) ==> a'[k] == a[k] && v'[p[k]] == v[p[k]])
  }

  /** What `split` may assume: lo..e is one group, its tail mid..e is known to
      come after lo..mid-1, and only lo..mid-1 is to be sorted. */
  ghost predicate Splittable(text: seq<byte>, p: seq<int>, v: seq<int>, a: seq<int>, lo: int, mid: int, e: int,
                             h: nat) {
    && h > 0 && Grouped(text, p, v, h) && IsGroup(p, v, lo, e)
    && Loaded(p, a, lo, mid, h) && mid <= e + 1
    && Below(text, p, lo, mid, e)
  }

  lemma ReorderBelow(text: seq<byte>, p: seq<int>, q: seq<int>, lo: int, mid: int, e: int)
    requires Reordered(p, q, lo, mid) && Below(text, p, lo, mid, e)
    ensures Below(text, q, lo, mid, e)
  {
    forall k, m | lo <= k < mid <= m <= e ensures SufLess(text, q[k], q[m]) {
      var k' := SameOutside(p, q, lo, mid, k);
      assert q[m] == p[m];
    }
  }

  lemma ReorderSplittable(text: seq<byte>, p: seq<int>, q: seq<int>, v: seq<int>, a: seq<int>, b: seq<int>,
                          lo: int, mid: int, e: int, h: nat)
    requires Splittable(text, p, v, a, lo, mid, e, h)
    requires Reordered(p, q, lo, mid) && |b| == |p| && forall i :: lo <= i < mid ==> b[i] == q[i]
    ensures Splittable(text, q, v, b, lo, mid, e, h)
  {
    forall k | lo <= k < mid ensures v[q[k]] == e && q[k] + h < |p| {
      var k' := SameOutside(p, q, lo, mid, k);
      assert v[p[k']] == e;
    }
    assert IsGroup(q, v, lo, e) by {
      forall k | lo <= k <= e ensures v[q[k]] == e {
        if k >= mid { assert q[k] == p[k]; }
      }
    }
    assert Intervals(q, v) by {
      forall k, m | 0 <= k <= m < |q| && m <= v[q[k]] ensures v[q[m]] == v[q[k]] {
        if lo <= k <= e { } else {
          assert v[q[k]] == v[p[k]];
          assert v[p[m]] == v[p[k]];
        }
      }
    }
    ReorderBelow(text, p, q, lo, mid, e);
  }

  /** Keys decide the order inside a group, whatever refinement they have
      undergone since the group was entered. */
  lemma KeysDecide(text: seq<byte>, p: seq<int>, v: seq<int>, a: seq<int>, lo: int, mid: int, e: int, h: nat, i: int,
                   j: int)
    requires Splittable(text, p, v, a, lo, mid, e, h)
    requires lo <= i < mid && lo <= j < mid && i != j
    ensures v[p[i] + h] < v[p[j] + h] ==> SufLess(text, p[i], p[j])
    ensures v[p[i] + h] == v[p[j] + h] ==> Agree(text, p[i], p[j], 2 * h)
  {
    assert v[p[i]] == v[p[j]] == e;
    KeyOrder(text, v, h, p[i], p[j]);
  }

  /** Numbering a class of least keys leaves the rest of the group splittable. */
  lemma AfterNumbering(text: seq<byte>, p: seq<int>, v: seq<int>, a: seq<int>, w: seq<int>, b: seq<int>,
                       lo: int, cut: int, mid: int, e: int, h: nat)
    requires Splittable(text, p, v, a, lo, mid, e, h)
    requires lo < cut <= mid && Below(text, p, lo, cut, e)
    requires IsAssigned(p, v, w, lo, cut)
    requires |b| == |a| && forall i :: cut <= i < mid ==> b[i] == a[i]
    ensures Grouped(text, p, w, h) && Starts(p, w, cut)
    ensures cut < mid ==> Splittable(text, p, w, b, cut, mid, e, h)
  {
    AssignKeepsIntervals(p, v, w, lo, cut, e);
    AssignKeepsOrdered(text, p, v, w, lo, cut, e, h);
  }

  /** A freshly numbered class is refined on its own. */
  lemma NumberedRefined(text: seq<byte>, p: seq<int>, w: seq<int>, b: seq<int>, lo: int, cut: int, h: nat)
    requires Perm(p) && |p| == |w| == |b| && 0 <= lo < cut <= |p|
    requires Starts(p, w, lo)
    requires forall k :: lo <= k < cut ==> w[p[k]] == cut - 1
    requires forall k :: lo <= k < cut ==> b[k] == if cut == lo + 1 then -1 else p[k]
    requires forall i, j :: lo <= i < cut && lo <= j < cut && i != j ==> Agree(text, p[i], p[j], 2 * h)
    ensures Refined(text, p, w, b, lo, cut, h)
  {
  }

  lemma RefinedJoin(text: seq<byte>, p: seq<int>, v: seq<int>, a: seq<int>, lo: int, mid: int, hi: int, h: nat)
    requires Refined(text, p, v, a, lo, mid, h) && Refined(text, p, v, a, mid, hi, h)
    ensures Refined(text, p, v, a, lo, hi, h)
  {
  }

  /** A refined range survives any change made outside it. */
  lemma RefinedFramed(text: seq<byte>, p: seq<int>, v: seq<int>, a: seq<int>, p': seq<int>, v': seq<int>, a': seq<int>,
                      lo: int, mid: int, hi: int, h: nat)
    requires Refined(text, p, v, a, lo, mid, h)
    requires Starts(p, v, lo) && Starts(p', v', lo)
    requires Framed(p, v, a, p', v', a', mid, hi)
    ensures Refined(text, p', v', a', lo, mid, h)
  {
    forall k | lo <= k < mid ensures Singleton(p', v', k) == Singleton(p, v, k) && p'[k] == p[k]
      && v'[p'[k]] == v[p[k]] {
      if k > lo { assert v'[p'[k - 1]] == v[p[k - 1]]; }
    }
  }

  lemma FramedTrans(p: seq<int>, v: seq<int>, a: seq<int>, p': seq<int>, v': seq<int>, a': seq<int>,
                    p'': seq<int>, v'': seq<int>, a'': seq<int>, lo: int, i: int, j: int, hi: int, l: int, m: int)
    requires 0 <= lo <= i <= j <= hi && lo <= l <= m <= hi <= |p|
    requires Framed(p, v, a, p', v', a', i, j) && Framed(p', v', a', p'', v'', a'', l, m)
    ensures Framed(p, v, a, p'', v'', a'', lo, hi)
  {
    forall k | 0 <= k < |p| && !(lo <= k < hi) ensures a''[k] == a[k] && v''[p[k]] == v[p[k]] {
      assert p'[k] == p[k];
    }
  }
}
