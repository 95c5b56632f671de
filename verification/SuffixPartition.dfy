/** The counting three-way partition `split` uses on long ranges, in place. */
module SuffixPartition {
  import opened SuffixGroups
  import opened SuffixSplit
  import opened SuffixSelect

  /** A key against the pivot: 0 below, 1 equal, 2 above. */
  function Side(key: int, x: int): int {
    if key < x then 0 else if key == x then 1 else 2
  }

  function Count(d: seq<int>, c: int): nat {
    if d == [] then 0
    else Count(d[..|d| - 1], c) + if d[|d| - 1] == c then 1 else 0
  }

  lemma {:induction false} CountUpdate(d: seq<int>, i: nat, x: int, c: int)
    requires i < |d|
    ensures Count(d[i := x], c) == Count(d, c) - (if d[i] == c then 1 else 0) + (if x == c then 1 else 0)
    decreases |d|
  {
    var n := |d| - 1;
    if i == n {
      assert d[i := x][..n] == d[..n];
    } else {
      assert d[i := x][..n] == d[..n][i := x];
      CountUpdate(d[..n], i, x, c);
    }
  }

  lemma CountSwap(d: seq<int>, i: nat, j: nat, c: int)
    requires i < |d| && j < |d|
    ensures Count(d[i := d[j]][j := d[i]], c) == Count(d, c)
  {
    CountUpdate(d, i, d[j], c);
    CountUpdate(d[i := d[j]], j, d[i], c);
  }

  lemma {:induction false} CountAtLeast(d: seq<int>, c: int, lo: nat, hi: nat)
    requires lo <= hi <= |d|
    requires forall m :: lo <= m < hi ==> d[m] == c
    ensures Count(d, c) >= hi - lo
  {
    if lo < hi {
      CountAtLeast(d[..|d| - 1], c, lo, if hi == |d| then hi - 1 else hi);
    }
  }

  /** A block of c's and one more c elsewhere. */
  lemma {:induction false} CountMore(d: seq<int>, c: int, lo: nat, hi: nat, i: nat)
    requires lo <= hi <= |d| && i < |d| && !(lo <= i < hi) && d[i] == c
    requires forall m :: lo <= m < hi ==> d[m] == c
    ensures Count(d, c) > hi - lo
  {
    var n := |d| - 1;
    if lo == hi {
      CountAtLeast(d, c, i, i + 1);
    } else if i == n {
      CountAtLeast(d[..n], c, lo, hi);
    } else {
      CountMore(d[..n], c, lo, if hi == |d| then n else hi, i);
    }
  }

  lemma {:induction false} CountTotal(d: seq<int>)
    requires forall m :: 0 <= m < |d| ==> 0 <= d[m] <= 2
    ensures Count(d, 0) + Count(d, 1) + Count(d, 2) == |d|
  {
    if d != [] { CountTotal(d[..|d| - 1]); }
  }

  /** d records the side of every key of lo..hi-1. */
  ghost predicate Coded(d: seq<int>, q: seq<int>, v: seq<int>, lo: int, hi: int, h: int, x: int) {
    && 0 <= lo <= hi <= |q| && |d| == hi - lo
    && (forall i :: lo <= i < hi ==> 0 <= q[i] + h < |v|)
    && (forall i :: lo <= i < hi ==> d[i - lo] == Side(v[q[i] + h], x))
  }

  /** How far the three regions have been filled. */
  ghost predicate Regions(d: seq<int>, i: int, jj: int, j: int, kk: int, k: int) {
    && (forall m :: 0 <= m < |d| ==> 0 <= d[m] <= 2)
    && Count(d, 0) == jj && Count(d, 1) == kk - jj
    && 0 <= i <= jj && 0 <= j <= kk - jj && 0 <= k <= |d| - kk
    && (forall m :: 0 <= m < i ==> d[m] == 0)
    && (forall m :: jj <= m < jj + j ==> d[m] == 1)
    && (forall m :: kk <= m < kk + k ==> d[m] == 2)
  }

  ghost function Swapped(s: seq<int>, i: nat, j: nat): seq<int>
    requires i < |s| && j < |s|
  {
    s[i := s[j]][j := s[i]]
  }

  lemma RegionsEqual(d: seq<int>, i: int, jj: int, j: int, kk: int, k: int)
    requires Regions(d, i, jj, j, kk, k) && 0 <= i < jj && d[i] == 1
    ensures 0 <= i < jj + j < kk <= |d| && Regions(Swapped(d, i, jj + j), i, jj, j + 1, kk, k)
  {
    if jj + j == kk { CountMore(d, 1, jj, kk, i); }
    CountSwap(d, i, jj + j, 0);
    CountSwap(d, i, jj + j, 1);
  }

  lemma RegionsAbove(d: seq<int>, f: int, i: int, jj: int, j: int, kk: int, k: int)
    requires Regions(d, f, jj, j, kk, k)
    requires f == i < jj || (f == jj && i == jj + j < kk)
    requires d[i] == 2
    ensures 0 <= i < kk + k < |d| && Regions(Swapped(d, i, kk + k), f, jj, j, kk, k + 1)
  {
    hide Count;
    CountTotal(d);
    if kk + k == |d| { CountMore(d, 2, kk, |d|, i); }
    CountSwap(d, i, kk + k, 0);
    CountSwap(d, i, kk + k, 1);
  }

  /** Once the first region is full, a key that is not equal is above. */
  lemma MiddleSide(d: seq<int>, jj: int, j: int, kk: int, k: int)
    requires Regions(d, jj, jj, j, kk, k) && jj + j < kk && d[jj + j] != 1
    ensures d[jj + j] == 2
  {
    if d[jj + j] == 0 { CountMore(d, 0, 0, jj, jj + j); }
  }

  /** With the first two regions full, everything else is above. */
  lemma RegionsFull(d: seq<int>, jj: int, kk: int, k: int, m: int)
    requires Regions(d, jj, jj, kk - jj, kk, k) && kk <= m < |d|
    ensures d[m] == 2
  {
    if d[m] == 0 { CountMore(d, 0, 0, jj, m); }
    if d[m] == 1 { CountMore(d, 1, jj, kk, m); }
  }

  lemma SwapKeepsCoded(d: seq<int>, q: seq<int>, v: seq<int>, lo: int, hi: int, h: int, x: int, i: nat, j: nat)
    requires Coded(d, q, v, lo, hi, h, x) && i < |d| && j < |d|
    ensures Coded(Swapped(d, i, j), Swapped(q, lo + i, lo + j), v, lo, hi, h, x)
  {
  }

  /** The range while it is partitioned: q is what I holds on it and d its sides. */
  ghost predicate Partitioning(p: seq<int>, q: seq<int>, v: seq<int>, a: seq<int>, d: seq<int>,
                               start: int, end: int, h: int, x: int, i: int, j: int, k: int, jj: int, kk: int) {
    && Reordered(p, q, start, end) && Loaded(q, a, start, end, h)
    && Coded(d, q, v, start, end, h, x)
    && Regions(d, i - start, jj - start, j, kk - start, k)
  }

  method CountSides(I: array<int>, V: array<int>, start: int, len: int, h: nat, x: int, ghost p: seq<int>)
    returns (jj: int, kk: int, ghost d: seq<int>)
    requires I.Length == V.Length == |p| && Perm(p) && len >= 0
    requires Loaded(p, I[..], start, start + len, h)
    ensures Partitioning(p, p, V[..], I[..], d, start, start + len, h, x, start, 0, 0, jj, kk)
  {
    jj := 0;
    kk := 0;
    d := [];
    var i := start;
    while i < start + len
      invariant start <= i <= start + len
      invariant Coded(d, p, V[..], start, i, h, x)
      invariant jj == Count(d, 0) && kk == Count(d, 1)
    {
      assert I[i] == p[i];
      ghost var s := Side(V[I[i] + h], x);
      if V[I[i] + h] < x { jj := jj + 1; }
      if V[I[i] + h] == x { kk := kk + 1; }
      assert (d + [s])[..|d|] == d;
      d := d + [s];
      i := i + 1;
    }
    assert forall m :: 0 <= m < |d| ==> d[m] == Side(V[p[start + m] + h], x);
    CountTotal(d);
    jj := jj + start;
    kk := kk + jj;
  }

  /** Send the key at i, equal to the pivot, to the end of the middle region. */
  method MoveEqual(I: array<int>, V: array<int>, start: int, end: int, h: nat, x: int, i: int, j: int, k: int,
                   jj: int, kk: int,
                   ghost p: seq<int>, ghost q: seq<int>, ghost d: seq<int>)
    returns (ghost r: seq<int>, ghost e: seq<int>)
    requires I != V && I.Length == V.Length == |p|
    requires Partitioning(p, q, V[..], I[..], d, start, end, h, x, i, j, k, jj, kk)
    requires start <= i < jj && d[i - start] == 1
    modifies I
    ensures Partitioning(p, r, V[..], I[..], e, start, end, h, x, i, j + 1, k, jj, kk)
    ensures forall m :: 0 <= m < |p| && !(start <= m < end) ==> I[m] == old(I[m])
  {
    hide Regions, Reordered, Coded;
    assert Regions(d, i - start, jj - start, j, kk - start, k);
    RegionsEqual(d, i - start, jj - start, j, kk - start, k);
    CodedLength(d, q, V[..], start, end, h, x);
    SwapKeepsCoded(d, q, V[..], start, end, h, x, i - start, jj - start + j);
    r := Exchange(I, i, jj + j, p, q, start, end, h);
    e := Swapped(d, i - start, jj - start + j);
  }

  /** Send the key at i, above the pivot, to the end of the last region. */
  method MoveAbove(I: array<int>, V: array<int>, start: int, end: int, h: nat, x: int, f: int, i: int, j: int,
                   k: int, jj: int, kk: int,
                   ghost p: seq<int>, ghost q: seq<int>, ghost d: seq<int>)
    returns (ghost r: seq<int>, ghost e: seq<int>)
    requires I != V && I.Length == V.Length == |p|
    requires Partitioning(p, q, V[..], I[..], d, start, end, h, x, f, j, k, jj, kk)
    requires f == i < jj || (f == jj && i == jj + j < kk)
    requires start <= i < end && d[i - start] == 2
    modifies I
    ensures Partitioning(p, r, V[..], I[..], e, start, end, h, x, f, j, k + 1, jj, kk)
    ensures forall m :: 0 <= m < |p| && !(start <= m < end) ==> I[m] == old(I[m])
  {
    hide Regions, Reordered, Coded;
    RegionsAbove(d, f - start, i - start, jj - start, j, kk - start, k);
    CodedLength(d, q, V[..], start, end, h, x);
    SwapKeepsCoded(d, q, V[..], start, end, h, x, i - start, kk - start + k);
    r := Exchange(I, i, kk + k, p, q, start, end, h);
    e := Swapped(d, i - start, kk - start + k);
  }

  lemma CodedLength(d: seq<int>, q: seq<int>, v: seq<int>, lo: int, hi: int, h: int, x: int)
    requires Coded(d, q, v, lo, hi, h, x)
    ensures 0 <= lo <= hi <= |q| && |d| == hi - lo
  {
  }

  /** What the loops may read off the state at index i. */
  lemma PartitioningAt(p: seq<int>, q: seq<int>, v: seq<int>, a: seq<int>, d: seq<int>,
                       start: int, end: int, h: int, x: int, f: int, j: int, k: int, jj: int, kk: int, i: int)
    requires Partitioning(p, q, v, a, d, start, end, h, x, f, j, k, jj, kk)
    requires start <= i < end
    ensures 0 <= start && end <= |p| == |a| && |d| == end - start && start <= jj <= kk <= end
    ensures 0 <= j <= kk - jj && 0 <= k <= end - kk
    ensures 0 <= a[i] && a[i] + h < |v| && d[i - start] == Side(v[a[i] + h], x)
    ensures f == i && v[a[i] + h] < x ==> Partitioning(p, q, v, a, d, start, end, h, x, if i < jj then f + 1 else f,
             j, k, jj, kk)
  {
  }

  /** Fill the first region, sending every other key to the region it belongs to. */
  method PartitionLow(I: array<int>, V: array<int>, start: int, end: int, h: nat, x: int, jj: int, kk: int,
                      ghost p: seq<int>, ghost d0: seq<int>)
    returns (j: int, k: int, ghost q: seq<int>, ghost d: seq<int>)
    requires I != V && I.Length == V.Length == |p| && start < end
    requires Partitioning(p, p, V[..], I[..], d0, start, end, h, x, start, 0, 0, jj, kk)
    modifies I
    ensures Partitioning(p, q, V[..], I[..], d, start, end, h, x, jj, j, k, jj, kk)
    ensures forall m :: 0 <= m < |p| && !(start <= m < end) ==> I[m] == old(I[m])
  {
    hide Partitioning;
    q, d := p, d0;
    var i := start;
    j, k := 0, 0;
    PartitioningAt(p, q, V[..], I[..], d, start, end, h, x, i, j, k, jj, kk, start);
    while i < jj
      invariant start <= i <= jj <= kk <= end && j <= kk - jj && k <= end - kk
      invariant Partitioning(p, q, V[..], I[..], d, start, end, h, x, i, j, k, jj, kk)
      invariant forall m :: 0 <= m < |p| && !(start <= m < end) ==> I[m] == old(I[m])
      decreases jj - i + kk - j + end - k
    {
      PartitioningAt(p, q, V[..], I[..], d, start, end, h, x, i, j, k, jj, kk, i);
      if V[I[i] + h] < x {
        i := i + 1;
      } else if V[I[i] + h] == x {
        q, d := MoveEqual(I, V, start, end, h, x, i, j, k, jj, kk, p, q, d);
        j := j + 1;
      } else {
        q, d := MoveAbove(I, V, start, end, h, x, i, i, j, k, jj, kk, p, q, d);
        k := k + 1;
      }
      PartitioningAt(p, q, V[..], I[..], d, start, end, h, x, i, j, k, jj, kk, start);
    }
  }

  /** Fill the middle region. */
  method PartitionMiddle(I: array<int>, V: array<int>, start: int, end: int, h: nat, x: int, j0: int, k0: int,
                         jj: int, kk: int,
                         ghost p: seq<int>, ghost q0: seq<int>, ghost d0: seq<int>)
    returns (ghost k: int, ghost q: seq<int>, ghost d: seq<int>)
    requires I != V && I.Length == V.Length == |p| && start < end
    requires Partitioning(p, q0, V[..], I[..], d0, start, end, h, x, jj, j0, k0, jj, kk)
    modifies I
    ensures Partitioning(p, q, V[..], I[..], d, start, end, h, x, jj, kk - jj, k, jj, kk)
    ensures forall m :: 0 <= m < |p| && !(start <= m < end) ==> I[m] == old(I[m])
  {
    hide Partitioning;
    q, d := q0, d0;
    var j, k' := j0, k0;
    PartitioningAt(p, q, V[..], I[..], d, start, end, h, x, jj, j, k', jj, kk, start);
    while jj + j < kk
      invariant start <= jj <= jj + j <= kk <= end && 0 <= k' <= end - kk
      invariant Partitioning(p, q, V[..], I[..], d, start, end, h, x, jj, j, k', jj, kk)
      invariant forall m :: 0 <= m < |p| && !(start <= m < end) ==> I[m] == old(I[m])
      decreases kk - j + end - k'
    {
      PartitioningAt(p, q, V[..], I[..], d, start, end, h, x, jj, j, k', jj, kk, jj + j);
      if V[I[jj + j] + h] == x {
        MiddleGrows(p, q, V[..], I[..], d, start, end, h, x, j, k', jj, kk);
        j := j + 1;
      } else {
        MiddleAbove(p, q, V[..], I[..], d, start, end, h, x, j, k', jj, kk);
        q, d := MoveAbove(I, V, start, end, h, x, jj, jj + j, j, k', jj, kk, p, q, d);
        k' := k' + 1;
      }
      PartitioningAt(p, q, V[..], I[..], d, start, end, h, x, jj, j, k', jj, kk, start);
    }
    k := k';
  }

  lemma MiddleGrows(p: seq<int>, q: seq<int>, v: seq<int>, a: seq<int>, d: seq<int>,
                    start: int, end: int, h: int, x: int, j: int, k: int, jj: int, kk: int)
    requires Partitioning(p, q, v, a, d, start, end, h, x, jj, j, k, jj, kk)
    requires 0 <= jj - start && jj + j < kk && |d| == end - start && d[jj + j - start] == 1
    ensures Partitioning(p, q, v, a, d, start, end, h, x, jj, j + 1, k, jj, kk)
  {
  }

  lemma MiddleAbove(p: seq<int>, q: seq<int>, v: seq<int>, a: seq<int>, d: seq<int>,
                    start: int, end: int, h: int, x: int, j: int, k: int, jj: int, kk: int)
    requires Partitioning(p, q, v, a, d, start, end, h, x, jj, j, k, jj, kk)
    requires jj + j < kk && |d| == end - start && 0 <= jj + j - start < |d| && d[jj + j - start] != 1
    ensures d[jj + j - start] == 2
  {
    MiddleSide(d, jj - start, j, kk - start, k);
  }

  /** The finished partition, read as keys against the pivot. */
  lemma Partitioned(p: seq<int>, q: seq<int>, v: seq<int>, a: seq<int>, d: seq<int>,
                    start: int, end: int, h: int, x: int, k: int, jj: int, kk: int)
    requires Partitioning(p, q, v, a, d, start, end, h, x, jj, kk - jj, k, jj, kk)
    ensures Reordered(p, q, start, end) && Loaded(q, a, start, end, h)
    ensures start <= jj <= kk <= end <= |q|
    ensures forall i :: start <= i < end ==> 0 <= q[i] + h < |v|
    ensures forall i :: start <= i < jj ==> v[q[i] + h] < x
    ensures forall i :: jj <= i < kk ==> v[q[i] + h] == x
    ensures forall i :: kk <= i < end ==> v[q[i] + h] > x
  {
    forall i | start <= i < end ensures v[q[i] + h] < x <==> i < jj
      ensures v[q[i] + h] == x <==> jj <= i < kk
    {
      assert d[i - start] == Side(v[q[i] + h], x);
      if i >= kk { RegionsFull(d, jj - start, kk - start, k, i - start); }
    }
  }
}
