/** `qsufsort`: prefix doubling until every suffix is in a group of its own. */
module SuffixArray {
  import opened Common
  import opened SuffixOrder
  import opened SuffixGroups
  import opened SuffixSplit
  import opened SuffixSelect
  import opened SuffixSort
  import opened SuffixBuckets

  /** The specification: all suffixes, the empty one included, in dictionary order. */
  ghost predicate IsSuffixArray(text: seq<byte>, a: seq<int>) {
    && |a| == |text| + 1 && Perm(a)
    && forall j, k :: 0 <= j < k < |a| ==> SufLess(text, a[j], a[k])
  }

  /** A negative entry -r at k says that k..k+r-1 are finally placed. */
  ghost predicate Runs(p: seq<int>, v: seq<int>, a: seq<int>) {
    && |p| == |v| == |a|
    && forall k :: 0 <= k < |a| && a[k] < 0 ==> k - a[k] <= |a| && Placed(p, v, k, k - a[k])
  }

  ghost predicate Placed(p: seq<int>, v: seq<int>, lo: int, hi: int) {
    forall m :: lo <= m < hi ==> Singleton(p, v, m)
  }

  /** The entries from i on, as the next pass will read them with step h.
      Only before the first pass may a group of one be unmarked. */
  ghost predicate Unread(p: seq<int>, v: seq<int>, a: seq<int>, i: int, h: int) {
    && |p| == |v| == |a|
    && (forall k :: 0 <= i <= k < |a| && a[k] >= 0 ==>
          a[k] == p[k] && p[k] + h < |p| && (h == 1 || !Singleton(p, v, k)))
    && (h == 1 ==> forall k :: 0 <= i <= k < |a| ==> a[k] >= -1)
  }

  /** The entries before i, which the current pass has refined to 2h bytes. */
  ghost predicate Read(text: seq<byte>, p: seq<int>, v: seq<int>, a: seq<int>, i: int, h: nat) {
    && |p| == |v| == |a| && 0 <= i <= |p| && Starts(p, v, i)
    && (forall k :: 0 <= k < i && a[k] >= 0 ==> a[k] == p[k] && !Singleton(p, v, k))
    && (forall j, k :: 0 <= j < i && 0 <= k < i && j != k && v[p[j]] == v[p[k]] ==> Agree(text, p[j], p[k], 2 * h))
  }

  ghost predicate ScanState(text: seq<byte>, p: seq<int>, v: seq<int>, a: seq<int>, i: int, len: int, h: nat) {
    && h > 0 && Grouped(text, p, v, h) && |a| == |p|
    && Runs(p, v, a) && Unread(p, v, a, i, h) && Read(text, p, v, a, i, h)
    && 0 <= len <= i && Placed(p, v, i - len, i)
  }

  /** The state at the head of the doubling loop. */
  ghost predicate Doubling(text: seq<byte>, p: seq<int>, v: seq<int>, a: seq<int>, h: nat) {
    && h > 0 && Grouped(text, p, v, h) && |a| == |p|
    && Runs(p, v, a) && Unread(p, v, a, 0, h)
  }

  lemma PassStart(text: seq<byte>, p: seq<int>, v: seq<int>, a: seq<int>, h: nat)
    requires Doubling(text, p, v, a, h)
    ensures ScanState(text, p, v, a, 0, 0, h)
  {
  }

  /** Writing the length of a run of placed suffixes over its first entry. */
  lemma MarkRun(text: seq<byte>, p: seq<int>, v: seq<int>, a: seq<int>, i: int, len: int, h: nat)
    requires ScanState(text, p, v, a, i, len, h) && len > 0
    ensures ScanState(text, p, v, a[i - len := -len], i, len, h)
  {
    var b := a[i - len := -len];
    assert Runs(p, v, b);
    assert Unread(p, v, b, i, h);
  }

  lemma SkipRunRead(text: seq<byte>, p: seq<int>, v: seq<int>, a: seq<int>, i: int, i': int, h: nat)
    requires Perm(p) && Unread(p, v, a, i, h) && Read(text, p, v, a, i, h)
    requires 0 <= i < i' <= |a| && Placed(p, v, i, i') && (h == 1 ==> i' == i + 1) && a[i] < 0
    ensures Read(text, p, v, a, i', h)
  {
    forall k | i <= k < i' ensures v[p[k]] == k && a[k] < 0 {
      assert Singleton(p, v, k);
    }
  }

  lemma SkipRun(text: seq<byte>, p: seq<int>, v: seq<int>, a: seq<int>, i: int, len: int, h: nat)
    requires ScanState(text, p, v, a, i, len, h) && i < |a| && a[i] < 0
    ensures i - a[i] <= |a| && ScanState(text, p, v, a, i - a[i], len - a[i], h)
  {
    hide Singleton, Grouped;
    SkipRunRead(text, p, v, a, i, i - a[i], h);
  }

  lemma GroupSplittable(text: seq<byte>, p: seq<int>, v: seq<int>, a: seq<int>, i: int, len: int, h: nat)
    requires ScanState(text, p, v, a, i, len, h) && i < |a| && a[i] >= 0
    ensures 0 <= a[i] < |v| && a[i] == p[i] && i <= v[a[i]] < |a|
    ensures Splittable(text, p, v, a, i, v[a[i]] + 1, v[a[i]], h)
  {
    var e := v[p[i]];
    forall k | i <= k <= e ensures v[p[k]] == e && a[k] == p[k] && p[k] + h < |p| {
      assert v[p[k]] == v[p[i]];
      if k > i {
        NotAlone(p, v, i, k);
        NegativeIsPlaced(p, v, a, k);
      }
    }
  }

  lemma NegativeIsPlaced(p: seq<int>, v: seq<int>, a: seq<int>, k: int)
    requires Runs(p, v, a) && 0 <= k < |a|
    ensures a[k] < 0 ==> Singleton(p, v, k)
  {
  }

  /** Behind the first of a group, nobody is alone. */
  lemma NotAlone(p: seq<int>, v: seq<int>, i: int, k: int)
    requires Intervals(p, v) && 0 <= i < k < |p| && k <= v[p[i]]
    ensures !Singleton(p, v, k)
  {
    assert v[p[k - 1]] == v[p[i]];
  }

  /** Placed suffixes stay placed when a group is split. */
  lemma PlacedStays(p: seq<int>, v: seq<int>, a: seq<int>, q: seq<int>, w: seq<int>, b: seq<int>, i: int, e: int,
                    m: int)
    requires Perm(p) && Perm(q) && Framed(p, v, a, q, w, b, i, e + 1)
    requires IsGroup(p, v, i, e) && i <= e
    requires forall k :: i <= k <= e ==> k <= w[q[k]] <= e
    requires Singleton(p, v, m)
    ensures Singleton(q, w, m)
  {
    if i <= m <= e {
      assert v[p[m]] == e;
    } else {
      assert q[m] == p[m];
    }
    if m > 0 {
      if i <= m - 1 <= e { assert w[q[m - 1]] <= e; } else { assert q[m - 1] == p[m - 1]; }
    }
  }

  lemma SplitRuns(p: seq<int>, v: seq<int>, a: seq<int>, q: seq<int>, w: seq<int>, b: seq<int>, i: int, e: int)
    requires Runs(p, v, a) && Framed(p, v, a, q, w, b, i, e + 1)
    requires IsGroup(p, v, i, e) && i <= e
    requires forall k :: i <= k <= e ==> k <= w[q[k]] <= e
    requires forall k :: i <= k <= e ==> b[k] == if Singleton(q, w, k) then -1 else q[k]
    ensures Runs(q, w, b)
  {
    forall k | 0 <= k < |b| && b[k] < 0 ensures k - b[k] <= |b| && Placed(q, w, k, k - b[k]) {
      if i <= k <= e {
        assert Singleton(q, w, k);
      } else {
        assert Placed(p, v, k, k - a[k]);
        forall m | k <= m < k - b[k] ensures Singleton(q, w, m) {
          assert Singleton(p, v, m);
          PlacedStays(p, v, a, q, w, b, i, e, m);
        }
      }
    }
  }

  lemma SplitUnread(p: seq<int>, v: seq<int>, a: seq<int>, q: seq<int>, w: seq<int>, b: seq<int>, i: int, e: int,
                    h: int)
    requires Perm(p) && Perm(q) && Unread(p, v, a, i, h) && Framed(p, v, a, q, w, b, i, e + 1)
    requires IsGroup(p, v, i, e) && i <= e
    ensures Unread(q, w, b, e + 1, h)
  {
    forall k | e + 1 <= k < |b| && b[k] >= 0
      ensures b[k] == q[k] && q[k] + h < |q| && (h == 1 || !Singleton(q, w, k))
    {
      assert q[k] == p[k] && b[k] == a[k];
      assert v[p[k - 1]] < k || q[k - 1] == p[k - 1];
    }
  }

  lemma SplitRead(text: seq<byte>, p: seq<int>, v: seq<int>, a: seq<int>, q: seq<int>, w: seq<int>, b: seq<int>,
                  i: int, e: int, h: nat)
    requires Read(text, p, v, a, i, h) && Framed(p, v, a, q, w, b, i, e + 1)
    requires Starts(q, w, i) && Refined(text, q, w, b, i, e + 1, h)
    ensures Read(text, q, w, b, e + 1, h)
  {
    forall k | 0 <= k < i ensures q[k] == p[k] && w[q[k]] == v[p[k]] && b[k] == a[k] && w[q[k]] < i
      && Singleton(q, w, k) == Singleton(p, v, k) {
      if k > 0 { assert q[k - 1] == p[k - 1]; }
    }
  }

  /** After a group has been split, the scan resumes behind it. */
  lemma AfterSplit(text: seq<byte>, p: seq<int>, v: seq<int>, a: seq<int>, q: seq<int>, w: seq<int>, b: seq<int>,
                   i: int, len: int, e: int, h: nat)
    requires ScanState(text, p, v, a, i, len, h) && i < |a| && a[i] >= 0
    requires IsGroup(p, v, i, e) && i <= e
    requires SplitState(text, p, v, a, q, w, b, i, e + 1, e + 1, e, h)
    ensures ScanState(text, q, w, b, e + 1, 0, h)
  {
    SplitRuns(p, v, a, q, w, b, i, e);
    SplitUnread(p, v, a, q, w, b, i, e, h);
    SplitRead(text, p, v, a, q, w, b, i, e, h);
  }

  /** A group of more than one has another member next to each of its members. */
  lemma Companion(p: seq<int>, v: seq<int>, k: int) returns (m: int)
    requires Intervals(p, v) && 0 <= k < |p| && !Singleton(p, v, k)
    ensures 0 <= m < |p| && m != k && v[p[m]] == v[p[k]]
  {
    m := if v[p[k]] > k then k + 1 else k - 1;
    assert k > m ==> v[p[m]] >= k;
  }

  /** A full pass doubles the number of bytes the groups are sorted by. */
  lemma PassEnd(text: seq<byte>, p: seq<int>, v: seq<int>, a: seq<int>, len: int, h: nat)
    requires ScanState(text, p, v, a, |p|, len, h)
    ensures Doubling(text, p, v, a, 2 * h)
  {
    forall x, y | 0 <= x < |v| && 0 <= y < |v| && x != y && v[x] == v[y] ensures Agree(text, x, y, 2 * h) {
      var j := IndexOf(p, x);
      var k := IndexOf(p, y);
    }
    forall k | 0 <= k < |a| && a[k] >= 0 ensures a[k] == p[k] && p[k] + 2 * h < |p| && !Singleton(p, v, k) {
      var m := Companion(p, v, k);
      assert Agree(text, p[k], p[m], 2 * h);
    }
  }

  /** No two suffixes share more bytes than the text has. */
  lemma LongStep(text: seq<byte>, p: seq<int>, v: seq<int>, a: seq<int>, h: nat)
    requires Doubling(text, p, v, a, h) && h > |text|
    ensures Placed(p, v, 0, |p|)
    ensures h == 1 ==> a[0] == -|p|
  {
    forall k | 0 <= k < |p| ensures Singleton(p, v, k) {
      if !Singleton(p, v, k) {
        var m := Companion(p, v, k);
        assert false;
      }
    }
  }

  lemma ScanBounds(text: seq<byte>, p: seq<int>, v: seq<int>, a: seq<int>, i: int, len: int, h: nat)
    requires ScanState(text, p, v, a, i, len, h)
    ensures |p| == |v| == |a| == |text| + 1 && 0 <= len <= i <= |a|
    ensures i < |a| && a[i] < 0 ==> i - a[i] <= |a|
    ensures i < |a| && Placed(p, v, 0, |p|) && h > 1 ==> a[i] < 0
  {
    if i < |a| && Placed(p, v, 0, |p|) { assert Singleton(p, v, i); }
  }

  lemma DoublingBounds(text: seq<byte>, p: seq<int>, v: seq<int>, a: seq<int>, h: nat)
    requires Doubling(text, p, v, a, h)
    ensures |p| == |v| == |a| == |text| + 1
  {
  }

  lemma GroupIs(text: seq<byte>, p: seq<int>, v: seq<int>, a: seq<int>, i: int, m: int, e: int, h: nat)
    requires Splittable(text, p, v, a, i, m, e, h)
    ensures IsGroup(p, v, i, e)
  {
  }

  /** One pass of the doubling loop: every unsorted group is split once. */
  method Pass(I: array<int>, V: array<int>, h: nat, ghost text: seq<byte>, ghost p0: seq<int>)
    returns (ghost p: seq<int>)
    requires I != V && I.Length == V.Length == |text| + 1
    requires Doubling(text, p0, V[..], I[..], h)
    modifies I, V
    ensures Doubling(text, p, V[..], I[..], 2 * h)
    ensures h > 1 && Placed(p0, old(V[..]), 0, |p0|) ==> I[0] == -I.Length
  {
    hide *;
    p := p0;
    ghost var v0, all := V[..], h > 1 && Placed(p0, V[..], 0, |p0|);
    var n := I.Length;
    var len := 0;
    var i := 0;
    DoublingBounds(text, p, V[..], I[..], h);
    PassStart(text, p, V[..], I[..], h);
    while i < n
      invariant 0 <= len <= i <= n
      invariant ScanState(text, p, V[..], I[..], i, len, h)
      invariant all ==> p == p0 && V[..] == v0 && len == i
      decreases n - i
    {
      ScanBounds(text, p, V[..], I[..], i, len, h);
      if I[i] < 0 {
        SkipRun(text, p, V[..], I[..], i, len, h);
        len := len - I[i];
        i := i - I[i];
      } else {
        if len != 0 {
          MarkRun(text, p, V[..], I[..], i, len, h);
          I[i - len] := -len;
        }
        GroupSplittable(text, p, V[..], I[..], i, len, h);
        ghost var p1, v1, a1, e, run := p, V[..], I[..], V[I[i]], len;
        GroupIs(text, p, v1, a1, i, e + 1, e, h);
        len := V[I[i]] + 1 - i;
        p := Split(I, V, i, len, h, text, p, e);
        AfterSplit(text, p1, v1, a1, p, V[..], I[..], i, run, e, h);
        i := i + len;
        len := 0;
      }
    }
    ScanBounds(text, p, V[..], I[..], i, len, h);
    if len != 0 {
      MarkRun(text, p, V[..], I[..], i, len, h);
      I[i - len] := -len;
    }
    PassEnd(text, p, V[..], I[..], len, h);
  }

  /** The loop's exit test: one run over the whole array. */
  lemma Sorted(text: seq<byte>, p: seq<int>, v: seq<int>, a: seq<int>, h: nat)
    requires Doubling(text, p, v, a, h) && a[0] == -|p|
    ensures IsSuffixArray(text, p)
    ensures |p| == |v| && forall k :: 0 <= k < |p| ==> 0 <= p[k] < |v| && v[p[k]] == k
  {
    assert Placed(p, v, 0, |p|);
    forall k | 0 <= k < |p| ensures v[p[k]] == k {
      assert Singleton(p, v, k);
    }
  }

  /** The bytes that occur once are placed by the bucket sort. */
  lemma LoneBucket(text: seq<byte>, p: seq<int>, v: seq<int>, c: nat)
    requires Filled(text, p) && Numbered(text, v) && 0 < c < 256 && UpTo(text, c) == UpTo(text, c - 1) + 1
    ensures 0 < UpTo(text, c) <= |text| && Perm(p)
    ensures Singleton(p, v, UpTo(text, c))
  {
    FilledIntervals(text, p, v);
    SmallerGrows(text, c + 1, 256);
    SmallerTotal(text);
    var k := UpTo(text, c);
    var i := Occupant(text, p, k);
    SlotByte(text, i, c);
    if k > 1 {
      var j := Occupant(text, p, k - 1);
      SlotByte(text, j, c);
    }
  }

  /** The array while the lone buckets are marked. */
  ghost predicate Marking(text: seq<byte>, p: seq<int>, v: seq<int>, a: seq<int>) {
    && Filled(text, p) && Numbered(text, v) && |a| == |p|
    && forall k :: 0 <= k < |a| ==> a[k] == p[k] || (a[k] == -1 && Perm(p) && Singleton(p, v, k))
  }

  lemma MarkingDone(text: seq<byte>, p: seq<int>, v: seq<int>, a: seq<int>)
    requires Marking(text, p, v, a) && a[0] == -1
    ensures Doubling(text, p, v, a, 1)
  {
    BucketsGrouped(text, p, v);
    forall k | 0 <= k < |a| && a[k] >= 0 ensures a[k] == p[k] && p[k] + 1 < |p| {
      var i := Occupant(text, p, k);
    }
  }

  lemma MarkOne(text: seq<byte>, p: seq<int>, v: seq<int>, a: seq<int>, c: nat)
    requires Marking(text, p, v, a) && 0 < c < 256 && UpTo(text, c) == UpTo(text, c - 1) + 1
    ensures 0 <= UpTo(text, c) < |a| && Marking(text, p, v, a[UpTo(text, c) := -1])
  {
    LoneBucket(text, p, v, c);
  }

  /** Mark the buckets of a single suffix; byte 0 is not looked at. */
  method MarkLone(I: array<int>, buckets: array<int>, text: seq<byte>, ghost p: seq<int>, ghost v: seq<int>)
    requires I != buckets && I.Length == |text| + 1 && buckets.Length == 256
    requires forall c :: 0 <= c < 256 ==> buckets[c] == UpTo(text, c)
    requires Marking(text, p, v, I[..])
    modifies I
    ensures Marking(text, p, v, I[..])
  {
    hide *;
    for i := 1 to 256
      invariant Marking(text, p, v, I[..])
    {
      if buckets[i] == buckets[i - 1] + 1 {
        MarkOne(text, p, v, I[..], i);
        I[buckets[i]] := -1;
      }
    }
  }

  lemma MarkFirst(text: seq<byte>, p: seq<int>, v: seq<int>, a: seq<int>)
    requires Marking(text, p, v, a)
    ensures |a| > 0 && Marking(text, p, v, a[0 := -1])
  {
    FilledIsPerm(text, p, v);
  }

  lemma MarkingStart(text: seq<byte>, p: seq<int>, v: seq<int>)
    requires Filled(text, p) && Numbered(text, v)
    ensures Marking(text, p, v, p)
  {
  }

  /** Bucket sort, marking the buckets of a single suffix. */
  method SortByFirstByte(I: array<int>, V: array<int>, text: seq<byte>)
    returns (ghost p: seq<int>)
    requires I != V && I.Length == V.Length == |text| + 1
    modifies I, V
    ensures Doubling(text, p, V[..], I[..], 1)
  {
    hide *;
    var buckets := new int[256];
    CountBuckets(text, buckets);
    FillBuckets(I, text, buckets);
    p := I[..];
    NumberBuckets(V, text, buckets);
    MarkingStart(text, p, V[..]);
    MarkLone(I, buckets, text, p, V[..]);
    MarkFirst(text, p, V[..], I[..]);
    I[0] := -1;
    MarkingDone(text, p, V[..], I[..]);
  }

  lemma FilledIsPerm(text: seq<byte>, p: seq<int>, v: seq<int>)
    requires Filled(text, p) && Numbered(text, v)
    ensures |p| == |v| == |text| + 1 && Perm(p) && Singleton(p, v, 0)
  {
    FilledPerm(text, p);
  }

  /** `qsufsort`: I becomes the suffix array of the text and V its inverse. */
  method QSufSort(I: array<int>, V: array<int>, text: seq<byte>)
    requires I != V && I.Length == V.Length == |text| + 1
    modifies I, V
    ensures IsSuffixArray(text, I[..])
    ensures forall i :: 0 <= i <= |text| ==> 0 <= V[i] <= |text| && I[V[i]] == i
  {
    hide *;
    ghost var p := SortByFirstByte(I, V, text);
    var h := 1;
    DoublingBounds(text, p, V[..], I[..], h);
    while I[0] != -I.Length
      invariant h > 0 && |p| == |text| + 1 && Doubling(text, p, V[..], I[..], h)
      decreases if h <= |text| then |text| + 1 - h else 0, if I[0] == -I.Length then 0 else 1
    {
      if h > |text| { LongStep(text, p, V[..], I[..], h); }
      p := Pass(I, V, h, text, p);
      h := h + h;
      DoublingBounds(text, p, V[..], I[..], h);
    }
    Sorted(text, p, V[..], I[..], h);
    Invert(I, V, text, p);
  }

  /** The final loop: write each suffix at its index. */
  method Invert(I: array<int>, V: array<int>, text: seq<byte>, ghost p: seq<int>)
    requires I != V && I.Length == V.Length == |p| == |text| + 1
    requires IsSuffixArray(text, p) && forall k :: 0 <= k < |p| ==> V[p[k]] == k
    modifies I
    ensures I[..] == p
    ensures forall i :: 0 <= i <= |text| ==> 0 <= V[i] <= |text| && I[V[i]] == i
  {
    forall i | 0 <= i < |p| ensures 0 <= V[i] < |p| && p[V[i]] == i {
      var k := IndexOf(p, i);
    }
    hide *;
    for i := 0 to |text| + 1
      invariant forall j :: 0 <= j < i ==> I[V[j]] == j
    {
      I[V[i]] := i;
    }
    forall k | 0 <= k < |p| ensures I[k] == p[k] { InRange(text, p, k); assert V[p[k]] == k; }
  }

  lemma InRange(text: seq<byte>, p: seq<int>, k: int)
    requires IsSuffixArray(text, p) && 0 <= k < |p|
    ensures 0 <= p[k] < |p|
  {
  }

  lemma LexAsymmetric(s: seq<byte>, t: seq<byte>)
    requires LexLess(s, t)
    ensures !LexLess(t, s)
  {
    if LexLess(t, s) {
      LexTransitive(s, t, s);
      LexIrreflexive(s);
    }
  }

  /** The specification leaves no choice. */
  lemma {:induction false} SuffixArrayUnique(text: seq<byte>, a: seq<int>, b: seq<int>, k: nat)
    requires IsSuffixArray(text, a) && IsSuffixArray(text, b) && k <= |a|
    ensures a[..k] == b[..k]
  {
    if k > 0 {
      SuffixArrayUnique(text, a, b, k - 1);
      assert forall i :: 0 <= i < k - 1 ==> a[i] == a[..k - 1][i] == b[i];
      if a[k - 1] != b[k - 1] {
        var m := IndexOf(a, b[k - 1]);
        var l := IndexOf(b, a[k - 1]);
        LexAsymmetric(text[a[k - 1]..], text[b[k - 1]..]);
      }
    }
  }
}
