/** The state of prefix doubling, on values.  `p` lists the suffixes in their
    current order (what array I held before its entries were overwritten by
    run lengths) and `v` gives each suffix the last index of its group. */
module SuffixGroups {
  import opened Common
  import opened SuffixOrder

  ghost predicate Perm(p: seq<int>) {
    && (forall k :: 0 <= k < |p| ==> 0 <= p[k] < |p|)
    && (forall j, k :: 0 <= j < k < |p| ==> p[j] != p[k])
  }

  ghost function IndexSet(n: nat): (s: set<int>)
    ensures forall x :: x in s <==> 0 <= x < n
    ensures |s| == n
  {
    if n == 0 then {} else IndexSet(n - 1) + {n - 1}
  }

  lemma {:induction false} DistinctCardinality(p: seq<int>)
    requires forall j, k :: 0 <= j < k < |p| ==> p[j] != p[k]
    ensures |(set x | x in p)| == |p|
  {
    if p != [] {
      var q := p[..|p| - 1];
      DistinctCardinality(q);
      assert p == q + [p[|p| - 1]];
      assert (set x | x in p) == (set x | x in q) + {p[|p| - 1]};
    }
  }

  lemma SubsetOfSameSize(a: set<int>, b: set<int>)
    requires a <= b && |a| == |b|
    ensures a == b
  {
    assert b == a + (b - a);
    assert |b| == |a| + |b - a|;
  }

  /** A permutation reaches every index. */
  lemma PermOnto(p: seq<int>)
    requires Perm(p)
    ensures forall a :: 0 <= a < |p| ==> a in p
  {
    DistinctCardinality(p);
    SubsetOfSameSize((set x | x in p), IndexSet(|p|));
    forall a | 0 <= a < |p| ensures a in p {
      assert a in IndexSet(|p|);
      assert a in (set x | x in p);
    }
  }

  lemma IndexOf(p: seq<int>, a: int) returns (k: nat)
    requires Perm(p) && 0 <= a < |p|
    ensures k < |p| && p[k] == a
  {
    PermOnto(p);
    assert a in p;
    k :| 0 <= k < |p| && p[k] == a;
  }

  lemma SwapKeepsPerm(p: seq<int>, i: nat, j: nat)
    requires Perm(p) && i < |p| && j < |p|
    ensures Perm(p[i := p[j]][j := p[i]])
  {
  }

  /** Two permutations that agree outside a range hold the same values inside. */
  lemma SameOutside(p: seq<int>, q: seq<int>, lo: nat, hi: nat, k: nat) returns (m: nat)
    requires Perm(p) && Perm(q) && |p| == |q| && lo <= k < hi <= |p|
    requires forall i :: 0 <= i < |p| && !(lo <= i < hi) ==> q[i] == p[i]
    ensures lo <= m < hi && p[m] == q[k]
  {
    m := IndexOf(p, q[k]);
  }

  /** Every group is an interval of p whose suffixes carry its last index. */
  ghost predicate Intervals(p: seq<int>, v: seq<int>) {
    && Perm(p) && |p| == |v|
    && (forall k :: 0 <= k < |p| ==> k <= v[p[k]] < |p|)
    && (forall k, m :: 0 <= k <= m < |p| && m <= v[p[k]] ==> v[p[m]] == v[p[k]])
  }

  /** Group numbers order suffixes truly, and equal numbers mean h shared bytes. */
  ghost predicate Ordered(text: seq<byte>, v: seq<int>, h: nat) {
    && |v| == |text| + 1
    && (forall a, b :: 0 <= a < |v| && 0 <= b < |v| && v[a] < v[b] ==> SufLess(text, a, b))
    && (forall a, b :: 0 <= a < |v| && 0 <= b < |v| && a != b && v[a] == v[b] ==> Agree(text, a, b, h))
  }

  ghost predicate Grouped(text: seq<byte>, p: seq<int>, v: seq<int>, h: nat) {
    Intervals(p, v) && Ordered(text, v, h)
  }

  /** Index lo starts a group (or is past the end). */
  ghost predicate Starts(p: seq<int>, v: seq<int>, lo: int) {
    && Perm(p) && |p| == |v| && 0 <= lo <= |p|
    && forall k :: 0 <= k < lo ==> v[p[k]] < lo
  }

  /** lo..e is exactly one group. */
  ghost predicate IsGroup(p: seq<int>, v: seq<int>, lo: int, e: int) {
    && Starts(p, v, lo) && e < |p|
    && forall k :: lo <= k <= e ==> v[p[k]] == e
  }

  /** Every suffix listed in lo..mid-1 precedes every suffix listed in mid..e. */
  ghost predicate Below(text: seq<byte>, p: seq<int>, lo: int, mid: int, e: int) {
    && 0 <= lo && e < |p|
    && forall k, m :: lo <= k < mid <= m <= e ==> SufLess(text, p[k], p[m])
  }

  ghost predicate IsAssigned(p: seq<int>, v: seq<int>, w: seq<int>, lo: int, hi: int) {
    && Perm(p) && |p| == |v| == |w| && 0 <= lo < hi <= |p|
    && (forall k :: 0 <= k < |p| && !(lo <= k < hi) ==> w[p[k]] == v[p[k]])
    && (forall k :: lo <= k < hi ==> w[p[k]] == hi - 1)
  }

  lemma AssignKeepsIntervals(p: seq<int>, v: seq<int>, w: seq<int>, lo: int, hi: int, e: int)
    requires Intervals(p, v) && IsGroup(p, v, lo, e) && hi <= e + 1
    requires IsAssigned(p, v, w, lo, hi)
    ensures Intervals(p, w) && Starts(p, w, hi)
    ensures hi <= e ==> IsGroup(p, w, hi, e)
  {
  }

  lemma AssignKeepsOrdered(text: seq<byte>, p: seq<int>, v: seq<int>, w: seq<int>, lo: int, hi: int, e: int, h: nat)
    requires Grouped(text, p, v, h) && IsGroup(p, v, lo, e) && hi <= e + 1
    requires IsAssigned(p, v, w, lo, hi)
    requires Below(text, p, lo, hi, e)
    ensures Ordered(text, w, h)
  {
    forall a, b | 0 <= a < |w| && 0 <= b < |w| && w[a] <= w[b] && a != b
      ensures w[a] < w[b] ==> SufLess(text, a, b)
      ensures w[a] == w[b] ==> Agree(text, a, b, h)
    {
      var i := IndexOf(p, a);
      var j := IndexOf(p, b);
      assert v[p[i]] <= v[p[j]];
    }
  }

  /** The step that makes prefix doubling sound: inside one group, comparing the
      group numbers h bytes further on compares the suffixes themselves. */
  lemma KeyOrder(text: seq<byte>, v: seq<int>, h: nat, a: int, b: int)
    requires Ordered(text, v, h)
    requires 0 <= a < |v| && 0 <= b < |v| && a != b && v[a] == v[b]
    ensures a + h <= |text| && b + h <= |text|
    ensures v[a + h] < v[b + h] ==> SufLess(text, a, b)
    ensures v[a + h] == v[b + h] ==> Agree(text, a, b, 2 * h)
  {
    if v[a + h] < v[b + h] {
      LessAfterAgreement(text, a, b, h);
    } else if v[a + h] == v[b + h] {
      AgreementDoubles(text, a, b, h);
    }
  }
}
