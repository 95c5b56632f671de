/** The bucket sort by first byte with which `qsufsort` starts. */
module SuffixBuckets {
  import opened Common
  import opened SuffixOrder
  import opened SuffixGroups

  /** How often byte c occurs. */
  function Occ(text: seq<byte>, c: int): nat {
    if text == [] then 0
    else Occ(text[..|text| - 1], c) + if text[|text| - 1] == c then 1 else 0
  }

  /** How many bytes are smaller than c. */
  function Smaller(text: seq<byte>, c: nat): nat {
    if c == 0 then 0 else Smaller(text, c - 1) + Occ(text, c - 1)
  }

  /** How many bytes are c or smaller: the last slot of byte c. */
  function UpTo(text: seq<byte>, c: nat): nat {
    Smaller(text, c + 1)
  }

  /** The index, from 1, that counting sort gives the suffix at i. */
  function Slot(text: seq<byte>, i: nat): int
    requires i < |text|
  {
    Smaller(text, text[i]) + Occ(text[..i], text[i]) + 1
  }

  lemma {:induction false} OccMonotone(text: seq<byte>, i: nat, j: nat, c: int)
    requires i <= j <= |text|
    ensures Occ(text[..i], c) <= Occ(text[..j], c)
    ensures i < j && text[i] == c ==> Occ(text[..i], c) < Occ(text[..j], c)
    decreases j
  {
    if i < j {
      assert text[..j][..j - 1] == text[..j - 1];
      OccMonotone(text, i, j - 1, c);
    }
  }

  lemma {:induction false} SmallerMonotone(text: seq<byte>, c: nat, d: nat)
    requires c < d
    ensures Smaller(text, c) + Occ(text, c) <= Smaller(text, d)
    decreases d
  {
    if c < d - 1 { SmallerMonotone(text, c, d - 1); }
  }

  lemma {:induction false} SmallerExtends(text: seq<byte>, b: byte, c: nat)
    ensures Smaller(text + [b], c) == Smaller(text, c) + if b < c then 1 else 0
  {
    if c > 0 {
      SmallerExtends(text, b, c - 1);
      assert (text + [b])[..|text|] == text;
    }
  }

  /** Every byte is smaller than 256. */
  lemma {:induction false} SmallerTotal(text: seq<byte>)
    ensures Smaller(text, 256) == |text|
    decreases |text|
  {
    if text == [] {
      SmallerEmpty(256);
    } else {
      var n := |text| - 1;
      SmallerTotal(text[..n]);
      SmallerExtends(text[..n], text[n], 256);
      assert text == text[..n] + [text[n]];
    }
  }

  lemma {:induction false} SmallerEmpty(c: nat)
    ensures Smaller([], c) == 0
  {
    if c > 0 { SmallerEmpty(c - 1); }
  }

  /** The slots of byte c are those after Smaller(c) up to Smaller(c + 1). */
  lemma SlotRange(text: seq<byte>, i: nat)
    requires i < |text|
    ensures Smaller(text, text[i]) < Slot(text, i) <= UpTo(text, text[i]) <= |text|
  {
    assert text[..|text|] == text;
    OccMonotone(text, i, |text|, text[i]);
    SmallerTotal(text);
    if text[i] < 255 { SmallerMonotone(text, (text[i] as int) + 1, 256); }
  }

  lemma SlotsOrdered(text: seq<byte>, i: nat, j: nat)
    requires i < |text| && j < |text|
    ensures text[i] < text[j] ==> Slot(text, i) < Slot(text, j) && UpTo(text, text[i]) < UpTo(text, text[j])
    ensures text[i] == text[j] && i < j ==> Slot(text, i) < Slot(text, j)
  {
    SlotRange(text, i);
    SlotRange(text, j);
    if text[i] < text[j] {
      if (text[i] as int) + 1 < text[j] { SmallerMonotone(text, (text[i] as int) + 1, text[j]); }
    } else if text[i] == text[j] && i < j {
      OccMonotone(text, i, j, text[i]);
    }
  }

  lemma SmallerGrows(text: seq<byte>, c: nat, d: nat)
    requires c <= d
    ensures Smaller(text, c) <= Smaller(text, d)
  {
    if c < d { SmallerMonotone(text, c, d); }
  }

  /** A slot tells which byte its suffix starts with. */
  lemma SlotByte(text: seq<byte>, i: nat, c: nat)
    requires i < |text|
    ensures Smaller(text, c) < Slot(text, i) <= UpTo(text, c) ==> text[i] == c
    ensures Slot(text, i) <= Smaller(text, c) ==> UpTo(text, text[i]) <= Smaller(text, c)
  {
    hide Smaller, Occ;
    SlotRange(text, i);
    if text[i] < c { SmallerGrows(text, (text[i] as int) + 1, c); }
    if c < text[i] { SmallerGrows(text, c + 1, text[i]); }
    if c <= text[i] { SmallerGrows(text, c, text[i]); }
  }

  /** What the fill loop leaves: suffix i at its slot, the empty suffix first. */
  ghost predicate Filled(text: seq<byte>, p: seq<int>) {
    && |p| == |text| + 1
    && p[0] == |text|
    && forall i :: 0 <= i < |text| ==> 0 < Slot(text, i) <= |text| && p[Slot(text, i)] == i
  }

  ghost predicate Numbered(text: seq<byte>, v: seq<int>) {
    && |v| == |text| + 1
    && v[|text|] == 0
    && forall i :: 0 <= i < |text| ==> v[i] == UpTo(text, text[i])
  }

  /** Which suffix occupies a slot. */
  lemma Occupant(text: seq<byte>, p: seq<int>, k: int) returns (i: nat)
    requires Filled(text, p) && 0 < k <= |text|
    ensures i < |text| && Slot(text, i) == k && p[k] == i
  {
    var s := seq(|text|, i requires 0 <= i < |text| => Slot(text, i) - 1);
    assert Perm(s) by {
      forall a | 0 <= a < |s| ensures 0 <= s[a] < |s| { SlotRange(text, a); }
      forall a, b | 0 <= a < b < |s| ensures s[a] != s[b] {
        SlotsOrdered(text, a, b);
        SlotsOrdered(text, b, a);
      }
    }
    i := IndexOf(s, k - 1);
  }

  lemma FilledPerm(text: seq<byte>, p: seq<int>)
    requires Filled(text, p)
    ensures Perm(p)
  {
    forall k | 0 <= k < |p| ensures 0 <= p[k] < |p| && (k > 0 ==> p[k] < |text| && Slot(text, p[k]) == k) {
      if k > 0 { var i := Occupant(text, p, k); }
    }
  }

  lemma FilledIntervals(text: seq<byte>, p: seq<int>, v: seq<int>)
    requires Filled(text, p) && Numbered(text, v)
    ensures Intervals(p, v)
  {
    FilledPerm(text, p);
    forall k, m | 0 <= k <= m < |p|
      ensures k <= v[p[k]] < |p| && (m <= v[p[k]] ==> v[p[m]] == v[p[k]])
    {
      if k > 0 {
        var i := Occupant(text, p, k);
        var j := Occupant(text, p, m);
        SlotRange(text, i);
        SlotRange(text, j);
        if text[i] < text[j] && (text[i] as int) + 1 < text[j] { SmallerMonotone(text, (text[i] as int) + 1, text[j]); }
        if text[j] < text[i] { SlotsOrdered(text, j, i); }
      } else if m > 0 {
        var j := Occupant(text, p, m);
      }
    }
  }

  lemma NumberedOrdered(text: seq<byte>, v: seq<int>)
    requires Numbered(text, v)
    ensures Ordered(text, v, 1)
  {
    forall a, b | 0 <= a < |v| && 0 <= b < |v| && a != b && v[a] <= v[b]
      ensures v[a] < v[b] ==> SufLess(text, a, b)
      ensures v[a] == v[b] ==> Agree(text, a, b, 1)
    {
      if a < |text| { SlotRange(text, a); }
      if b < |text| { SlotRange(text, b); }
      if a < |text| && b < |text| {
        SlotsOrdered(text, a, b);
        SlotsOrdered(text, b, a);
      }
    }
  }

  lemma BucketsGrouped(text: seq<byte>, p: seq<int>, v: seq<int>)
    requires Filled(text, p) && Numbered(text, v)
    ensures Grouped(text, p, v, 1)
  {
    FilledIntervals(text, p, v);
    NumberedOrdered(text, v);
  }

  lemma OccStep(text: seq<byte>, i: nat, c: int)
    requires i < |text|
    ensures Occ(text[..i + 1], c) == Occ(text[..i], c) + if text[i] == c then 1 else 0
  {
    assert text[..i + 1][..i] == text[..i];
  }

  method CountBytes(text: seq<byte>, buckets: array<int>)
    requires buckets.Length == 256
    modifies buckets
    ensures forall c :: 0 <= c < 256 ==> buckets[c] == Occ(text, c)
  {
    for i := 0 to 256
      invariant forall c :: 0 <= c < i ==> buckets[c] == 0
    {
      buckets[i] := 0;
    }
    for i := 0 to |text|
      invariant forall c :: 0 <= c < 256 ==> buckets[c] == Occ(text[..i], c)
    {
      forall c | 0 <= c < 256 ensures Occ(text[..i + 1], c) == buckets[c] + if text[i] == c then 1 else 0 {
        OccStep(text, i, c);
      }
      buckets[text[i]] := buckets[text[i]] + 1;
    }
    assert text[..|text|] == text;
  }

  /** The first slot of every byte, less one. */
  method CountBuckets(text: seq<byte>, buckets: array<int>)
    requires buckets.Length == 256
    modifies buckets
    ensures forall c :: 0 <= c < 256 ==> buckets[c] == Smaller(text, c)
  {
    hide Occ;
    CountBytes(text, buckets);
    for i := 1 to 256
      invariant forall c :: 0 <= c < i ==> buckets[c] == Smaller(text, c + 1)
      invariant forall c :: i <= c < 256 ==> buckets[c] == Occ(text, c)
    {
      buckets[i] := buckets[i] + buckets[i - 1];
    }
    for i := 255 downto 0
      invariant forall c :: 0 <= c <= i ==> buckets[c] == Smaller(text, c + 1)
      invariant forall c :: i < c < 256 ==> buckets[c] == Smaller(text, c)
    {
      buckets[i + 1] := buckets[i];
    }
    buckets[0] := 0;
  }

  /** What one iteration of the fill loop relies on. */
  lemma FillStep(text: seq<byte>, i: nat)
    requires i < |text|
    ensures 0 < Slot(text, i) <= |text|
    ensures forall m :: 0 <= m < i ==> Slot(text, m) != Slot(text, i)
    ensures forall c :: 0 <= c < 256 ==> Occ(text[..i + 1], c) == Occ(text[..i], c) + if text[i] == c then 1 else 0
  {
    SlotRange(text, i);
    forall m | 0 <= m < i ensures Slot(text, m) != Slot(text, i) {
      SlotsOrdered(text, m, i);
      SlotsOrdered(text, i, m);
    }
    forall c | 0 <= c < 256 ensures Occ(text[..i + 1], c) == Occ(text[..i], c) + if text[i] == c then 1 else 0 {
      OccStep(text, i, c);
    }
  }

  /** Put every suffix in its slot. */
  method FillBuckets(I: array<int>, text: seq<byte>, buckets: array<int>)
    requires I != buckets && I.Length == |text| + 1 && buckets.Length == 256
    requires forall c :: 0 <= c < 256 ==> buckets[c] == Smaller(text, c)
    modifies I, buckets
    ensures Filled(text, I[..])
    ensures forall c :: 0 <= c < 256 ==> buckets[c] == UpTo(text, c)
  {
    hide Smaller;
    for i := 0 to |text|
      invariant forall c :: 0 <= c < 256 ==> buckets[c] == Smaller(text, c) + Occ(text[..i], c)
      invariant forall m :: 0 <= m < i ==> 0 < Slot(text, m) <= |text| && I[Slot(text, m)] == m
    {
      FillStep(text, i);
      buckets[text[i]] := buckets[text[i]] + 1;
      I[buckets[text[i]]] := i;
    }
    I[0] := |text|;
    assert text[..|text|] == text;
    forall c | 0 <= c < 256 ensures buckets[c] == UpTo(text, c) { UpToIs(text, c); }
  }

  lemma UpToIs(text: seq<byte>, c: nat)
    ensures UpTo(text, c) == Smaller(text, c) + Occ(text, c)
  {
  }

  /** Number every suffix by the last slot of its byte. */
  method NumberBuckets(V: array<int>, text: seq<byte>, buckets: array<int>)
    requires V != buckets && V.Length == |text| + 1 && buckets.Length == 256
    requires forall c :: 0 <= c < 256 ==> buckets[c] == UpTo(text, c)
    modifies V
    ensures Numbered(text, V[..])
  {
    for i := 0 to |text|
      invariant forall m :: 0 <= m < i ==> V[m] == UpTo(text, text[m])
    {
      V[i] := buckets[text[i]];
    }
    V[|text|] := 0;
  }
}
