/** How `bsdiffmain` extends the previous match forward and the new one
    backward, and where it divides an overlap between them. */
module DiffExtend {
  import opened Common

  predicate InStep(base: seq<byte>, target: seq<byte>, p: int, t: int, n: int) {
    0 <= n && 0 <= p && p + n <= |base| && 0 <= t && t + n <= |target|
  }

  /** Equal bytes in the n positions from p in old and t in new. */
  function Hits(base: seq<byte>, target: seq<byte>, p: int, t: int, n: int): nat
    requires InStep(base, target, p, t, n)
    decreases n
  {
    if n == 0 then 0
    else Hits(base, target, p, t, n - 1) + if base[p + n - 1] == target[t + n - 1] then 1 else 0
  }

  lemma {:induction false} HitsSplit(base: seq<byte>, target: seq<byte>, p: int, t: int, m: int, n: int)
    requires InStep(base, target, p, t, n) && 0 <= m <= n
    ensures InStep(base, target, p, t, m) && InStep(base, target, p + m, t + m, n - m)
    ensures Hits(base, target, p, t, n) == Hits(base, target, p, t, m) + Hits(base, target, p + m, t + m, n - m)
    decreases n
  {
    if m < n { HitsSplit(base, target, p, t, m, n - 1); }
  }

  /** One point for every equal byte, one off for every other. */
  function Gain(base: seq<byte>, target: seq<byte>, p: int, t: int, n: int): int
    requires InStep(base, target, p, t, n)
  {
    2 * Hits(base, target, p, t, n) - n
  }

  /** The gain of the n positions that end at p in old and t in new. */
  function GainBack(base: seq<byte>, target: seq<byte>, p: int, t: int, n: int): int
    requires InStep(base, target, p - n, t - n, n)
  {
    Gain(base, target, p - n, t - n, n)
  }

  /** len is the shortest of the best forward extensions no longer than limit. */
  ghost predicate BestForward(base: seq<byte>, target: seq<byte>, p: int, t: int, len: int, limit: int) {
    && 0 <= len <= limit && InStep(base, target, p, t, limit)
    && (forall i :: 0 <= i <= limit ==> Gain(base, target, p, t, i) <= Gain(base, target, p, t, len))
    && (forall i :: 0 <= i < len ==> Gain(base, target, p, t, i) < Gain(base, target, p, t, len))
  }

  /** The same for extensions that end at p in old and t in new. */
  ghost predicate BestBackward(base: seq<byte>, target: seq<byte>, p: int, t: int, len: int, limit: int) {
    && 0 <= len <= limit && InStep(base, target, p - limit, t - limit, limit)
    && (forall i :: 0 <= i <= limit ==> GainBack(base, target, p, t, i) <= GainBack(base, target, p, t, len))
    && (forall i :: 0 <= i < len ==> GainBack(base, target, p, t, i) < GainBack(base, target, p, t, len))
  }

  /** Trying one more length: it is the best so far only if it is strictly better. */
  lemma ForwardNext(base: seq<byte>, target: seq<byte>, p: int, t: int, len: int, n: int)
    requires BestForward(base, target, p, t, len, n) && InStep(base, target, p, t, n + 1)
    ensures Hits(base, target, p, t, n + 1)
            == Hits(base, target, p, t, n) + if base[p + n] == target[t + n] then 1 else 0
    ensures BestForward(base, target, p, t,
                        if Hits(base, target, p, t, n + 1) * 2 - (n + 1) > Hits(base, target, p, t, len) * 2 - len
                        then n + 1 else len, n + 1)
  {
    hide Hits;
    HitsNext(base, target, p, t, n);
  }

  lemma HitsNext(base: seq<byte>, target: seq<byte>, p: int, t: int, n: int)
    requires 0 <= n && InStep(base, target, p, t, n + 1)
    ensures Hits(base, target, p, t, n + 1)
            == Hits(base, target, p, t, n) + if base[p + n] == target[t + n] then 1 else 0
  {
  }

  lemma NoExtension(base: seq<byte>, target: seq<byte>, p: int, t: int)
    requires InStep(base, target, p, t, 0)
    ensures Hits(base, target, p, t, 0) == 0
    ensures BestForward(base, target, p, t, 0, 0) && BestBackward(base, target, p, t, 0, 0)
  {
  }

  method ExtendForward(base: seq<byte>, target: seq<byte>, lastpos: int, lastscan: int, scan: int)
    returns (lenf: int)
    requires 0 <= lastpos <= |base| && 0 <= lastscan <= scan <= |target|
    ensures BestForward(base, target, lastpos, lastscan, lenf,
                        if scan - lastscan <= |base| - lastpos then scan - lastscan else |base| - lastpos)
  {
    hide Hits, BestForward;
    var s, Sf := 0, 0;
    lenf := 0;
    NoExtension(base, target, lastpos, lastscan);
    var i := 0;
    while lastscan + i < scan && lastpos + i < |base|
      invariant 0 <= lenf <= i && lastscan + i <= scan && lastpos + i <= |base|
      invariant s == Hits(base, target, lastpos, lastscan, i)
      invariant BestForward(base, target, lastpos, lastscan, lenf, i)
      invariant Sf == Hits(base, target, lastpos, lastscan, lenf)
    {
      ForwardNext(base, target, lastpos, lastscan, lenf, i);
      if base[lastpos + i] == target[lastscan + i] { s := s + 1; }
      i := i + 1;
      if s * 2 - i > Sf * 2 - lenf {
        Sf := s;
        lenf := i;
      }
    }
  }

  /** The same one position further back. */
  lemma BackwardNext(base: seq<byte>, target: seq<byte>, p: int, t: int, len: int, i: int)
    requires 1 <= i && BestBackward(base, target, p, t, len, i - 1) && InStep(base, target, p - i, t - i, i)
    ensures 0 <= len < i
    ensures Hits(base, target, p - i, t - i, i)
            == Hits(base, target, p - (i - 1), t - (i - 1), i - 1) + if base[p - i] == target[t - i] then 1 else 0
    ensures BestBackward(base, target, p, t,
                         if Hits(base, target, p - i, t - i, i) * 2 - i
                            > Hits(base, target, p - len, t - len, len) * 2 - len then i else len, i)
  {
    HitsSplit(base, target, p - i, t - i, 1, i);
    HitsNext(base, target, p - i, t - i, 0);
    NoExtension(base, target, p - i, t - i);
    hide Hits;
  }

  method ExtendBackward(base: seq<byte>, target: seq<byte>, pos: int, scan: int, lastscan: int)
    returns (lenb: int)
    requires 0 <= pos <= |base| && 0 <= lastscan <= scan <= |target|
    ensures BestBackward(base, target, pos, scan, lenb, if scan - lastscan <= pos then scan - lastscan else pos)
  {
    hide Hits, BestBackward;
    var s, Sb := 0, 0;
    lenb := 0;
    NoExtension(base, target, pos, scan);
    var i := 1;
    while scan >= lastscan + i && pos >= i
      invariant 0 <= lenb < i && lastscan + i <= scan + 1 && i <= pos + 1
      invariant s == Hits(base, target, pos - (i - 1), scan - (i - 1), i - 1)
      invariant BestBackward(base, target, pos, scan, lenb, i - 1)
      invariant Sb == Hits(base, target, pos - lenb, scan - lenb, lenb)
    {
      BackwardNext(base, target, pos, scan, lenb, i);
      if base[pos - i] == target[scan - i] { s := s + 1; }
      if s * 2 - i > Sb * 2 - lenb {
        Sb := s;
        lenb := i;
      }
      i := i + 1;
    }
  }

  /** Equal bytes if the first i positions of an overlap of n go to the earlier
      match and the rest to the later one. */
  function Shared(base: seq<byte>, target: seq<byte>, p: int, q: int, t: int, n: int, i: int): nat
    requires 0 <= i <= n && InStep(base, target, p, t, n) && InStep(base, target, q, t, n)
  {
    Hits(base, target, p, t, i) + Hits(base, target, q + i, t + i, n - i)
  }

  ghost predicate BestDivision(base: seq<byte>, target: seq<byte>, p: int, q: int, t: int, n: int, len: int) {
    && 0 <= len <= n && InStep(base, target, p, t, n) && InStep(base, target, q, t, n)
    && (forall i :: 0 <= i <= n ==> Shared(base, target, p, q, t, n, i) <= Shared(base, target, p, q, t, n, len))
    && (forall i :: 0 <= i < len ==> Shared(base, target, p, q, t, n, i) < Shared(base, target, p, q, t, n, len))
  }

  /** The overlap is divided at the first point where the most bytes are equal in all. */
  method DivideOverlap(base: seq<byte>, target: seq<byte>, p: int, q: int, t: int, overlap: int)
    returns (lens: int)
    requires InStep(base, target, p, t, overlap) && InStep(base, target, q, t, overlap)
    ensures BestDivision(base, target, p, q, t, overlap, lens)
  {
    hide Hits, BestDivision;
    var s, Ss := 0, 0;
    lens := 0;
    HitsNone(base, target, p, t);
    HitsNone(base, target, q, t);
    var i := 0;
    while i < overlap
      invariant 0 <= lens <= i <= overlap
      invariant s == Ahead(base, target, p, q, t, i) && Ss == Ahead(base, target, p, q, t, lens)
      invariant forall k :: 0 <= k <= i ==> Ahead(base, target, p, q, t, k) <= Ss
      invariant forall k :: 0 <= k < lens ==> Ahead(base, target, p, q, t, k) < Ss
    {
      HitsNext(base, target, p, t, i);
      HitsNext(base, target, q, t, i);
      if target[t + i] == base[p + i] { s := s + 1; }
      if target[t + i] == base[q + i] { s := s - 1; }
      if s > Ss {
        Ss := s;
        lens := i + 1;
      }
      i := i + 1;
    }
    DivisionBest(base, target, p, q, t, overlap, lens);
  }

  /** How many more of the first i positions the earlier match explains. */
  function Ahead(base: seq<byte>, target: seq<byte>, p: int, q: int, t: int, i: int): int
    requires InStep(base, target, p, t, i) && InStep(base, target, q, t, i)
  {
    Hits(base, target, p, t, i) - Hits(base, target, q, t, i)
  }

  lemma HitsNone(base: seq<byte>, target: seq<byte>, p: int, t: int)
    requires InStep(base, target, p, t, 0)
    ensures Hits(base, target, p, t, 0) == 0
  {
  }

  lemma SharedIs(base: seq<byte>, target: seq<byte>, p: int, q: int, t: int, n: int, i: int)
    requires 0 <= i <= n && InStep(base, target, p, t, n) && InStep(base, target, q, t, n)
    ensures Shared(base, target, p, q, t, n, i) == Ahead(base, target, p, q, t, i) + Hits(base, target, q, t, n)
  {
    HitsSplit(base, target, q, t, i, n);
    hide Hits;
  }

  lemma DivisionBest(base: seq<byte>, target: seq<byte>, p: int, q: int, t: int, n: int, len: int)
    requires 0 <= len <= n && InStep(base, target, p, t, n) && InStep(base, target, q, t, n)
    requires forall k :: 0 <= k <= n ==> Ahead(base, target, p, q, t, k) <= Ahead(base, target, p, q, t, len)
    requires forall k :: 0 <= k < len ==> Ahead(base, target, p, q, t, k) < Ahead(base, target, p, q, t, len)
    ensures BestDivision(base, target, p, q, t, n, len)
  {
    hide Hits, Shared, Ahead;
    SharedIs(base, target, p, q, t, n, len);
    forall k | 0 <= k <= n
      ensures Shared(base, target, p, q, t, n, k) <= Shared(base, target, p, q, t, n, len)
      ensures k < len ==> Shared(base, target, p, q, t, n, k) < Shared(base, target, p, q, t, n, len)
    {
      SharedIs(base, target, p, q, t, n, k);
    }
  }

  /** The best lengths, and the best division, are unique. */
  lemma SameForward(base: seq<byte>, target: seq<byte>, p: int, t: int, len1: int, len2: int, limit: int)
    requires BestForward(base, target, p, t, len1, limit) && BestForward(base, target, p, t, len2, limit)
    ensures len1 == len2
  {
    hide Gain;
    assert Gain(base, target, p, t, len1) == Gain(base, target, p, t, len2);
  }

  lemma SameBackward(base: seq<byte>, target: seq<byte>, p: int, t: int, len1: int, len2: int, limit: int)
    requires BestBackward(base, target, p, t, len1, limit) && BestBackward(base, target, p, t, len2, limit)
    ensures len1 == len2
  {
    hide GainBack;
    assert GainBack(base, target, p, t, len1) == GainBack(base, target, p, t, len2);
  }

  lemma SameDivision(base: seq<byte>, target: seq<byte>, p: int, q: int, t: int, n: int, len1: int, len2: int)
    requires BestDivision(base, target, p, q, t, n, len1) && BestDivision(base, target, p, q, t, n, len2)
    ensures len1 == len2
  {
    hide Shared;
    assert Shared(base, target, p, q, t, n, len1) == Shared(base, target, p, q, t, n, len2);
  }
}
