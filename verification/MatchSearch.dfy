/** `matchlen` and `search`: find a long match for the head of the new data. */
module MatchSearch {
  import opened Common
  import opened SuffixOrder
  import opened SuffixGroups
  import opened SuffixArray

  /** The length of the longest common prefix. */
  function Match(s: seq<byte>, t: seq<byte>): (n: nat)
    ensures n <= |s| && n <= |t|
  {
    if s == [] || t == [] || s[0] != t[0] then 0 else 1 + Match(s[1..], t[1..])
  }

  lemma {:induction false} MatchIs(s: seq<byte>, t: seq<byte>)
    ensures s[..Match(s, t)] == t[..Match(s, t)]
    ensures Match(s, t) < |s| && Match(s, t) < |t| ==> s[Match(s, t)] != t[Match(s, t)]
  {
    if s != [] && t != [] && s[0] == t[0] {
      MatchIs(s[1..], t[1..]);
      var n := Match(s[1..], t[1..]);
      assert s[..1 + n] == [s[0]] + s[1..][..n];
      assert t[..1 + n] == [t[0]] + t[1..][..n];
    }
  }

  lemma {:induction false} MatchFrom(s: seq<byte>, t: seq<byte>, n: nat)
    requires n <= |s| && n <= |t| && s[..n] == t[..n]
    ensures Match(s, t) == n + Match(s[n..], t[n..])
    decreases n
  {
    if n > 0 {
      assert s[0] == s[..n][0] == t[..n][0] == t[0];
      assert s[1..][..n - 1] == s[..n][1..] == t[..n][1..] == t[1..][..n - 1];
      MatchFrom(s[1..], t[1..], n - 1);
      assert s[1..][n - 1..] == s[n..] && t[1..][n - 1..] == t[n..];
    }
  }

  /** `matchlen` */
  method MatchLen(base: seq<byte>, target: seq<byte>) returns (i: nat)
    ensures i == Match(base, target)
  {
    i := 0;
    while i < |base| && i < |target|
      invariant i <= |base| && i <= |target| && base[..i] == target[..i]
    {
      if base[i] != target[i] { break; }
      i := i + 1;
    }
    MatchFrom(base, target, i);
  }

  /** Comparing no more bytes than the shorter string has: whether the first
      string is smaller at the first difference. */
  predicate Precedes(s: seq<byte>, t: seq<byte>) {
    var n := Match(s, t);
    n < |s| && n < |t| && s[n] < t[n]
  }

  ghost predicate Searchable(a: seq<int>, base: seq<byte>, st: int, en: int) {
    0 <= st <= en < |a| && forall k :: 0 <= k < |a| ==> 0 <= a[k] <= |base|
  }

  /** The match found by halving st..en, and where it was found. */
  ghost function Found(a: seq<int>, base: seq<byte>, target: seq<byte>, st: int, en: int): (r: (int, int))
    requires Searchable(a, base, st, en)
    ensures exists k :: st <= k <= en && r.1 == a[k]
    ensures 0 <= r.1 <= |base| && r.0 == Match(base[r.1..], target)
    decreases en - st
  {
    if en - st < 2 then
      var x := Match(base[a[st]..], target);
      var y := Match(base[a[en]..], target);
      if x > y then (x, a[st]) else (y, a[en])
    else
      var x := st + (en - st) / 2;
      if Precedes(base[a[x]..], target) then Found(a, base, target, x, en) else Found(a, base, target, st, x)
  }

  /** Every probe is the middle entry, the lower one of two, and the suffix
      there decides between the halves that share it. */
  lemma FoundHalf(a: seq<int>, base: seq<byte>, target: seq<byte>, st: int, en: int, x: int)
    requires Searchable(a, base, st, en) && st + 2 <= en && 0 <= st + en - 2 * x <= 1
    ensures st < x < en
    ensures Found(a, base, target, st, en)
            == if Precedes(base[a[x]..], target) then Found(a, base, target, x, en) else Found(a, base, target, st, x)
  {
    hide Match, Precedes;
    Middle(st, en, x);
    if Precedes(base[a[x]..], target) {
      assert Found(a, base, target, st, en) == Found(a, base, target, x, en);
    } else {
      assert Found(a, base, target, st, en) == Found(a, base, target, st, x);
    }
  }

  lemma Middle(st: int, en: int, x: int)
    requires st + 2 <= en && 0 <= st + en - 2 * x <= 1
    ensures st < x < en && x == st + (en - st) / 2
  {
  }

  lemma FoundOfTwo(a: seq<int>, base: seq<byte>, target: seq<byte>, st: int, en: int)
    requires Searchable(a, base, st, en) && en - st < 2
    ensures Match(base[a[st]..], target) <= Match(base[a[en]..], target) ==> Found(a, base, target, st, en).1 == a[en]
    ensures Match(base[a[st]..], target) > Match(base[a[en]..], target) ==> Found(a, base, target, st, en).1 == a[st]
  {
    hide Match;
  }

  /** The search has come down to the neighbours k and u. */
  ghost predicate ComesDownTo(a: seq<int>, base: seq<byte>, target: seq<byte>, st: int, en: int, k: int, u: int) {
    && Searchable(a, base, st, en) && st <= k <= u <= en && (u == k + 1 || st == en)
    && (k == st || Precedes(base[a[k]..], target)) && (u == en || !Precedes(base[a[u]..], target))
  }

  /** The search ends between two neighbours, the lower one before the new data
      and the upper one not, and returns the better of them: the upper one if
      they are equally long. */
  lemma {:induction false} FoundTie(a: seq<int>, base: seq<byte>, target: seq<byte>, st: int, en: int)
    returns (k: int, u: int)
    requires Searchable(a, base, st, en)
    ensures ComesDownTo(a, base, target, st, en, k, u)
    ensures Match(base[a[k]..], target) <= Match(base[a[u]..], target) ==> Found(a, base, target, st, en).1 == a[u]
    ensures Match(base[a[k]..], target) > Match(base[a[u]..], target) ==> Found(a, base, target, st, en).1 == a[k]
    decreases en - st
  {
    hide Match, Precedes, Found;
    if en - st < 2 {
      k, u := st, en;
      FoundOfTwo(a, base, target, st, en);
    } else {
      var x := st + (en - st) / 2;
      FoundHalf(a, base, target, st, en, x);
      if Precedes(base[a[x]..], target) {
        k, u := FoundTie(a, base, target, x, en);
      } else {
        k, u := FoundTie(a, base, target, st, x);
      }
    }
  }

  /** `search` */
  method Search(I: array<int>, base: seq<byte>, target: seq<byte>, st: int, en: int) returns (len: int, pos: int)
    requires Searchable(I[..], base, st, en)
    ensures (len, pos) == Found(I[..], base, target, st, en)
    decreases en - st
  {
    hide Match, Precedes;
    if en - st < 2 {
      var x := MatchLen(base[I[st]..], target);
      var y := MatchLen(base[I[en]..], target);
      if x > y {
        return x, I[st];
      } else {
        return y, I[en];
      }
    }
    var x := st + (en - st) / 2;
    var less := Compare(base[I[x]..], target);
    if less {
      len, pos := Search(I, base, target, x, en);
    } else {
      len, pos := Search(I, base, target, st, x);
    }
  }

  /** The comparison `search` makes at its probe, over the shorter length. */
  method Compare(s: seq<byte>, t: seq<byte>) returns (less: bool)
    ensures less == Precedes(s, t)
  {
    var n := MatchLen(s, t);
    less := n < |s| && n < |t| && s[n] < t[n];
  }

  // ---- order and match length -------------------------------------------

  lemma {:induction false} EarlierMatchesLess(s: seq<byte>, t: seq<byte>, w: seq<byte>)
    requires LexLess(s, t) && (Precedes(t, w) || t <= w)
    ensures Match(s, w) <= Match(t, w)
  {
    if s != [] && w != [] && s[0] == t[0] == w[0] {
      EarlierMatchesLess(s[1..], t[1..], w[1..]);
    }
  }

  lemma {:induction false} LaterMatchesLess(t: seq<byte>, u: seq<byte>, w: seq<byte>)
    requires LexLess(t, u) && !Precedes(t, w) && !(t < w)
    ensures Match(u, w) <= Match(t, w)
  {
    if t != [] && w != [] && t[0] == u[0] == w[0] {
      LaterMatchesLess(t[1..], u[1..], w[1..]);
    }
  }

  /** The suffix at i runs out against the new data, and old goes on elsewhere. */
  ghost predicate Misleads(base: seq<byte>, target: seq<byte>, i: int) {
    0 <= i <= |base| && base[i..] < target && exists p :: 0 <= p <= |base| && Match(base[p..], target) > |base| - i
  }

  /** No probe of the search misleads it. */
  ghost predicate NeverMisled(a: seq<int>, base: seq<byte>, target: seq<byte>, st: int, en: int)
    requires Searchable(a, base, st, en)
    decreases en - st
  {
    en - st < 2 ||
    var x := st + (en - st) / 2;
    if Precedes(base[a[x]..], target) then NeverMisled(a, base, target, x, en)
    else !Misleads(base, target, a[x]) && NeverMisled(a, base, target, st, x)
  }

  ghost predicate Longest(base: seq<byte>, target: seq<byte>, len: int) {
    forall p :: 0 <= p <= |base| ==> Match(base[p..], target) <= len
  }

  /** Outside st..en nothing beats the nearer end. */
  ghost predicate Bracketed(a: seq<int>, base: seq<byte>, target: seq<byte>, st: int, en: int) {
    && Searchable(a, base, st, en)
    && (forall k :: 0 <= k < st ==> Match(base[a[k]..], target) <= Match(base[a[st]..], target))
    && (forall k :: en < k < |a| ==> Match(base[a[k]..], target) <= Match(base[a[en]..], target))
  }

  lemma ProbeBefore(a: seq<int>, base: seq<byte>, target: seq<byte>, x: int, k: int)
    requires IsSuffixArray(base, a) && 0 <= k <= x < |a|
    requires Precedes(base[a[x]..], target) || base[a[x]..] <= target
    ensures Match(base[a[k]..], target) <= Match(base[a[x]..], target)
  {
    if k < x { EarlierMatchesLess(base[a[k]..], base[a[x]..], target); }
  }

  lemma ProbeAfter(a: seq<int>, base: seq<byte>, target: seq<byte>, x: int, k: int)
    requires IsSuffixArray(base, a) && 0 <= x < k < |a|
    requires !Precedes(base[a[x]..], target) && !Misleads(base, target, a[x])
    ensures Match(base[a[k]..], target) <= Match(base[a[x]..], target)
  {
    if base[a[x]..] < target {
      MatchFrom(base[a[x]..], target, |base| - a[x]);
    } else {
      LaterMatchesLess(base[a[x]..], base[a[k]..], target);
    }
  }

  lemma {:induction false} NotMisledFindsLongest(a: seq<int>, base: seq<byte>, target: seq<byte>, st: int, en: int)
    requires IsSuffixArray(base, a) && Bracketed(a, base, target, st, en)
    requires NeverMisled(a, base, target, st, en)
    ensures Longest(base, target, Found(a, base, target, st, en).0)
    decreases en - st
  {
    hide Match, Precedes, Misleads, LexLess;
    if en - st < 2 {
      forall p | 0 <= p <= |base| ensures Match(base[p..], target) <= Found(a, base, target, st, en).0 {
        var k := IndexOf(a, p);
        assert k <= st || k >= en;
      }
    } else {
      var x := st + (en - st) / 2;
      if Precedes(base[a[x]..], target) {
        forall k | 0 <= k < x ensures Match(base[a[k]..], target) <= Match(base[a[x]..], target) {
          ProbeBefore(a, base, target, x, k);
        }
        NotMisledFindsLongest(a, base, target, x, en);
      } else {
        forall k | x < k < |a| ensures Match(base[a[k]..], target) <= Match(base[a[x]..], target) {
          ProbeAfter(a, base, target, x, k);
        }
        NotMisledFindsLongest(a, base, target, st, x);
      }
    }
  }

  /** Turning left at a misleading probe leaves only shorter matches. */
  lemma MisledHere(a: seq<int>, base: seq<byte>, target: seq<byte>, st: int, x: int)
    requires IsSuffixArray(base, a) && Searchable(a, base, st, x) && Misleads(base, target, a[x])
    ensures !Longest(base, target, Found(a, base, target, st, x).0)
  {
    var k :| st <= k <= x && Found(a, base, target, st, x).1 == a[k];
    ProbeBefore(a, base, target, x, k);
  }

  lemma {:induction false} MisledMissesLongest(a: seq<int>, base: seq<byte>, target: seq<byte>, st: int, en: int)
    requires IsSuffixArray(base, a) && Searchable(a, base, st, en)
    requires !NeverMisled(a, base, target, st, en)
    ensures !Longest(base, target, Found(a, base, target, st, en).0)
    decreases en - st
  {
    hide Precedes, Match, IsSuffixArray, Misleads, Longest;
    var x := st + (en - st) / 2;
    if Precedes(base[a[x]..], target) {
      MisledMissesLongest(a, base, target, x, en);
    } else if Misleads(base, target, a[x]) {
      MisledHere(a, base, target, st, x);
    } else {
      MisledMissesLongest(a, base, target, st, x);
    }
  }

  /** The search over the whole array returns a longest match exactly when no
      probed suffix is used up by the new data while old continues it elsewhere. */
  lemma SearchLongestIff(a: seq<int>, base: seq<byte>, target: seq<byte>)
    requires IsSuffixArray(base, a)
    ensures Searchable(a, base, 0, |base|)
    ensures Longest(base, target, Found(a, base, target, 0, |base|).0) <==> NeverMisled(a, base, target, 0, |base|)
  {
    if NeverMisled(a, base, target, 0, |base|) {
      NotMisledFindsLongest(a, base, target, 0, |base|);
    } else {
      MisledMissesLongest(a, base, target, 0, |base|);
    }
  }

  /** Only the first entry is the empty suffix. */
  lemma InnerNonEmpty(a: seq<int>, base: seq<byte>, x: int)
    requires IsSuffixArray(base, a) && 0 < x < |a|
    ensures 0 <= a[x] < |base|
  {
    assert SufLess(base, a[0], a[x]);
  }

  lemma {:induction false} NoPrefixNeverMisled(a: seq<int>, base: seq<byte>, target: seq<byte>, st: int, en: int)
    requires IsSuffixArray(base, a) && Searchable(a, base, st, en)
    requires forall i :: 0 <= i < |base| ==> !(base[i..] < target)
    ensures NeverMisled(a, base, target, st, en)
    decreases en - st
  {
    if en - st >= 2 {
      var x := st + (en - st) / 2;
      InnerNonEmpty(a, base, x);
      hide LexLess, Match, Precedes, IsSuffixArray;
      NoPrefixNeverMisled(a, base, target, x, en);
      NoPrefixNeverMisled(a, base, target, st, x);
    }
  }

  /** If no non-empty suffix of old is a proper prefix of the new data, the
      search returns a longest match. */
  lemma SearchLongest(a: seq<int>, base: seq<byte>, target: seq<byte>)
    requires IsSuffixArray(base, a)
    requires forall i :: 0 <= i < |base| ==> !(base[i..] < target)
    ensures Searchable(a, base, 0, |base|) && Longest(base, target, Found(a, base, target, 0, |base|).0)
  {
    NoPrefixNeverMisled(a, base, target, 0, |base|);
    SearchLongestIff(a, base, target);
  }

  /** A probe on which the search turns left has a match if anything later has. */
  lemma ProbeMatches(a: seq<int>, base: seq<byte>, target: seq<byte>, x: int, k: int)
    requires IsSuffixArray(base, a) && 0 < x <= k < |a|
    requires !Precedes(base[a[x]..], target) && Match(base[a[k]..], target) > 0
    ensures Match(base[a[x]..], target) > 0
  {
    InnerNonEmpty(a, base, x);
    if base[a[x]..] < target {
      MatchFrom(base[a[x]..], target, |base| - a[x]);
    } else if x < k {
      LaterMatchesLess(base[a[x]..], base[a[k]..], target);
    }
  }

  /** A match somewhere in st..en is never lost altogether. */
  lemma {:induction false} SearchKeepsSome(a: seq<int>, base: seq<byte>, target: seq<byte>, st: int, en: int, k: int)
    requires IsSuffixArray(base, a) && Searchable(a, base, st, en)
    requires st <= k <= en && Match(base[a[k]..], target) > 0
    ensures Found(a, base, target, st, en).0 > 0
    decreases en - st
  {
    hide Precedes, Match, IsSuffixArray;
    if en - st >= 2 {
      var x := st + (en - st) / 2;
      if Precedes(base[a[x]..], target) {
        if k < x { ProbeBefore(a, base, target, x, k); }
        SearchKeepsSome(a, base, target, x, en, if k < x then x else k);
      } else {
        if k > x { ProbeMatches(a, base, target, x, k); }
        SearchKeepsSome(a, base, target, st, x, if k > x then x else k);
      }
    }
  }

  /** A result of length zero means that the next new byte is nowhere in old. */
  lemma NoMatchNoByte(a: seq<int>, base: seq<byte>, target: seq<byte>, p: int)
    requires IsSuffixArray(base, a) && target != [] && 0 <= p < |base| && base[p] == target[0]
    ensures Searchable(a, base, 0, |base|) && Found(a, base, target, 0, |base|).0 > 0
  {
    var k := IndexOf(a, p);
    assert Match(base[p..], target) > 0;
    SearchKeepsSome(a, base, target, 0, |base|, k);
  }

  /** Searching "aba" for itself finds one byte at 2, not three at 0. */
  lemma SearchCanMiss()
    ensures var base: seq<byte> := [97, 98, 97];
            var a := [3, 2, 0, 1];
            && IsSuffixArray(base, a) && Searchable(a, base, 0, 3)
            && Found(a, base, base, 0, 3) == (1, 2) && Match(base[0..], base) == 3
  {
    var base: seq<byte> := [97, 98, 97];
    var a := [3, 2, 0, 1];
    assert base[3..] == [] && base[2..] == [97] && base[1..] == [98, 97] && base[0..] == base;
    assert LexLess([97], base) by { assert LexLess([], base[1..]); }
    assert Match([97], base) == 1;
    assert Match(base, base) == 3 by { assert base[1..][1..] == [97] && base[1..][1..][1..] == []; }
  }
}
