/** The scan of `bsdiffmain` for the next match worth a control triple. */
module DiffScan {
  import opened Common
  import opened SuffixArray
  import opened MatchSearch

  /** Whether position t of the new data matches old at a fixed offset. */
  predicate Hit(base: seq<byte>, target: seq<byte>, off: int, t: int)
    requires 0 <= t < |target| && 0 <= t + off
  {
    t + off < |base| && base[t + off] == target[t]
  }

  /** How many positions of lo..hi-1 hit. */
  function Score(base: seq<byte>, target: seq<byte>, off: int, lo: int, hi: int): nat
    requires 0 <= lo && hi <= |target| && 0 <= lo + off
    decreases hi - lo
  {
    if hi <= lo then 0
    else Score(base, target, off, lo, hi - 1) + if Hit(base, target, off, hi - 1) then 1 else 0
  }

  lemma {:induction false} ScoreFirst(base: seq<byte>, target: seq<byte>, off: int, lo: int, hi: int)
    requires 0 <= lo < hi <= |target| && 0 <= lo + off
    ensures Score(base, target, off, lo, hi) == Score(base, target, off, lo + 1, hi) + if Hit(base, target, off,
             lo) then 1 else 0
    decreases hi
  {
    if lo + 1 < hi { ScoreFirst(base, target, off, lo, hi - 1); }
  }

  lemma {:induction false} ScoreBound(base: seq<byte>, target: seq<byte>, off: int, lo: int, hi: int)
    requires 0 <= lo <= hi <= |target| && 0 <= lo + off
    ensures Score(base, target, off, lo, hi) <= hi - lo
    decreases hi
  {
    if lo < hi { ScoreBound(base, target, off, lo, hi - 1); }
  }

  /** The running score: how much of lo..scsc-1 the previous offset explains.
      The count may lag one position behind, never over a hit. */
  ghost predicate Running(base: seq<byte>, target: seq<byte>, off: int, scan: int, scsc: int, score: int) {
    && 0 <= scan <= |target| && 0 <= scsc <= |target| && 0 <= scan + off && 0 <= scsc + off
    && (scan <= scsc || (scan == scsc + 1 && !Hit(base, target, off, scsc)))
    && score == Score(base, target, off, scan, scsc)
  }

  /** Count on to the end of the match just found. */
  method CountOn(base: seq<byte>, target: seq<byte>, off: int, scan: int, len: int, scsc0: int, score0: int)
    returns (scsc: int, score: int)
    requires Running(base, target, off, scan, scsc0, score0) && 0 <= len && scan + len <= |target|
    ensures Running(base, target, off, scan, scsc, score)
    ensures scsc == Max(scsc0, scan + len)
  {
    scsc, score := scsc0, score0;
    while scsc < scan + len
      invariant Running(base, target, off, scan, scsc, score)
      invariant scsc0 <= scsc <= Max(scsc0, scan + len)
      decreases scan + len - scsc
    {
      if scsc + off < |base| && base[scsc + off] == target[scsc] {
        score := score + 1;
      }
      scsc := scsc + 1;
    }
  }

  /** The length of the match the search finds at position t. */
  ghost function MatchAt(a: seq<int>, base: seq<byte>, target: seq<byte>, t: int): (n: nat)
    requires Searchable(a, base, 0, |base|) && 0 <= t <= |target|
    ensures t + n <= |target|
  {
    Found(a, base, target[t..], 0, |base|).0
  }

  /** The furthest end of the matches found at start..t. */
  ghost function Reach(a: seq<int>, base: seq<byte>, target: seq<byte>, start: int, t: int): (end: int)
    requires Searchable(a, base, 0, |base|) && 0 <= start <= t <= |target|
    ensures t <= end <= |target|
    decreases t - start
  {
    var end := t + MatchAt(a, base, target, t);
    if t == start then end else Max(Reach(a, base, target, start, t - 1), end)
  }

  lemma {:induction false} ReachMeans(a: seq<int>, base: seq<byte>, target: seq<byte>, start: int, t: int)
    requires Searchable(a, base, 0, |base|) && 0 <= start <= t <= |target|
    ensures forall u :: start <= u <= t ==> u + MatchAt(a, base, target, u) <= Reach(a, base, target, start, t)
    ensures exists u :: start <= u <= t && u + MatchAt(a, base, target, u) == Reach(a, base, target, start, t)
    decreases t - start
  {
    hide MatchAt;
    if start < t { ReachMeans(a, base, target, start, t - 1); }
    assert t + MatchAt(a, base, target, t) <= Reach(a, base, target, start, t);
  }

  /** The bytes from t up to that end that the previous offset explains. */
  ghost function ScoreAt(a: seq<int>, base: seq<byte>, target: seq<byte>, off: int, start: int, t: int): nat
    requires Searchable(a, base, 0, |base|) && 0 <= start <= t <= |target| && 0 <= start + off
  {
    Score(base, target, off, t, Reach(a, base, target, start, t))
  }

  /** The match at t is neither one the previous offset explains in full nor
      nine or more bytes better than it. */
  ghost predicate PassedOver(a: seq<int>, base: seq<byte>, target: seq<byte>, off: int, start: int, t: int)
    requires Searchable(a, base, 0, |base|) && 0 <= start <= t <= |target| && 0 <= start + off
  {
    var n, score := MatchAt(a, base, target, t), ScoreAt(a, base, target, off, start, t);
    (n == 0 || n != score) && n < score + 9
  }

  /** A scan from start on: where it stopped, at the first match that is not
      passed over, or with the last match found at the end of the data. */
  ghost predicate Stopped(a: seq<int>, base: seq<byte>, target: seq<byte>, off: int, start: int, scan: int, len: int,
                          pos: int, score: int) {
    && IsSuffixArray(base, a) && Searchable(a, base, 0, |base|)
    && 0 <= start <= scan <= |target| && 0 <= start + off
    && (forall t :: start <= t < scan ==> PassedOver(a, base, target, off, start, t))
    && (scan < |target| ==>
          && (len, pos) == Found(a, base, target[scan..], 0, |base|)
          && score == ScoreAt(a, base, target, off, start, scan)
          && ((0 < len && len == score) || len >= score + 9))
    && (start < scan == |target| ==> (len, pos) == Found(a, base, target[|target| - 1..], 0, |base|))
  }

  /** Leaving position scan: it is taken off the score exactly when it had been
      counted, because a hit there would have given the search a match. */
  lemma LeavePosition(a: seq<int>, base: seq<byte>, target: seq<byte>, off: int, scan: int, len: int, scsc: int,
                      score: int)
    requires IsSuffixArray(base, a) && Running(base, target, off, scan, scsc, score)
    requires scan < |target| && scan + len <= scsc && Searchable(a, base, 0, |base|)
    requires 0 <= len == Found(a, base, target[scan..], 0, |base|).0
    ensures Running(base, target, off, scan + 1, scsc, score - if Hit(base, target, off, scan) then 1 else 0)
  {
    if Hit(base, target, off, scan) { NoMatchNoByte(a, base, target[scan..], scan + off); }
    if scan < scsc { ScoreFirst(base, target, off, scan, scsc); }
  }

  /** The variables of the inner loop before it searches at scan. */
  ghost predicate Searching(a: seq<int>, base: seq<byte>, target: seq<byte>, off: int, start: int, scan: int, len: int,
                            pos: int, scsc: int, score: int) {
    && IsSuffixArray(base, a) && Searchable(a, base, 0, |base|) && Running(base, target, off, scan, scsc, score)
    && 0 <= start <= scan && 0 <= start + off
    && (forall t :: start <= t < scan ==> PassedOver(a, base, target, off, start, t))
    && scsc == (if scan == start then start else Reach(a, base, target, start, scan - 1))
    && (start < scan ==> (len, pos) == Found(a, base, target[scan - 1..], 0, |base|))
  }

  /** The inner loop: advance until a match is worthwhile or the data ends. */
  method NextMatch(I: array<int>, base: seq<byte>, target: seq<byte>, off: int, start: int, len0: int, pos0: int)
    returns (scan: int, len: int, pos: int, oldscore: int)
    requires IsSuffixArray(base, I[..])
    requires 0 <= start <= |target| && 0 <= start + off && 0 <= pos0 <= |base| && 0 <= len0
    ensures start <= scan <= |target| && 0 <= pos <= |base| && 0 <= len && 0 <= oldscore
    ensures Searchable(I[..], base, 0, |base|)
    ensures forall t :: start <= t < scan ==>
              var n, score := MatchAt(I[..], base, target, t), ScoreAt(I[..], base, target, off, start, t);
              (n == 0 || n != score) && n < score + 9
    ensures scan < |target| ==>
              && (len, pos) == Found(I[..], base, target[scan..], 0, |base|)
              && oldscore == ScoreAt(I[..], base, target, off, start, scan)
              && ((0 < len && len == oldscore) || len >= oldscore + 9)
    ensures Stopped(I[..], base, target, off, start, scan, len, pos, oldscore)
    ensures start == |target| ==> len == len0 && pos == pos0 && oldscore == 0
  {
    hide *;
    ghost var a := I[..];
    len, pos, oldscore := len0, pos0, 0;
    scan := start;
    var scsc := start;
    SearchingStart(a, base, target, off, start, len, pos);
    while scan < |target|
      invariant start <= scan <= |target| && 0 <= pos <= |base| && 0 <= len
      invariant Searching(a, base, target, off, start, scan, len, pos, scsc, oldscore)
      invariant scan == start ==> len == len0 && pos == pos0 && oldscore == 0
    {
      SearchingMeans(a, base, target, off, start, scan, len, pos, scsc, oldscore);
      ghost var len', pos', scsc', score' := len, pos, scsc, oldscore;
      len, pos := Search(I, base, target[scan..], 0, |base|);
      FoundBounds(a, base, target, scan, len, pos);
      scsc, oldscore := CountOn(base, target, off, scan, len, scsc, oldscore);
      CountedOn(a, base, target, off, start, scan, len', pos', scsc', score', len, pos, scsc, oldscore);
      if (len == oldscore && len != 0) || len > oldscore + 8 {
        StopHere(a, base, target, off, start, scan, len', pos', scsc', score', len, pos, oldscore);
        break;
      }
      SearchingNext(a, base, target, off, start, scan, len', pos', scsc', score', len, pos, scsc, oldscore);
      if scan + off < |base| && base[scan + off] == target[scan] {
        oldscore := oldscore - 1;
      }
      scan := scan + 1;
    }
    if scan == |target| { StopAtEnd(a, base, target, off, start, len, pos, scsc, oldscore); }
    StoppedMeans(a, base, target, off, start, scan, len, pos, oldscore);
  }

  lemma SearchingStart(a: seq<int>, base: seq<byte>, target: seq<byte>, off: int, start: int, len: int, pos: int)
    requires IsSuffixArray(base, a) && 0 <= start <= |target| && 0 <= start + off
    ensures Searching(a, base, target, off, start, start, len, pos, start, 0)
  {
  }

  lemma SearchingMeans(a: seq<int>, base: seq<byte>, target: seq<byte>, off: int, start: int, scan: int, len: int,
                       pos: int, scsc: int, score: int)
    requires Searching(a, base, target, off, start, scan, len, pos, scsc, score)
    ensures Searchable(a, base, 0, |base|) && Running(base, target, off, scan, scsc, score)
    ensures 0 <= start <= scan <= |target| && 0 <= scan + off && 0 <= score
  {
  }

  lemma FoundBounds(a: seq<int>, base: seq<byte>, target: seq<byte>, scan: int, len: int, pos: int)
    requires 0 <= scan <= |target| && Searchable(a, base, 0, |base|)
    requires (len, pos) == Found(a, base, target[scan..], 0, |base|)
    ensures 0 <= len && scan + len <= |target| && 0 <= pos <= |base|
  {
  }

  /** After counting on, the score is the one at this position. */
  lemma CountedOn(a: seq<int>, base: seq<byte>, target: seq<byte>, off: int, start: int, scan: int, len0: int,
                  pos0: int, scsc0: int, score0: int, len: int, pos: int, scsc: int, score: int)
    requires Searching(a, base, target, off, start, scan, len0, pos0, scsc0, score0) && scan < |target|
    requires (len, pos) == Found(a, base, target[scan..], 0, |base|)
    requires Running(base, target, off, scan, scsc, score) && scsc == Max(scsc0, scan + len)
    ensures 0 <= score == ScoreAt(a, base, target, off, start, scan)
    ensures scsc == Reach(a, base, target, start, scan) && len == MatchAt(a, base, target, scan)
  {
    hide Score, Found, Hit, IsSuffixArray, Searchable;
  }

  lemma StopHere(a: seq<int>, base: seq<byte>, target: seq<byte>, off: int, start: int, scan: int, len0: int,
                 pos0: int, scsc0: int, score0: int, len: int, pos: int, score: int)
    requires Searching(a, base, target, off, start, scan, len0, pos0, scsc0, score0) && scan < |target|
    requires (len, pos) == Found(a, base, target[scan..], 0, |base|) && 0 <= len
    requires score == ScoreAt(a, base, target, off, start, scan)
    requires (len == score && len != 0) || len > score + 8
    ensures Stopped(a, base, target, off, start, scan, len, pos, score)
  {
    hide ScoreAt, Found, PassedOver, Running, IsSuffixArray, Searchable;
  }

  /** The match here is passed over: the count goes on without this position. */
  lemma SearchingNext(a: seq<int>, base: seq<byte>, target: seq<byte>, off: int, start: int, scan: int, len0: int,
                      pos0: int, scsc0: int, score0: int, len: int, pos: int, scsc: int, score: int)
    requires Searching(a, base, target, off, start, scan, len0, pos0, scsc0, score0) && scan < |target|
    requires (len, pos) == Found(a, base, target[scan..], 0, |base|)
    requires len == MatchAt(a, base, target, scan) && scsc == Reach(a, base, target, start, scan)
    requires Running(base, target, off, scan, scsc, score) && score == ScoreAt(a, base, target, off, start, scan)
    requires !((len == score && len != 0) || len > score + 8)
    ensures scan + off < |base| && base[scan + off] == target[scan] ==>
              Searching(a, base, target, off, start, scan + 1, len, pos, scsc, score - 1)
    ensures !(scan + off < |base| && base[scan + off] == target[scan]) ==>
              Searching(a, base, target, off, start, scan + 1, len, pos, scsc, score)
  {
    var hit := scan + off < |base| && base[scan + off] == target[scan];
    var score' := score - if hit then 1 else 0;
    assert Running(base, target, off, scan + 1, scsc, score') by {
      LeavePosition(a, base, target, off, scan, len, scsc, score);
    }
    hide Score, ScoreAt, Found, IsSuffixArray, Running, Searchable, Reach, MatchAt;
    PassedOn(a, base, target, off, start, scan);
  }

  lemma PassedOn(a: seq<int>, base: seq<byte>, target: seq<byte>, off: int, start: int, scan: int)
    requires Searchable(a, base, 0, |base|) && 0 <= start <= scan < |target| && 0 <= start + off
    requires forall t :: start <= t < scan ==> PassedOver(a, base, target, off, start, t)
    requires PassedOver(a, base, target, off, start, scan)
    ensures forall t :: start <= t < scan + 1 ==> PassedOver(a, base, target, off, start, t)
  {
  }

  lemma StopAtEnd(a: seq<int>, base: seq<byte>, target: seq<byte>, off: int, start: int, len: int, pos: int, scsc: int,
                  score: int)
    requires Searching(a, base, target, off, start, |target|, len, pos, scsc, score)
    ensures Stopped(a, base, target, off, start, |target|, len, pos, score) && 0 <= score
  {
    hide ScoreAt, Found, PassedOver, IsSuffixArray;
  }

  lemma StoppedMeans(a: seq<int>, base: seq<byte>, target: seq<byte>, off: int, start: int, scan: int, len: int,
                     pos: int, score: int)
    requires Stopped(a, base, target, off, start, scan, len, pos, score)
    ensures Searchable(a, base, 0, |base|) && 0 <= start <= scan <= |target| && 0 <= start + off
    ensures forall t :: start <= t < scan ==>
              var n, s := MatchAt(a, base, target, t), ScoreAt(a, base, target, off, start, t);
              (n == 0 || n != s) && n < s + 9
    ensures scan < |target| ==>
              && (len, pos) == Found(a, base, target[scan..], 0, |base|)
              && score == ScoreAt(a, base, target, off, start, scan)
              && ((0 < len && len == score) || len >= score + 9)
  {
    hide MatchAt, ScoreAt, Found, IsSuffixArray;
    forall t | start <= t < scan
      ensures var n, s := MatchAt(a, base, target, t), ScoreAt(a, base, target, off, start, t);
              (n == 0 || n != s) && n < s + 9
    {
      assert PassedOver(a, base, target, off, start, t);
    }
  }

  /** Two stops of the same scan are at the same place. */
  lemma SameStop(a: seq<int>, base: seq<byte>, target: seq<byte>, off: int, start: int, scan1: int, len1: int,
                 pos1: int, score1: int, scan2: int, len2: int, pos2: int, score2: int)
    requires Stopped(a, base, target, off, start, scan1, len1, pos1, score1)
    requires Stopped(a, base, target, off, start, scan2, len2, pos2, score2)
    ensures scan1 == scan2 <= |target| && (scan1 < |target| ==> len1 == len2 && pos1 == pos2 && score1 == score2)
    ensures start <= |target| && (start < |target| ==> len1 == len2 && pos1 == pos2)
  {
    hide ScoreAt, Found, IsSuffixArray;
    assert scan1 < scan2 ==> PassedOver(a, base, target, off, start, scan1);
    assert scan2 < scan1 ==> PassedOver(a, base, target, off, start, scan2);
  }
}
