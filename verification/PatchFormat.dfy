/** What the control triples, difference bytes and extra bytes of a patch say. */
module PatchFormat {
  import opened Common

  /** Add `diff` bytes to old, copy `extra` bytes, then move `seek` in old. */
  datatype Triple = Triple(diff: int, extra: int, seek: int)

  function DiffTotal(c: seq<Triple>): int {
    if c == [] then 0 else DiffTotal(c[..|c| - 1]) + c[|c| - 1].diff
  }

  function ExtraTotal(c: seq<Triple>): int {
    if c == [] then 0 else ExtraTotal(c[..|c| - 1]) + c[|c| - 1].extra
  }

  /** Where in old the triples lead. */
  function OldPos(c: seq<Triple>): int {
    if c == [] then 0 else OldPos(c[..|c| - 1]) + c[|c| - 1].diff + c[|c| - 1].seek
  }

  /** The n difference bytes from p in old to t in new. */
  function DiffBytes(base: seq<byte>, target: seq<byte>, p: int, t: int, n: nat): (r: seq<byte>)
    requires 0 <= p && p + n <= |base| && 0 <= t && t + n <= |target|
    ensures |r| == n
  {
    seq(n, i requires 0 <= i < n => ((target[t + i] as int) - base[p + i]) % 256)
  }

  /** One triple at new position t and old position o: old plus the difference
      bytes at d, then the extra bytes at e, are the new bytes. */
  ghost predicate Segment(base: seq<byte>, target: seq<byte>, diff: seq<byte>, extra: seq<byte>,
                          x: Triple, t: int, o: int, d: int, e: int) {
    && 0 <= x.diff && 0 <= x.extra && 0 <= t && t + x.diff + x.extra <= |target|
    && 0 <= o && o + x.diff <= |base|
    && 0 <= d && d + x.diff <= |diff| && 0 <= e && e + x.extra <= |extra|
    && diff[d..d + x.diff] == DiffBytes(base, target, o, t, x.diff)
    && extra[e..e + x.extra] == target[t + x.diff..t + x.diff + x.extra]
  }

  /** Triple k, at the positions the triples before it lead to. */
  ghost predicate SegmentAt(base: seq<byte>, target: seq<byte>, c: seq<Triple>, diff: seq<byte>, extra: seq<byte>,
                            k: nat)
    requires k < |c|
  {
    var d, e := DiffTotal(c[..k]), ExtraTotal(c[..k]);
    Segment(base, target, diff, extra, c[k], d + e, OldPos(c[..k]), d, e)
  }

  /** The patch describes the first n bytes of the new data, segment after segment. */
  ghost predicate Encodes(base: seq<byte>, target: seq<byte>, c: seq<Triple>, diff: seq<byte>, extra: seq<byte>,
                          n: int) {
    && DiffTotal(c) == |diff| && ExtraTotal(c) == |extra| && n == |diff| + |extra| <= |target|
    && 0 <= OldPos(c) <= |base|
    && forall k :: 0 <= k < |c| ==> SegmentAt(base, target, c, diff, extra, k)
  }

  lemma SegmentExtends(base: seq<byte>, target: seq<byte>, diff: seq<byte>, extra: seq<byte>, diff': seq<byte>,
                       extra': seq<byte>,
                       x: Triple, t: int, o: int, d: int, e: int)
    requires Segment(base, target, diff, extra, x, t, o, d, e) && diff <= diff' && extra <= extra'
    ensures Segment(base, target, diff', extra', x, t, o, d, e)
  {
    assert diff'[d..d + x.diff] == diff[d..d + x.diff];
    assert extra'[e..e + x.extra] == extra[e..e + x.extra];
  }

  lemma NewSegment(base: seq<byte>, target: seq<byte>, diff: seq<byte>, extra: seq<byte>, x: Triple, t: int, o: int)
    requires 0 <= x.diff && 0 <= x.extra && 0 <= t && t + x.diff + x.extra <= |target| && 0 <= o && o + x.diff <= |base|
    ensures Segment(base, target, diff + DiffBytes(base, target, o, t, x.diff),
             extra + target[t + x.diff..t + x.diff + x.extra],
                    x, t, o, |diff|, |extra|)
  {
    var dd, ee := DiffBytes(base, target, o, t, x.diff), target[t + x.diff..t + x.diff + x.extra];
    assert (diff + dd)[|diff|..|diff| + x.diff] == dd;
    assert (extra + ee)[|extra|..|extra| + x.extra] == ee;
  }

  /** Adding a segment where the others end. */
  lemma EncodesAppend(base: seq<byte>, target: seq<byte>, c: seq<Triple>, diff: seq<byte>, extra: seq<byte>, n: int,
                      x: Triple)
    requires Encodes(base, target, c, diff, extra, n)
    requires 0 <= x.diff && 0 <= x.extra && n + x.diff + x.extra <= |target|
    requires OldPos(c) + x.diff <= |base| && 0 <= OldPos(c) + x.diff + x.seek <= |base|
    ensures Encodes(base, target, c + [x], diff + DiffBytes(base, target, OldPos(c), n, x.diff),
                    extra + target[n + x.diff..n + x.diff + x.extra], n + x.diff + x.extra)
    ensures OldPos(c + [x]) == OldPos(c) + x.diff + x.seek
  {
    hide Segment, DiffBytes, SegmentAt, DiffTotal, ExtraTotal, OldPos;
    TotalsAppend(c, x);
    var c' := c + [x];
    var diff' := diff + DiffBytes(base, target, OldPos(c), n, x.diff);
    var extra' := extra + target[n + x.diff..n + x.diff + x.extra];
    forall k | 0 <= k < |c'| ensures SegmentAt(base, target, c', diff', extra', k) {
      if k < |c| {
        SegmentKept(base, target, c, x, diff, extra, diff', extra', k);
      } else {
        SegmentNew(base, target, c, x, diff, extra, n);
      }
    }
  }

  lemma TotalsAppend(c: seq<Triple>, x: Triple)
    ensures DiffTotal(c + [x]) == DiffTotal(c) + x.diff && ExtraTotal(c + [x]) == ExtraTotal(c) + x.extra
    ensures OldPos(c + [x]) == OldPos(c) + x.diff + x.seek
  {
    assert (c + [x])[..|c|] == c;
  }

  lemma SegmentKept(base: seq<byte>, target: seq<byte>, c: seq<Triple>, x: Triple, diff: seq<byte>, extra: seq<byte>,
                    diff': seq<byte>, extra': seq<byte>, k: nat)
    requires k < |c| && SegmentAt(base, target, c, diff, extra, k) && diff <= diff' && extra <= extra'
    ensures SegmentAt(base, target, c + [x], diff', extra', k)
  {
    hide Segment, DiffTotal, ExtraTotal, OldPos;
    assert (c + [x])[..k] == c[..k];
    SegmentExtends(base, target, diff, extra, diff', extra', c[k], DiffTotal(c[..k]) + ExtraTotal(c[..k]),
      OldPos(c[..k]), DiffTotal(c[..k]), ExtraTotal(c[..k]));
  }

  lemma SegmentNew(base: seq<byte>, target: seq<byte>, c: seq<Triple>, x: Triple, diff: seq<byte>, extra: seq<byte>,
                   n: int)
    requires DiffTotal(c) == |diff| && ExtraTotal(c) == |extra| && n == |diff| + |extra|
    requires 0 <= x.diff && 0 <= x.extra && n + x.diff + x.extra <= |target|
    requires 0 <= OldPos(c) && OldPos(c) + x.diff <= |base|
    ensures SegmentAt(base, target, c + [x], diff + DiffBytes(base, target, OldPos(c), n, x.diff),
                      extra + target[n + x.diff..n + x.diff + x.extra], |c|)
  {
    hide Segment, DiffTotal, ExtraTotal, OldPos, DiffBytes;
    assert (c + [x])[..|c|] == c;
    NewSegment(base, target, diff, extra, x, n, OldPos(c));
  }

  /** The first k segments leave no choice for the bytes they use. */
  lemma {:induction false} SameBytes(base: seq<byte>, target: seq<byte>, c: seq<Triple>, diff1: seq<byte>,
                                     extra1: seq<byte>, diff2: seq<byte>, extra2: seq<byte>, k: nat)
    requires Encodes(base, target, c, diff1, extra1, |target|) && Encodes(base, target, c, diff2, extra2, |target|)
    requires k <= |c|
    ensures 0 <= DiffTotal(c[..k]) <= |diff1| == |diff2| && 0 <= ExtraTotal(c[..k]) <= |extra1| == |extra2|
    ensures diff1[..DiffTotal(c[..k])] == diff2[..DiffTotal(c[..k])]
    ensures extra1[..ExtraTotal(c[..k])] == extra2[..ExtraTotal(c[..k])]
  {
    if k > 0 {
      SameBytes(base, target, c, diff1, extra1, diff2, extra2, k - 1);
      assert SegmentAt(base, target, c, diff1, extra1, k - 1) && SegmentAt(base, target, c, diff2, extra2, k - 1);
      hide Encodes, DiffBytes, OldPos;
      assert c[..k][..k - 1] == c[..k - 1];
      var x, d, e := c[k - 1], DiffTotal(c[..k - 1]), ExtraTotal(c[..k - 1]);
      assert DiffTotal(c[..k]) == d + x.diff && ExtraTotal(c[..k]) == e + x.extra;
      hide DiffTotal, ExtraTotal, SegmentAt;
      SamePiece(diff1, diff2, d, x.diff);
      SamePiece(extra1, extra2, e, x.extra);
    }
  }

  lemma SamePiece(s: seq<byte>, t: seq<byte>, d: nat, n: nat)
    requires d + n <= |s| == |t| && s[..d] == t[..d] && s[d..d + n] == t[d..d + n]
    ensures s[..d + n] == t[..d + n]
  {
    assert s[..d + n] == s[..d] + s[d..d + n];
    assert t[..d + n] == t[..d] + t[d..d + n];
  }

  /** The triples decide the difference and the extra bytes. */
  lemma EncodesUnique(base: seq<byte>, target: seq<byte>, c: seq<Triple>, diff1: seq<byte>, extra1: seq<byte>,
                      diff2: seq<byte>, extra2: seq<byte>)
    requires Encodes(base, target, c, diff1, extra1, |target|) && Encodes(base, target, c, diff2, extra2, |target|)
    ensures diff1 == diff2 && extra1 == extra2
  {
    SameBytes(base, target, c, diff1, extra1, diff2, extra2, |c|);
    assert c[..|c|] == c && diff1[..|diff1|] == diff1 && diff2[..|diff2|] == diff2;
    assert extra1[..|extra1|] == extra1 && extra2[..|extra2|] == extra2;
  }

  /** The triples as they are written, three values each. */
  function Flatten(c: seq<Triple>): (r: seq<int>)
    ensures |r| == 3 * |c|
  {
    if c == [] then [] else Flatten(c[..|c| - 1]) + [c[|c| - 1].diff, c[|c| - 1].extra, c[|c| - 1].seek]
  }

  lemma {:induction false} FlattenAt(c: seq<Triple>, k: nat)
    requires k < |c|
    ensures Flatten(c)[3 * k] == c[k].diff && Flatten(c)[3 * k + 1] == c[k].extra && Flatten(c)[3 * k + 2] == c[k].seek
    decreases |c|
  {
    if k < |c| - 1 { FlattenAt(c[..|c| - 1], k); }
  }
}
