/** A built patch, applied to old, gives new. */
module DiffRoundTrip {
  import opened Common
  import opened PatchFormat
  import opened PatchStream
  import opened DiffBuild
  import opened DiffApply

  /** The loop state after k triples of an encoding patch. */
  ghost predicate Reached(base: seq<byte>, target: seq<byte>, c: seq<Triple>, r: Replay, k: nat) {
    && k <= |c| && |r.out| == |target|
    && r.newPos == DiffTotal(c[..k]) + ExtraTotal(c[..k]) && 0 <= r.newPos <= |target|
    && r.oldPos == OldPos(c[..k]) && r.ctrlPos == 3 * k
    && r.diffPos == DiffTotal(c[..k]) && r.extraPos == ExtraTotal(c[..k])
    && r.out[..r.newPos] == target[..r.newPos]
  }

  lemma AddBack(x: byte, y: byte)
    ensures (((x as int) - y) % 256 + y) % 256 == x
  {
  }

  /** Old bytes added to the difference bytes are the new bytes. */
  lemma AddedIsTarget(base: seq<byte>, target: seq<byte>, diff: seq<byte>, d: nat, o: int, t: int, n: nat)
    requires |base| < 0x8000_0000
    requires 0 <= o && o + n <= |base| && 0 <= t && t + n <= |target| && d + n <= |diff|
    requires diff[d..d + n] == DiffBytes(base, target, o, t, n)
    ensures Added(base, diff, d, o, n) == target[t..t + n]
  {
    forall i | 0 <= i < n ensures Added(base, diff, d, o, n)[i] == target[t..t + n][i] {
      assert diff[d + i] == diff[d..d + n][i];
      assert diff[d + i] as int == ((target[t + i] as int) - base[o + i]) % 256;
      AddedAt(base, diff, d, o, n, i);
      Int32Again(o + i);
      Int32Again(|base|);
      AddBack(target[t + i], base[o + i]);
    }
  }

  lemma OverwritePrefix(out: seq<byte>, target: seq<byte>, n: nat, s: seq<byte>)
    requires |out| == |target| && n + |s| <= |target|
    requires out[..n] == target[..n] && s == target[n..n + |s|]
    ensures |Overwrite(out, n, s)| == |target| && Overwrite(out, n, s)[..n + |s|] == target[..n + |s|]
  {
    assert Overwrite(out, n, s)[..n + |s|] == out[..n] + s;
  }

  lemma OverwriteSegment(out: seq<byte>, target: seq<byte>, t: nat, m: nat, n: nat)
    requires |out| == |target| && t + m + n <= |target| && out[..t] == target[..t]
    ensures var out1 := Overwrite(out, t, target[t..t + m]);
            var out2 := Overwrite(out1, t + m, target[t + m..t + m + n]);
            |out2| == |target| && out2[..t + m + n] == target[..t + m + n]
  {
    hide Overwrite;
    OverwritePrefix(out, target, t, target[t..t + m]);
    OverwritePrefix(Overwrite(out, t, target[t..t + m]), target, t + m, target[t + m..t + m + n]);
  }

  lemma TakeStep(c: seq<Triple>, k: nat)
    requires k < |c|
    ensures DiffTotal(c[..k + 1]) == DiffTotal(c[..k]) + c[k].diff
    ensures ExtraTotal(c[..k + 1]) == ExtraTotal(c[..k]) + c[k].extra
    ensures OldPos(c[..k + 1]) == OldPos(c[..k]) + c[k].diff + c[k].seek
  {
    assert c[..k + 1][..k] == c[..k];
  }

  /** What the round for a segment finds: everything fits, and its bytes are new's. */
  lemma SegmentFits(base: seq<byte>, target: seq<byte>, c: seq<Triple>, diff: seq<byte>, extra: seq<byte>, r: Replay,
                    k: nat)
    requires |base| < 0x8000_0000 && Encodes(base, target, c, diff, extra, |target|)
    requires k < |c| && Reached(base, target, c, r, k)
    ensures var x := c[k];
            && 0 <= x.diff && 0 <= x.extra && 0 <= r.newPos && r.newPos + x.diff + x.extra <= |target|
            && 0 <= r.diffPos && r.diffPos + x.diff <= |diff| && 0 <= r.extraPos && r.extraPos + x.extra <= |extra|
            && IsInt32(r.oldPos + x.diff) && IsInt32(r.oldPos + x.diff + x.seek)
            && Added(base, diff, r.diffPos, r.oldPos, x.diff) == target[r.newPos..r.newPos + x.diff]
            && extra[r.extraPos..r.extraPos + x.extra]
               == target[r.newPos + x.diff..r.newPos + x.diff + x.extra]
  {
    OldPosInside(base, target, c, diff, extra, k);
    assert SegmentAt(base, target, c, diff, extra, k);
    hide Added, DiffBytes, DiffTotal, ExtraTotal, OldPos, Encodes;
    AddedIsTarget(base, target, diff, r.diffPos, r.oldPos, r.newPos, c[k].diff);
  }

  lemma ReachedNext(base: seq<byte>, target: seq<byte>, c: seq<Triple>, r: Replay, a: seq<byte>, b: seq<byte>, k: nat)
    requires k < |c| && Reached(base, target, c, r, k) && 0 <= c[k].diff && 0 <= c[k].extra
    requires r.newPos + c[k].diff + c[k].extra <= |target|
    requires a == target[r.newPos..r.newPos + c[k].diff]
    requires b == target[r.newPos + c[k].diff..r.newPos + c[k].diff + c[k].extra]
    ensures var x := c[k];
            Reached(base, target, c,
                    Replay(Overwrite(Overwrite(r.out, r.newPos, a), r.newPos + x.diff, b), r.newPos + x.diff + x.extra,
                           r.oldPos + x.diff + x.seek, r.ctrlPos + 3, r.diffPos + x.diff, r.extraPos + x.extra), k + 1)
  {
    hide DiffTotal, ExtraTotal, OldPos, Overwrite;
    TakeStep(c, k);
    OverwriteSegment(r.out, target, r.newPos, c[k].diff, c[k].extra);
  }

  /** The round reads the values of the segment's triple. */
  lemma ControlAt(base: seq<byte>, target: seq<byte>, c: seq<Triple>, diff: seq<byte>, extra: seq<byte>, r: Replay,
                  k: nat)
    requires k < |c| && Reached(base, target, c, r, k)
    ensures var p := PatchOf(target, c, diff, extra);
            && p.diff == diff && p.extra == extra && p.newSize == |target|
            && 0 <= r.ctrlPos && r.ctrlPos + 3 <= |p.control| && p.control[r.ctrlPos] == c[k].diff
            && p.control[r.ctrlPos + 1] == c[k].extra && p.control[r.ctrlPos + 2] == c[k].seek
  {
    hide Flatten;
    FlattenAt(c, k);
  }

  /** One round replays one segment. */
  lemma StepReplays(base: seq<byte>, target: seq<byte>, c: seq<Triple>, diff: seq<byte>, extra: seq<byte>, r: Replay,
                    k: nat)
    requires |base| < 0x8000_0000 && Sized(PatchOf(target, c, diff, extra))
    requires Encodes(base, target, c, diff, extra, |target|) && k < |c| && Reached(base, target, c, r, k)
    requires InRange(PatchOf(target, c, diff, extra), r)
    ensures var p := PatchOf(target, c, diff, extra);
            && r.ctrlPos + 3 <= |p.control|
            && Step(p, base, r).Done? && Reached(base, target, c, Step(p, base, r).value, k + 1)
  {
    hide *;
    var p, x := PatchOf(target, c, diff, extra), c[k];
    SegmentFits(base, target, c, diff, extra, r, k);
    ControlAt(base, target, c, diff, extra, r, k);
    StepFits(p, base, r, x.diff, x.extra, x.seek);
    ReachedNext(base, target, c, r, Added(base, p.diff, r.diffPos, r.oldPos, x.diff),
                p.extra[r.extraPos..r.extraPos + x.extra], k);
  }

  /** Every move leads to a place in old, or right behind it. */
  lemma OldPosInside(base: seq<byte>, target: seq<byte>, c: seq<Triple>, diff: seq<byte>, extra: seq<byte>, k: nat)
    requires Encodes(base, target, c, diff, extra, |target|) && k < |c|
    ensures 0 <= OldPos(c[..k]) <= OldPos(c[..k]) + c[k].diff <= |base|
    ensures 0 <= OldPos(c[..k]) + c[k].diff + c[k].seek <= |base|
  {
    assert SegmentAt(base, target, c, diff, extra, k);
    TakeStep(c, k);
    if k + 1 < |c| {
      assert SegmentAt(base, target, c, diff, extra, k + 1);
    } else {
      assert c[..k + 1] == c;
    }
  }

  lemma NotAllReached(base: seq<byte>, target: seq<byte>, c: seq<Triple>, diff: seq<byte>, extra: seq<byte>,
                      r: Replay, k: nat)
    requires Encodes(base, target, c, diff, extra, |target|) && Reached(base, target, c, r, k) && r.newPos < |target|
    ensures k < |c|
  {
    assert c[..|c|] == c;
  }

  lemma {:induction false} ReplayFrom(base: seq<byte>, target: seq<byte>, c: seq<Triple>, diff: seq<byte>,
                                      extra: seq<byte>, r: Replay, k: nat)
    requires Encodes(base, target, c, diff, extra, |target|)
    requires |base| < 0x8000_0000 && Sized(PatchOf(target, c, diff, extra))
    requires InRange(PatchOf(target, c, diff, extra), r) && Reached(base, target, c, r, k)
    ensures Replayed(PatchOf(target, c, diff, extra), base, r) == Done(target)
    decreases |c| - k
  {
    hide Flatten, Step, Added, DiffTotal, ExtraTotal, OldPos, Encodes, Sized;
    if r.newPos < |target| {
      NotAllReached(base, target, c, diff, extra, r, k);
      StepReplays(base, target, c, diff, extra, r, k);
      ReplayFrom(base, target, c, diff, extra, Step(PatchOf(target, c, diff, extra), base, r).value, k + 1);
    } else {
      assert r.out[..r.newPos] == r.out && target[..r.newPos] == target;
    }
  }

  /** The control values of an encoding patch are int32_t values. */
  lemma EncodingStorable(base: seq<byte>, target: seq<byte>, c: seq<Triple>, diff: seq<byte>, extra: seq<byte>)
    requires Encodes(base, target, c, diff, extra, |target|)
    requires |base| < 0x8000_0000 && |target| < 0x8000_0000 && 12 * |c| < 0x8000_0000
    ensures Storable(PatchOf(target, c, diff, extra))
  {
    forall m | 0 <= m < 3 * |c| ensures IsInt32(Flatten(c)[m]) {
      var k := m / 3;
      assert SegmentAt(base, target, c, diff, extra, k);
      FlattenAt(c, k);
      OldPosInside(base, target, c, diff, extra, k);
      assert m == 3 * k || m == 3 * k + 1 || m == 3 * k + 2;
    }
  }

  /** A patch that encodes the new data reproduces it. */
  lemma EncodingReplays(base: seq<byte>, target: seq<byte>, c: seq<Triple>, diff: seq<byte>, extra: seq<byte>)
    requires Encodes(base, target, c, diff, extra, |target|)
    requires |base| < 0x8000_0000 && |target| < 0x8000_0000
    ensures var p := PatchOf(target, c, diff, extra); Replayed(p, base, Start(p)) == Done(target)
  {
    ReplayFrom(base, target, c, diff, extra, Start(PatchOf(target, c, diff, extra)), 0);
  }

  /** The law of the pair: for files within int32_t, a built patch turns old into
      new exactly when the size of its control block still fits the header, and
      is refused otherwise. */
  lemma BuiltPatchAppliesIff(base: seq<byte>, target: seq<byte>, c: seq<Triple>, diff: seq<byte>, extra: seq<byte>)
    requires Encodes(base, target, c, diff, extra, |target|) && 9 * |c| <= |target| + 9
    requires |base| < 0x8000_0000 && |target| < 0x8000_0000
    ensures Applied(Layout(PatchOf(target, c, diff, extra)), base)
            == if 12 * |c| < 0x8000_0000 then Done(target) else Refused
  {
    var p := PatchOf(target, c, diff, extra);
    if 12 * |c| < 0x8000_0000 {
      EncodingStorable(base, target, c, diff, extra);
      AppliedLayout(p, base);
      EncodingReplays(base, target, c, diff, extra);
    } else {
      ControlTooLong(p);
    }
  }

  /** A control block of 2 GB or more reads back as a negative size. */
  lemma ControlTooLong(p: Patch)
    requires 0x8000_0000 <= 4 * |p.control| < TWO_32
    ensures Parse(Layout(p)) == None
  {
    hide EncodeAll, Encode, Decode, Body;
    assert Layout(p)[0..4] == Encode(4 * |p.control|);
    DecodeEncode(4 * |p.control|);
  }

  /** Up to 1 610 612 729 new bytes the control block always fits. */
  lemma ControlFits(target: seq<byte>, c: seq<Triple>)
    requires 9 * |c| <= |target| + 9 && |target| <= 1610612729
    ensures 12 * |c| < 0x8000_0000
  {
  }

  /** Header, three values a triple, and one byte for every byte of new. */
  lemma BuiltLength(base: seq<byte>, target: seq<byte>, c: seq<Triple>, diff: seq<byte>, extra: seq<byte>)
    requires Encodes(base, target, c, diff, extra, |target|)
    ensures |Layout(PatchOf(target, c, diff, extra))| == 16 + 12 * |c| + |target|
  {
    hide Encode;
  }

  lemma BuiltMeans(base: seq<byte>, target: seq<byte>, c: seq<Triple>, diff: seq<byte>, extra: seq<byte>, a: seq<int>,
                   rs: seq<Round>)
    requires Built(base, target, c, diff, extra, a, rs)
    ensures Encodes(base, target, c, diff, extra, |target|)
  {
  }

  /** End to end, through the streams: what is built is the layout of a patch
      that encodes new, and what is returned is what applying those bytes to old
      gives, which is new exactly when the control block is less than 2 GB. */
  method BuildThenApply(base: seq<byte>, target: seq<byte>)
    returns (patch: seq<byte>, ok: bool, result: seq<byte>, ghost c: seq<Triple>, ghost diff: seq<byte>,
             ghost extra: seq<byte>, ghost a: seq<int>, ghost rs: seq<Round>)
    requires |base| < 0x8000_0000 && |target| < 0x8000_0000
    ensures patch == Layout(PatchOf(target, c, diff, extra)) && |patch| == 16 + 12 * |c| + |target|
    ensures Built(base, target, c, diff, extra, a, rs)
    ensures Applied(patch, base) == if ok then Done(result) else Refused
    ensures ok <==> 12 * |c| < 0x8000_0000
    ensures ok ==> result == target
    ensures |target| <= 1610612729 ==> ok
  {
    hide *;
    var patchFile := new OutputStream();
    c, diff, extra, a, rs := Build(base, target, patchFile);
    patch := patchFile.data;
    BuiltMeans(base, target, c, diff, extra, a, rs);
    BuiltLength(base, target, c, diff, extra);
    if |target| <= 1610612729 { ControlFits(target, c); }
    BuiltPatchAppliesIff(base, target, c, diff, extra);
    var patchStream := new InputStream(patch);
    var input := new InputStream(base);
    var output := new OutputStream();
    ok := Apply(patchStream, input, output);
    result := output.data;
  }
}
