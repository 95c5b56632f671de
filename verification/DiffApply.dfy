/** `bspatchmain`: replay a patch on the old data. */
module DiffApply {
  import opened Common
  import opened PatchStream

  /** The variables of the replay loop. */
  datatype Replay = Replay(out: seq<byte>, newPos: int, oldPos: int, ctrlPos: int, diffPos: int, extraPos: int)

  /** How a replay ends.  `Undefined`: a copy of a negative length, or one that
      leaves its arrays because the test before it has overflowed. */
  datatype Outcome<+T> = Done(value: T) | Refused | Undefined

  lemma Int32Below(n: nat)
    ensures Int32(n) <= n
  {
  }

  /** One byte of the diff step: old is added only where old has a byte.  The
      position in old and the size of old are both int32_t. */
  function AddOld(base: seq<byte>, d: byte, at: int): byte {
    Int32Below(|base|);
    if 0 <= Int32(at) < Int32(|base|) then ((d as int) + base[Int32(at)]) % 256 else d
  }

  function Added(base: seq<byte>, diff: seq<byte>, dpos: nat, opos: int, n: nat): (r: seq<byte>)
    requires dpos + n <= |diff|
    ensures |r| == n
  {
    seq<byte>(n, i requires 0 <= i < n => AddOld(base, diff[dpos + i], opos + i))
  }

  ghost predicate InRange(p: Patch, r: Replay) {
    && 0 <= p.newSize == |r.out| && 0 <= r.newPos <= p.newSize && 0 <= r.ctrlPos <= |p.control| && r.ctrlPos % 3 == 0
    && 0 <= r.diffPos <= |p.diff| && 0 <= r.extraPos <= |p.extra|
  }

  /** The test before a copy, in int32_t. */
  predicate Passes(pos: int, len: int, size: int) {
    Int32(pos + len) <= size
  }

  /** What the copy needs. */
  predicate Within(pos: int, len: int, size: int) {
    0 <= len && pos + len <= size
  }

  /** The test is right for lengths that are not negative, up to the overflow. */
  lemma PassesIff(pos: int, len: int, size: int)
    requires 0 <= pos <= size < 0x8000_0000 && IsInt32(len)
    ensures Passes(pos, len, size) <==> pos + len <= size || 0x8000_0000 <= pos + len
    ensures Within(pos, len, size) ==> Int32(pos + len) == pos + len
  {
  }

  predicate DiffPasses(p: Patch, r: Replay)
    requires 0 <= r.ctrlPos < |p.control|
  {
    Passes(r.newPos, p.control[r.ctrlPos], p.newSize) && Passes(r.diffPos, p.control[r.ctrlPos], |p.diff|)
  }

  predicate DiffWithin(p: Patch, r: Replay)
    requires 0 <= r.ctrlPos < |p.control|
  {
    Within(r.newPos, p.control[r.ctrlPos], p.newSize) && Within(r.diffPos, p.control[r.ctrlPos], |p.diff|)
  }

  predicate ExtraPasses(p: Patch, r: Replay, extra: int) {
    Passes(r.newPos, extra, p.newSize) && Passes(r.extraPos, extra, |p.extra|)
  }

  predicate ExtraWithin(p: Patch, r: Replay, extra: int) {
    Within(r.newPos, extra, p.newSize) && Within(r.extraPos, extra, |p.extra|)
  }

  /** The difference part of a round. */
  function DiffStep(p: Patch, base: seq<byte>, r: Replay): (r': Replay)
    requires InRange(p, r) && r.ctrlPos + 3 <= |p.control| && DiffWithin(p, r)
    ensures InRange(p, r') && r'.ctrlPos == r.ctrlPos + 3
  {
    var diff := p.control[r.ctrlPos];
    Replay(Overwrite(r.out, r.newPos, Added(base, p.diff, r.diffPos, r.oldPos, diff)),
           r.newPos + diff, Int32(r.oldPos + diff), r.ctrlPos + 3, r.diffPos + diff, r.extraPos)
  }

  /** The extra part. */
  function ExtraStep(p: Patch, r: Replay, extra: int, seek: int): (r': Replay)
    requires InRange(p, r) && ExtraWithin(p, r, extra)
    ensures InRange(p, r') && r'.ctrlPos == r.ctrlPos
  {
    Replay(Overwrite(r.out, r.newPos, p.extra[r.extraPos..r.extraPos + extra]),
           r.newPos + extra, Int32(r.oldPos + seek), r.ctrlPos, r.diffPos, r.extraPos + extra)
  }

  /** One round of the loop.  A difference that does not fit is refused; extra
      bytes that do not fit are passed over, and so is the move in old. */
  function Step(p: Patch, base: seq<byte>, r: Replay): (o: Outcome<Replay>)
    requires InRange(p, r) && r.ctrlPos + 3 <= |p.control|
    ensures o.Done? ==> InRange(p, o.value) && o.value.ctrlPos == r.ctrlPos + 3
  {
    var extra, seek := p.control[r.ctrlPos + 1], p.control[r.ctrlPos + 2];
    if !DiffPasses(p, r) then Refused
    else if !DiffWithin(p, r) then Undefined
    else
      var r1 := DiffStep(p, base, r);
      if !ExtraPasses(p, r1, extra) then Done(r1)
      else if !ExtraWithin(p, r1, extra) then Undefined
      else Done(ExtraStep(p, r1, extra, seek))
  }

  /** The loop: until the new data is full, or fail for want of control values. */
  function Replayed(p: Patch, base: seq<byte>, r: Replay): Outcome<seq<byte>>
    requires InRange(p, r)
    decreases |p.control| - r.ctrlPos
  {
    if r.newPos >= p.newSize then Done(r.out)
    else if r.ctrlPos + 3 > |p.control| then Refused
    else
      match Step(p, base, r)
      case Refused => Refused
      case Undefined => Undefined
      case Done(r') => Replayed(p, base, r')
  }

  function Zeros(n: nat): (s: seq<byte>)
    ensures |s| == n
  {
    seq<byte>(n, _ => 0)
  }

  function Start(p: Patch): Replay
    requires 0 <= p.newSize
  {
    Replay(Zeros(p.newSize), 0, 0, 0, 0, 0)
  }

  /** Applying patch bytes to old bytes. */
  function Applied(patch: seq<byte>, base: seq<byte>): Outcome<seq<byte>> {
    match Parse(patch)
    case None => Refused
    case Some(p) => if p.newSize < 0 then Refused else Replayed(p, base, Start(p))
  }

  // ---- when a patch is refused ------------------------------------------------

  /** The state after a number of whole rounds. */
  function After(p: Patch, base: seq<byte>, r: Replay, rounds: nat): (s: Option<Replay>)
    requires InRange(p, r)
    ensures s.Some? ==> InRange(p, s.value)
    decreases rounds
  {
    if rounds == 0 then Some(r)
    else if r.newPos >= p.newSize || r.ctrlPos + 3 > |p.control| || !Step(p, base, r).Done? then None
    else After(p, base, Step(p, base, r).value, rounds - 1)
  }

  /** The round at hand refuses: control values have run out, or its difference
      does not fit. */
  ghost predicate Refuses(p: Patch, r: Replay)
    requires InRange(p, r)
  {
    r.newPos < p.newSize && (r.ctrlPos + 3 > |p.control| || !DiffPasses(p, r))
  }

  /** The round at hand makes a copy that is not defined. */
  ghost predicate Strays(p: Patch, base: seq<byte>, r: Replay)
    requires InRange(p, r)
  {
    && r.newPos < p.newSize && r.ctrlPos + 3 <= |p.control| && DiffPasses(p, r)
    && (!DiffWithin(p, r) ||
        var r1, extra := DiffStep(p, base, r), p.control[r.ctrlPos + 1];
        ExtraPasses(p, r1, extra) && !ExtraWithin(p, r1, extra))
  }

  /** How the state after some rounds decides the outcome. */
  ghost predicate EndsIn(p: Patch, base: seq<byte>, s: Replay, o: Outcome<seq<byte>>)
    requires InRange(p, s)
  {
    match o
    case Done(out) => s.newPos >= p.newSize && s.out == out
    case Refused => Refuses(p, s)
    case Undefined => Strays(p, base, s)
  }

  ghost predicate EndsAfter(p: Patch, base: seq<byte>, r: Replay, rounds: nat, o: Outcome<seq<byte>>)
    requires InRange(p, r)
  {
    After(p, base, r, rounds).Some? && EndsIn(p, base, After(p, base, r, rounds).value, o)
  }

  lemma EndsHere(p: Patch, base: seq<byte>, r: Replay, o: Outcome<seq<byte>>)
    requires InRange(p, r)
    ensures EndsIn(p, base, r, o) ==> Replayed(p, base, r) == o
    ensures Replayed(p, base, r) == o ==>
              EndsIn(p, base, r, o)
              || (r.newPos < p.newSize && r.ctrlPos + 3 <= |p.control| && Step(p, base, r).Done?)
  {
    hide Passes, Within, DiffStep, ExtraStep;
  }

  lemma {:induction false} EndFound(p: Patch, base: seq<byte>, r: Replay) returns (rounds: nat)
    requires InRange(p, r)
    ensures EndsAfter(p, base, r, rounds, Replayed(p, base, r))
    decreases |p.control| - r.ctrlPos
  {
    hide Step, EndsIn;
    var o := Replayed(p, base, r);
    EndsHere(p, base, r, o);
    rounds := 0;
    if !EndsIn(p, base, r, o) {
      var more := EndFound(p, base, Step(p, base, r).value);
      rounds := more + 1;
    }
  }

  lemma {:induction false} EndDecides(p: Patch, base: seq<byte>, r: Replay, rounds: nat, o: Outcome<seq<byte>>)
    requires InRange(p, r) && EndsAfter(p, base, r, rounds, o)
    ensures Replayed(p, base, r) == o
    decreases rounds
  {
    hide Step, EndsIn;
    if rounds == 0 {
      EndsHere(p, base, r, o);
    } else {
      EndDecides(p, base, Step(p, base, r).value, rounds - 1, o);
    }
  }

  /** A replay has an outcome exactly when some number of rounds leads there. */
  lemma ReplayedIff(p: Patch, base: seq<byte>, r: Replay, o: Outcome<seq<byte>>)
    requires InRange(p, r)
    ensures Replayed(p, base, r) == o <==> exists rounds: nat :: EndsAfter(p, base, r, rounds, o)
  {
    var rounds := EndFound(p, base, r);
    hide EndsAfter, Replayed;
    if Replayed(p, base, r) == o {
      assert EndsAfter(p, base, r, rounds, o);
    }
    forall k: nat | EndsAfter(p, base, r, k, o) ensures Replayed(p, base, r) == o {
      EndDecides(p, base, r, k, o);
    }
  }

  ghost predicate RefusesAfter(p: Patch, base: seq<byte>, rounds: nat) {
    && 0 <= p.newSize
    && After(p, base, Start(p), rounds).Some?
    && Refuses(p, After(p, base, Start(p), rounds).value)
  }

  lemma ParsedSize(s: seq<byte>)
    requires Parse(s).Some?
    ensures 0 <= Parse(s).value.newSize
  {
  }

  /** A patch is refused exactly when it cannot be read, or some number of rounds
      leads to one for which control values have run out or whose difference
      does not fit: never because of an extra length. */
  lemma RefusedIff(patch: seq<byte>, base: seq<byte>)
    ensures Applied(patch, base) == Refused <==>
              || Parse(patch).None?
              || exists rounds: nat :: RefusesAfter(Parse(patch).value, base, rounds)
  {
    hide Replayed, Parse, After, Refuses;
    if Parse(patch).Some? {
      var p := Parse(patch).value;
      ParsedSize(patch);
      ReplayedIff(p, base, Start(p), Refused);
      forall k: nat ensures EndsAfter(p, base, Start(p), k, Refused) <==> RefusesAfter(p, base, k) {
      }
    }
  }

  /** A length that is too long without overflowing. */
  predicate Tested(pos: int, len: int, size: int) {
    size < pos + len < 0x8000_0000
  }

  /** The sizes are int32_t values. */
  predicate Sized(p: Patch) {
    0 <= p.newSize < 0x8000_0000 && |p.diff| < 0x8000_0000 && |p.extra| < 0x8000_0000
  }

  lemma OverwriteNothing(d: seq<byte>, pos: nat)
    requires pos <= |d|
    ensures Overwrite(d, pos, []) == d
  {
  }

  lemma OverlongExtra(p: Patch, base: seq<byte>, r: Replay)
    requires InRange(p, r) && Sized(p) && r.ctrlPos + 3 <= |p.control| && DiffPasses(p, r) && DiffWithin(p, r)
    requires var r1, extra := DiffStep(p, base, r), p.control[r.ctrlPos + 1];
             0 <= extra < 0x8000_0000 && !ExtraWithin(p, r1, extra)
    ensures var r1, extra := DiffStep(p, base, r), p.control[r.ctrlPos + 1];
            Step(p, base, r) == if Tested(r1.newPos, extra, p.newSize) || Tested(r1.extraPos, extra, |p.extra|)
                                then Done(r1) else Undefined
  {
    hide DiffPasses, DiffWithin, DiffStep, Passes;
    var r1, extra := DiffStep(p, base, r), p.control[r.ctrlPos + 1];
    PassesIff(r1.newPos, extra, p.newSize);
    PassesIff(r1.extraPos, extra, |p.extra|);
  }

  lemma NoExtra(p: Patch, base: seq<byte>, r: Replay)
    requires InRange(p, r) && Sized(p) && r.ctrlPos + 3 <= |p.control| && DiffPasses(p, r) && DiffWithin(p, r)
    requires p.control[r.ctrlPos + 1] == 0 && p.control[r.ctrlPos + 2] == 0
    ensures Step(p, base, r) == Done(DiffStep(p, base, r))
  {
    hide DiffPasses, DiffWithin, Passes, Overwrite, Added, Int32;
    var r1 := DiffStep(p, base, r);
    PassesIff(r1.newPos, 0, p.newSize);
    PassesIff(r1.extraPos, 0, |p.extra|);
    OverwriteNothing(r1.out, r1.newPos);
    Int32Again(r.oldPos + p.control[r.ctrlPos]);
    assert r1.oldPos + 0 == r1.oldPos;
  }

  /** A triple whose extra bytes do not fit counts as one that asks for none and
      does not move in old, as long as a test that fails does not overflow; else
      the copy is not defined. */
  lemma OverlongExtraIff(p: Patch, base: seq<byte>, r: Replay)
    requires InRange(p, r) && Sized(p) && r.ctrlPos + 3 <= |p.control| && DiffPasses(p, r) && DiffWithin(p, r)
    requires var r1, extra := DiffStep(p, base, r), p.control[r.ctrlPos + 1];
             0 <= extra < 0x8000_0000 && !ExtraWithin(p, r1, extra)
    ensures var r1, extra := DiffStep(p, base, r), p.control[r.ctrlPos + 1];
            var modest := p.(control := p.control[r.ctrlPos + 1 := 0][r.ctrlPos + 2 := 0]);
            Step(p, base, r) == if Tested(r1.newPos, extra, p.newSize) || Tested(r1.extraPos, extra, |p.extra|)
                                then Step(modest, base, r) else Undefined
  {
    hide Step, Overwrite, Added, Int32, Passes;
    var modest := p.(control := p.control[r.ctrlPos + 1 := 0][r.ctrlPos + 2 := 0]);
    OverlongExtra(p, base, r);
    NoExtra(modest, base, r);
    assert DiffStep(modest, base, r) == DiffStep(p, base, r);
  }

  /** A round in which everything fits. */
  lemma StepFits(p: Patch, base: seq<byte>, r: Replay, diff: int, extra: int, seek: int)
    requires InRange(p, r) && Sized(p) && r.ctrlPos + 3 <= |p.control| && 0 <= diff && 0 <= extra
    requires p.control[r.ctrlPos] == diff && p.control[r.ctrlPos + 1] == extra && p.control[r.ctrlPos + 2] == seek
    requires r.newPos + diff + extra <= p.newSize && r.diffPos + diff <= |p.diff| && r.extraPos + extra <= |p.extra|
    requires IsInt32(r.oldPos + diff) && IsInt32(r.oldPos + diff + seek)
    ensures Step(p, base, r) == Done(Replay(
              Overwrite(Overwrite(r.out, r.newPos, Added(base, p.diff, r.diffPos, r.oldPos, diff)),
                        r.newPos + diff, p.extra[r.extraPos..r.extraPos + extra]),
              r.newPos + diff + extra, r.oldPos + diff + seek, r.ctrlPos + 3, r.diffPos + diff, r.extraPos + extra))
  {
    hide Overwrite, Added, Int32, Passes;
    PassesIff(r.newPos, diff, p.newSize);
    PassesIff(r.diffPos, diff, |p.diff|);
    PassesIff(r.newPos + diff, extra, p.newSize);
    PassesIff(r.extraPos, extra, |p.extra|);
    Int32Again(r.oldPos + diff);
    Int32Again(r.oldPos + diff + seek);
  }

  /** Byte j of new after a round at r: old added to a difference byte where old
      has one, an extra byte, or what was there. */
  function RoundByte(p: Patch, base: seq<byte>, r: Replay, diff: int, extra: int, j: int): int
    requires InRange(p, r) && 0 <= diff && 0 <= extra && r.newPos + diff + extra <= p.newSize && 0 <= j < p.newSize
    requires r.diffPos + diff <= |p.diff| && r.extraPos + extra <= |p.extra|
  {
    var k := j - r.newPos;
    if 0 <= k < diff then
      (p.diff[r.diffPos + k] as int + if 0 <= r.oldPos + k < |base| then base[r.oldPos + k] else 0) % 256
    else if diff <= k < diff + extra then p.extra[r.extraPos + k - diff]
    else r.out[j]
  }

  /** A round in plain numbers, for lengths that are not negative and positions
      that do not overflow: when it is refused, and what it leaves if not.  Extra
      bytes that do not fit count as none, and as no move in old. */
  lemma StepMeans(p: Patch, base: seq<byte>, r: Replay)
    requires InRange(p, r) && Sized(p) && r.ctrlPos + 3 <= |p.control| && |base| < 0x8000_0000
    requires ModerateAt(p, r.ctrlPos) && ModerateAt(p, r.ctrlPos + 1)
    requires IsInt32(r.oldPos) && IsInt32(r.oldPos + p.control[r.ctrlPos])
    requires IsInt32(r.oldPos + p.control[r.ctrlPos] + p.control[r.ctrlPos + 2])
    ensures var diff, extra, seek := p.control[r.ctrlPos], p.control[r.ctrlPos + 1], p.control[r.ctrlPos + 2];
            if r.newPos + diff > p.newSize || r.diffPos + diff > |p.diff| then Step(p, base, r) == Refused
            else
              var fits := r.newPos + diff + extra <= p.newSize && r.extraPos + extra <= |p.extra|;
              var n, move := if fits then extra else 0, if fits then seek else 0;
              && Step(p, base, r).Done?
              && var r' := Step(p, base, r).value;
                 && r'.newPos == r.newPos + diff + n && r'.oldPos == r.oldPos + diff + move
                 && r'.ctrlPos == r.ctrlPos + 3 && r'.diffPos == r.diffPos + diff && r'.extraPos == r.extraPos + n
                 && |r'.out| == p.newSize
                 && forall j :: 0 <= j < p.newSize ==> r'.out[j] as int == RoundByte(p, base, r, diff, n, j)
  {
    hide Overwrite, Added, Passes, Int32, RoundByte, DiffStep;
    var c := r.ctrlPos;
    var diff, extra, seek := p.control[c], p.control[c + 1], p.control[c + 2];
    PassesIff(r.newPos, diff, p.newSize);
    PassesIff(r.diffPos, diff, |p.diff|);
    if r.newPos + diff <= p.newSize && r.diffPos + diff <= |p.diff| {
      if r.newPos + diff + extra <= p.newSize && r.extraPos + extra <= |p.extra| {
        StepFits(p, base, r, diff, extra, seek);
        RoundBytes(p, base, r, diff, extra);
      } else {
        DiffStepMoves(p, base, r);
        OverlongExtra(p, base, r);
        DiffStepIs(p, base, r);
        RoundBytes(p, base, r, diff, 0);
      }
    }
  }

  lemma DiffStepIs(p: Patch, base: seq<byte>, r: Replay)
    requires InRange(p, r) && r.ctrlPos + 3 <= |p.control| && DiffWithin(p, r)
    requires IsInt32(r.oldPos + p.control[r.ctrlPos])
    ensures var r1, diff := DiffStep(p, base, r), p.control[r.ctrlPos];
            && r1.oldPos == r.oldPos + diff && r1.ctrlPos == r.ctrlPos + 3
            && r1.out == Overwrite(Overwrite(r.out, r.newPos, Added(base, p.diff, r.diffPos, r.oldPos, diff)),
                                   r.newPos + diff, p.extra[r.extraPos..r.extraPos + 0])
  {
    hide Added, Int32;
    Int32Again(r.oldPos + p.control[r.ctrlPos]);
    OverwriteNothing(DiffStep(p, base, r).out, r.newPos + p.control[r.ctrlPos]);
  }

  lemma RoundBytes(p: Patch, base: seq<byte>, r: Replay, diff: int, extra: int)
    requires InRange(p, r) && |base| < 0x8000_0000 && 0 <= diff && 0 <= extra
    requires r.newPos + diff + extra <= p.newSize && r.diffPos + diff <= |p.diff| && r.extraPos + extra <= |p.extra|
    requires IsInt32(r.oldPos) && IsInt32(r.oldPos + diff)
    ensures var out := Overwrite(Overwrite(r.out, r.newPos, Added(base, p.diff, r.diffPos, r.oldPos, diff)),
                                 r.newPos + diff, p.extra[r.extraPos..r.extraPos + extra]);
            && |out| == p.newSize
            && forall j :: 0 <= j < p.newSize ==> out[j] as int == RoundByte(p, base, r, diff, extra, j)
  {
    var a, b := Added(base, p.diff, r.diffPos, r.oldPos, diff), p.extra[r.extraPos..r.extraPos + extra];
    AddedBytes(base, p.diff, r.diffPos, r.oldPos, diff);
    hide *;
    forall j | 0 <= j < p.newSize
      ensures Overwrite(Overwrite(r.out, r.newPos, a), r.newPos + diff, b)[j] as int
              == RoundByte(p, base, r, diff, extra, j)
    {
      RoundByteIs(p, base, r, diff, extra, a, b, j);
    }
  }

  lemma RoundByteIs(p: Patch, base: seq<byte>, r: Replay, diff: int, extra: int, a: seq<byte>, b: seq<byte>, j: int)
    requires InRange(p, r) && 0 <= diff == |a| && 0 <= extra
    requires r.newPos + diff + extra <= p.newSize && r.diffPos + diff <= |p.diff| && r.extraPos + extra <= |p.extra|
    requires b == p.extra[r.extraPos..r.extraPos + extra]
    requires forall k :: 0 <= k < diff ==>
               a[k] as int
               == (p.diff[r.diffPos + k] as int + if 0 <= r.oldPos + k < |base| then base[r.oldPos + k] else 0) % 256
    requires 0 <= j < p.newSize
    ensures Overwrite(Overwrite(r.out, r.newPos, a), r.newPos + diff, b)[j] as int
            == RoundByte(p, base, r, diff, extra, j)
  {
    hide Overwrite;
    OverwriteAt(r.out, r.newPos, a, j);
    OverwriteAt(Overwrite(r.out, r.newPos, a), r.newPos + diff, b, j);
  }

  lemma AddedBytes(base: seq<byte>, diff: seq<byte>, dpos: nat, opos: int, n: nat)
    requires dpos + n <= |diff| && |base| < 0x8000_0000 && IsInt32(opos) && IsInt32(opos + n)
    ensures forall k :: 0 <= k < n ==>
              Added(base, diff, dpos, opos, n)[k] as int
              == (diff[dpos + k] as int + if 0 <= opos + k < |base| then base[opos + k] else 0) % 256
  {
    forall k | 0 <= k < n
      ensures Added(base, diff, dpos, opos, n)[k] as int
              == (diff[dpos + k] as int + if 0 <= opos + k < |base| then base[opos + k] else 0) % 256
    {
      AddedAt(base, diff, dpos, opos, n, k);
      Int32Again(opos + k);
      Int32Again(|base|);
    }
  }

  lemma OverwriteAt(d: seq<byte>, pos: nat, s: seq<byte>, j: nat)
    requires pos + |s| <= |d| && j < |d|
    ensures Overwrite(d, pos, s)[j] == if pos <= j < pos + |s| then s[j - pos] else d[j]
  {
    if j >= pos + |s| { assert Overwrite(d, pos, s)[pos + |s|..][j - pos - |s|] == d[pos + |s|..][j - pos - |s|]; }
  }

  /** The same state three control values further on. */
  function Shifted(o: Outcome<Replay>): Outcome<Replay> {
    if o.Done? then Done(o.value.(ctrlPos := o.value.ctrlPos + 3)) else o
  }

  lemma StepShifts(p: Patch, q: Patch, base: seq<byte>, r: Replay, w: seq<int>)
    requires InRange(p, r) && r.ctrlPos + 3 <= |p.control| && |w| == 3 && q == p.(control := w + p.control)
    ensures InRange(q, r.(ctrlPos := r.ctrlPos + 3))
    ensures Step(q, base, r.(ctrlPos := r.ctrlPos + 3)) == Shifted(Step(p, base, r))
  {
    hide Overwrite, Added, Int32, Passes;
    var s := r.(ctrlPos := r.ctrlPos + 3);
    assert q.control[s.ctrlPos] == p.control[r.ctrlPos];
    assert q.control[s.ctrlPos + 1] == p.control[r.ctrlPos + 1] && q.control[s.ctrlPos + 2] == p.control[r.ctrlPos + 2];
  }

  lemma {:induction false} ReplayedShifts(p: Patch, q: Patch, base: seq<byte>, r: Replay, w: seq<int>)
    requires InRange(p, r) && |w| == 3 && q == p.(control := w + p.control)
    ensures InRange(q, r.(ctrlPos := r.ctrlPos + 3))
    ensures Replayed(q, base, r.(ctrlPos := r.ctrlPos + 3)) == Replayed(p, base, r)
    decreases |p.control| - r.ctrlPos
  {
    hide Step;
    if r.newPos < p.newSize && r.ctrlPos + 3 <= |p.control| {
      StepShifts(p, q, base, r, w);
      if Step(p, base, r).Done? { ReplayedShifts(p, q, base, Step(p, base, r).value, w); }
    }
  }

  /** A triple that asks for more extra bytes than there are can be put in front
      of any patch, and nobody notices. */
  lemma OverlongTripleUnnoticed(p: Patch, base: seq<byte>, extra: int, seek: int)
    requires Sized(p) && 0 < p.newSize && |p.extra| < extra < 0x8000_0000
    ensures Replayed(p.(control := [0, extra, seek] + p.control), base, Start(p)) == Replayed(p, base, Start(p))
  {
    var w := [0, extra, seek];
    var q, r := p.(control := w + p.control), Start(p);
    FirstDiffEmpty(q, base);
    hide Step, Replayed, DiffStep, Zeros, Passes;
    assert q.control[r.ctrlPos] == 0 && q.control[r.ctrlPos + 1] == extra;
    PassesIff(0, 0, q.newSize);
    PassesIff(0, 0, |q.diff|);
    OverlongExtra(q, base, r);
    ReplayedStep(q, base, r, r.(ctrlPos := 3));
    ReplayedShifts(p, q, base, r, w);
  }

  lemma FirstDiffEmpty(q: Patch, base: seq<byte>)
    requires 0 <= q.newSize && 3 <= |q.control| && q.control[0] == 0
    ensures DiffStep(q, base, Start(q)) == Start(q).(ctrlPos := 3)
  {
    assert Added(base, q.diff, 0, 0, 0) == [];
    OverwriteNothing(Zeros(q.newSize), 0);
  }

  lemma ReplayedStep(p: Patch, base: seq<byte>, r: Replay, r': Replay)
    requires InRange(p, r) && r.newPos < p.newSize && r.ctrlPos + 3 <= |p.control| && Step(p, base, r) == Done(r')
    ensures Replayed(p, base, r) == Replayed(p, base, r')
  {
    hide Step;
  }

  lemma OneByteAccepted(p: Patch, base: seq<byte>)
    requires p == Patch([1, 0, 0], [9], [], 1) && base == [1]
    ensures Replayed(p, base, Start(p)) == Done([10])
  {
    OneByteAdded();
    hide Step, Replayed, Overwrite, Added, Zeros;
    StepFits(p, base, Start(p), 1, 0, 0);
    ReplayedStep(p, base, Start(p), Replay([10], 1, 1, 3, 1, 0));
    ReplayedFull(p, base, Replay([10], 1, 1, 3, 1, 0));
  }

  /** Accepted: five extra bytes of none, and then one byte that makes new. */
  lemma OverlongExtraAccepted()
    ensures Applied(Layout(Patch([0, 5, 0, 1, 0, 0], [9], [], 1)), [1]) == Done([10])
  {
    var p, q := Patch([1, 0, 0], [9], [], 1), Patch([0, 5, 0, 1, 0, 0], [9], [], 1);
    assert q == p.(control := [0, 5, 0] + p.control);
    assert Storable(q);
    hide *;
    OneByteAccepted(p, [1]);
    SizedExample(p);
    OverlongTripleUnnoticed(p, [1], 5, 0);
    StartSame(p, q);
    AppliedLayout(q, [1]);
  }

  lemma SizedExample(p: Patch)
    requires p.newSize == 1 && |p.diff| == 1 && p.extra == []
    ensures Sized(p)
  {
  }

  lemma StartSame(p: Patch, q: Patch)
    requires 0 <= p.newSize == q.newSize
    ensures Start(p) == Start(q)
  {
  }

  lemma OneByteAdded()
    ensures Overwrite(Overwrite(Zeros(1), 0, Added([1], [9], 0, 0, 1)), 1, []) == [10]
  {
    AddedAt([1], [9], 0, 0, 1, 0);
    assert Added([1], [9], 0, 0, 1) == [10];
  }

  lemma ReplayedFull(p: Patch, base: seq<byte>, r: Replay)
    requires InRange(p, r) && r.newPos == p.newSize
    ensures Replayed(p, base, r) == Done(r.out)
  {
  }

  /** A patch for no bytes at all is accepted with a control size down to -3. */
  lemma NegativeControlAccepted(control: int, base: seq<byte>)
    ensures -4 < control <= 0 ==> Applied(Header(control, 0, 0, 0), base) == Done([])
    ensures -0x8000_0000 <= control <= -4 ==> Applied(Header(control, 0, 0, 0), base) == Refused
  {
    if IsInt32(control) {
      hide Encode, Decode, Header, Step;
      assert Header(control, 0, 0, 0) == Header(control, 0, 0, 0) + [];
      HeaderFields(Header(control, 0, 0, 0), control, 0, 0, 0, []);
    }
  }

  lemma AppliedLayout(p: Patch, base: seq<byte>)
    requires Storable(p)
    ensures Applied(Layout(p), base) == Replayed(p, base, Start(p))
  {
    hide Layout, Parse, Replayed;
    ParseLayout(p);
  }

  /** Not defined: at position 1 of 2, a length of 2^31 - 1 passes the test. */
  lemma OverflowUndefined()
    ensures Applied(Layout(Patch([0, 1, 0, 0, 0x7FFF_FFFF, 0], [], [5], 2)), []) == Undefined
  {
    var p, base: seq<byte> := Patch([0, 1, 0, 0, 0x7FFF_FFFF, 0], [], [5], 2), [];
    hide Step, Replayed, Applied, Layout, Parse, Overwrite, Added, Zeros, DiffStep, Passes;
    var r := Start(p);
    StepFits(p, base, r, 0, 1, 0);
    var r1 := Step(p, base, r).value;
    ReplayedStep(p, base, r, r1);
    PassesIff(1, 0, 2);
    PassesIff(0, 0, 0);
    DiffStepMoves(p, base, r1);
    OverlongExtra(p, base, r1);
    ReplayedUndefined(p, base, r1);
    AppliedLayout(p, base);
  }

  lemma DiffStepMoves(p: Patch, base: seq<byte>, r: Replay)
    requires InRange(p, r) && r.ctrlPos + 3 <= |p.control| && DiffWithin(p, r)
    ensures var r1, diff := DiffStep(p, base, r), p.control[r.ctrlPos];
            r1.newPos == r.newPos + diff && r1.diffPos == r.diffPos + diff && r1.extraPos == r.extraPos
  {
  }

  lemma ReplayedUndefined(p: Patch, base: seq<byte>, r: Replay)
    requires InRange(p, r) && r.newPos < p.newSize && r.ctrlPos + 3 <= |p.control| && Step(p, base, r) == Undefined
    ensures Replayed(p, base, r) == Undefined
  {
    hide Step;
  }

  /** Lengths that are not negative, and that no position makes overflow. */
  ghost predicate Moderate(p: Patch) {
    forall i :: 0 <= i < |p.control| && i % 3 != 2 ==> ModerateAt(p, i)
  }

  predicate ModerateAt(p: Patch, i: nat)
    requires i < |p.control|
  {
    && 0 <= p.control[i] && p.newSize + p.control[i] < 0x8000_0000
    && |p.diff| + p.control[i] < 0x8000_0000 && |p.extra| + p.control[i] < 0x8000_0000
  }

  lemma ModerateStep(p: Patch, base: seq<byte>, r: Replay)
    requires InRange(p, r) && r.ctrlPos + 3 <= |p.control| && Moderate(p)
    ensures Step(p, base, r) != Undefined
  {
    hide Passes, DiffStep, ExtraStep;
    var c := r.ctrlPos;
    assert (c + 1) % 3 == 1;
    assert ModerateAt(p, c) && ModerateAt(p, c + 1);
    PassesIff(r.newPos, p.control[c], p.newSize);
    PassesIff(r.diffPos, p.control[c], |p.diff|);
    if DiffWithin(p, r) {
      var r1 := DiffStep(p, base, r);
      PassesIff(r1.newPos, p.control[c + 1], p.newSize);
      PassesIff(r1.extraPos, p.control[c + 1], |p.extra|);
    }
  }

  /** Replaying such a patch is always defined. */
  lemma {:induction false} ModerateDefined(p: Patch, base: seq<byte>, r: Replay)
    requires InRange(p, r) && Moderate(p)
    ensures Replayed(p, base, r) != Undefined
    decreases |p.control| - r.ctrlPos
  {
    hide Step, Moderate;
    if r.newPos < p.newSize && r.ctrlPos + 3 <= |p.control| {
      ModerateStep(p, base, r);
      if Step(p, base, r).Done? { ModerateDefined(p, base, Step(p, base, r).value); }
    }
  }

  // ---- in place -----------------------------------------------------------------

  lemma AddedAt(base: seq<byte>, diff: seq<byte>, dpos: nat, opos: int, n: nat, i: nat)
    requires dpos + n <= |diff| && i < n
    ensures Added(base, diff, dpos, opos, n)[i]
            == AddOld(base, diff[dpos + i], opos + i)
  {
  }

  lemma OverwriteIs(d: seq<byte>, pos: nat, s: seq<byte>, r: seq<byte>)
    requires pos + |s| <= |d| == |r|
    requires forall k :: 0 <= k < |d| && !(pos <= k < pos + |s|) ==> r[k] == d[k]
    requires forall k :: 0 <= k < |s| ==> r[pos + k] == s[k]
    ensures r == Overwrite(d, pos, s)
  {
    assert r[..pos] == d[..pos] && r[pos..pos + |s|] == s && r[pos + |s|..] == d[pos + |s|..];
    assert r == r[..pos] + r[pos..pos + |s|] + r[pos + |s|..];
  }

  /** Add old bytes to the difference bytes just copied. */
  method AddBytes(out: array<byte>, at: nat, n: nat, base: seq<byte>, opos: int, ghost diff: seq<byte>, ghost dpos: nat)
    requires at + n <= out.Length && dpos + n <= |diff|
    requires out[at..at + n] == diff[dpos..dpos + n]
    modifies out
    ensures out[..] == Overwrite(old(out[..]), at, Added(base, diff, dpos, opos, n))
  {
    hide Added, Overwrite;
    ghost var before, added := out[..], Added(base, diff, dpos, opos, n);
    for i := 0 to n
      invariant forall k :: 0 <= k < out.Length && !(at <= k < at + i) ==> out[k] == before[k]
      invariant forall k :: 0 <= k < i ==> out[at + k] == added[k]
    {
      AddedAt(base, diff, dpos, opos, n, i);
      assert out[at + i] == before[at..at + n][i] == diff[dpos..dpos + n][i];
      var from := Int32(opos + i);
      Int32Below(|base|);
      if from >= 0 && from < Int32(|base|) {
        out[at + i] := ((out[at + i] as int) + base[from]) % 256;
      }
    }
    OverwriteIs(before, at, added, out[..]);
  }

  method CopyBytes(out: array<byte>, at: nat, s: seq<byte>)
    requires at + |s| <= out.Length
    modifies out
    ensures out[..] == Overwrite(old(out[..]), at, s)
  {
    ghost var before := out[..];
    for i := 0 to |s|
      invariant forall k :: 0 <= k < out.Length && !(at <= k < at + i) ==> out[k] == before[k]
      invariant forall k :: 0 <= k < i ==> out[at + k] == s[k]
    {
      out[at + i] := s[i];
    }
    OverwriteIs(before, at, s, out[..]);
  }

  /** The diff part of a round: copy the difference bytes, then add old. */
  method CopyAndAdd(p: Patch, base: seq<byte>, out: array<byte>, newPos: nat, oldPos: int, diffPos: nat, diff: nat)
    requires newPos + diff <= out.Length && diffPos + diff <= |p.diff|
    modifies out
    ensures out[..] == Overwrite(old(out[..]), newPos, Added(base, p.diff, diffPos, oldPos, diff))
  {
    hide Added, Overwrite;
    ghost var before := out[..];
    CopyBytes(out, newPos, p.diff[diffPos..diffPos + diff]);
    ghost var copied := out[..];
    assert out[newPos..newPos + diff] == copied[newPos..newPos + diff];
    AddBytes(out, newPos, diff, base, oldPos, p.diff, diffPos);
    OverwriteTwice(before, newPos, p.diff[diffPos..diffPos + diff], Added(base, p.diff, diffPos, oldPos, diff));
  }

  /** One round of the loop, in place. */
  method StepInPlace(p: Patch, base: seq<byte>, out: array<byte>, newPos: int, oldPos: int, ctrlPos: int,
                     diffPos: int, extraPos: int)
    returns (ok: bool, newPos': int, oldPos': int, diffPos': int, extraPos': int)
    requires InRange(p, Replay(out[..], newPos, oldPos, ctrlPos, diffPos, extraPos)) && ctrlPos + 3 <= |p.control|
    requires Step(p, base, Replay(out[..], newPos, oldPos, ctrlPos, diffPos, extraPos)) != Undefined
    modifies out
    ensures var r := Step(p, base, old(Replay(out[..], newPos, oldPos, ctrlPos, diffPos, extraPos)));
            && ok == r.Done?
            && (ok ==> Replay(out[..], newPos', oldPos', ctrlPos + 3, diffPos', extraPos') == r.value)
  {
    hide Added, Overwrite, Int32, Passes, Replayed;
    assert InRange(p, Replay(out[..], newPos, oldPos, ctrlPos, diffPos, extraPos));
    ok, newPos', oldPos', diffPos', extraPos' := true, newPos, oldPos, diffPos, extraPos;
    var diff, extra, seek := p.control[ctrlPos], p.control[ctrlPos + 1], p.control[ctrlPos + 2];
    if Passes(newPos, diff, p.newSize) && Passes(diffPos, diff, |p.diff|) {
      CopyAndAdd(p, base, out, newPos, oldPos, diffPos, diff);
      newPos', oldPos', diffPos' := newPos + diff, Int32(oldPos + diff), diffPos + diff;
    } else {
      ok := false;
    }
    if ok && Passes(newPos', extra, p.newSize) && Passes(extraPos, extra, |p.extra|) {
      CopyBytes(out, newPos', p.extra[extraPos..extraPos + extra]);
      newPos', extraPos', oldPos' := newPos' + extra, extraPos + extra, Int32(oldPos' + seek);
    }
  }

  lemma OverwriteTwice(d: seq<byte>, pos: nat, s: seq<byte>, t: seq<byte>)
    requires |s| == |t| && pos + |s| <= |d|
    ensures Overwrite(Overwrite(d, pos, s), pos, t) == Overwrite(d, pos, t)
  {
  }

  /** The replay loop. */
  method ReplayLoop(p: Patch, base: seq<byte>, out: array<byte>) returns (ok: bool)
    requires 0 <= p.newSize == out.Length && out[..] == Zeros(p.newSize)
    requires Replayed(p, base, Start(p)) != Undefined
    modifies out
    ensures var r := Replayed(p, base, Start(p));
            ok == r.Done? && (ok ==> out[..] == r.value)
  {
    hide Step, Added, Zeros;
    ok := true;
    var newPos, oldPos, ctrlPos, diffPos, extraPos := 0, 0, 0, 0, 0;
    ghost var r := Replayed(p, base, Replay(out[..], 0, 0, 0, 0, 0));
    while newPos < p.newSize && ok
      invariant ok ==> InRange(p, Replay(out[..], newPos, oldPos, ctrlPos, diffPos, extraPos))
      invariant ok ==> Replayed(p, base, Replay(out[..], newPos, oldPos, ctrlPos, diffPos, extraPos)) == r
      invariant !ok ==> r == Refused
      decreases ok, |p.control| - ctrlPos
    {
      if ctrlPos + 3 <= |p.control| {
        ok, newPos, oldPos, diffPos, extraPos := StepInPlace(p, base, out, newPos, oldPos, ctrlPos, diffPos, extraPos);
        ctrlPos := ctrlPos + 3;
      } else {
        ok := false;
      }
    }
  }

  method ReadHeader(patch: InputStream) returns (ok: bool, control: int, diff: int, extra: int, newSize: int)
    requires patch.Valid() && patch.ptr == 0
    modifies patch
    ensures patch.Valid() && ok == (|patch.data| >= 16)
    ensures ok ==> control == Decode(patch.data[0..4]) && diff == Decode(patch.data[4..8])
                   && extra == Decode(patch.data[8..12]) && newSize == Decode(patch.data[12..16])
                   && patch.Rest() == patch.data[16..]
  {
    hide Decode;
    control, diff, extra, newSize := 0, 0, 0, 0;
    ghost var d := patch.data;
    assert patch.Rest() == d;
    ok, control := patch.ReadInt32();
    if !ok { return; }
    assert patch.Rest() == d[4..] && (|d| >= 8 ==> d[4..][..4] == d[4..8] && d[4..][4..] == d[8..]);
    ok, diff := patch.ReadInt32();
    if !ok { return; }
    assert patch.Rest() == d[8..] && (|d| >= 12 ==> d[8..][..4] == d[8..12] && d[8..][4..] == d[12..]);
    ok, extra := patch.ReadInt32();
    if !ok { return; }
    assert patch.Rest() == d[12..] && (|d| >= 16 ==> d[12..][..4] == d[12..16] && d[12..][4..] == d[16..]);
    ok, newSize := patch.ReadInt32();
  }

  /** Read the control values; only the last read decides the outcome, but
      once a read has come up short every later one does. */
  method ReadControl(patch: InputStream, n: nat) returns (ok: bool, vs: seq<int>)
    requires patch.Valid()
    modifies patch
    ensures patch.Valid() && ok == (4 * n <= |old(patch.Rest())|)
    ensures ok ==> vs == DecodeAll(old(patch.Rest()), n) && patch.Rest() == old(patch.Rest())[4 * n..]
  {
    hide Decode;
    ghost var rest := patch.Rest();
    ok, vs := true, [];
    for i := 0 to n
      invariant patch.Valid()
      invariant 4 * i <= |rest| ==> ok && vs == DecodeAll(rest, i) && patch.Rest() == rest[4 * i..]
      invariant 4 * i > |rest| ==> !ok && |patch.Rest()| < 4
    {
      var v;
      ok, v := patch.ReadInt32();
      vs := vs + [v];
      assert 4 * i + 4 <= |rest| ==>
             && rest[4 * i..][..4] == rest[4 * i..4 * i + 4]
             && rest[4 * i..][4..] == rest[4 * i + 4..];
    }
  }

  /** Read the patch: sizes, control values, difference bytes, extra bytes. */
  method ReadPatch(patch: InputStream) returns (ok: bool, p: Patch)
    requires patch.Valid() && patch.ptr == 0
    modifies patch
    ensures ok == Parse(patch.data).Some? && (ok ==> p == Parse(patch.data).value)
  {
    p := Patch([], [], [], 0);
    var control, diffSize, extraSize, newSize;
    ok, control, diffSize, extraSize, newSize := ReadHeader(patch);
    if !ok || control <= -4 || diffSize < 0 || extraSize < 0 || newSize < 0 {
      return false, p;
    }
    ok, p := ReadBody(patch, Max(control, 0) / 4, diffSize, extraSize, newSize);
  }

  method ReadBody(patch: InputStream, n: nat, diffSize: nat, extraSize: nat, newSize: nat) returns (ok: bool, p: Patch)
    requires patch.Valid()
    modifies patch
    ensures var r := Body(old(patch.Rest()), n, diffSize, extraSize, newSize);
            ok == r.Some? && (ok ==> p == r.value)
  {
    hide Decode, DecodeAll;
    p := Patch([], [], [], 0);
    ghost var rest := patch.Rest();
    var vs, diff, extra;
    ok, vs := ReadControl(patch, n);
    if !ok { return; }
    ok, diff := patch.ReadBytes(diffSize);
    if !ok { return; }
    ok, extra := patch.ReadBytes(extraSize);
    if !ok { return; }
    assert rest[4 * n..][..diffSize] == rest[4 * n..4 * n + diffSize];
    assert rest[4 * n..][diffSize..][..extraSize] == rest[4 * n + diffSize..4 * n + diffSize + extraSize];
    p := Patch(vs, diff, extra, newSize);
  }

  /** `bspatchmain` */
  method Apply(patch: InputStream, input: InputStream, output: OutputStream) returns (ok: bool)
    requires patch.Valid() && patch.ptr == 0 && input.Valid() && input.ptr == 0 && patch != input
    requires output.Valid() && output.data == [] && output.pos == 0
    requires Applied(patch.data, input.data) != Undefined
    modifies patch, input, output
    ensures var r := Applied(patch.data, input.data);
            && ok == r.Done?
            && output.data == if ok then r.value else []
  {
    hide Parse, Replayed;
    var p;
    ok, p := ReadPatch(patch);
    if !ok { return; }
    ParsedSize(patch.data);
    var size := input.Measure();
    var base;
    assert input.Rest() == input.data;
    ok, base := input.ReadBytes(size);
    assert base == input.data;
    var out := new byte[p.newSize](_ => 0);
    assert out[..] == Zeros(p.newSize);
    ok := ReplayLoop(p, base, out);
    if ok {
      OverwriteAtEnd([], out[..]);
      output.WriteBytes(out[..]);
    }
  }
}
