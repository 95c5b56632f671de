/** Writing bitmap effects to a stream, and reading them back. */
module EffectPickle {
  import opened Common
  import opened ObjectStream
  import opened EffectFormat

  method PickleLayer(x: Layer, out: ObjectOutputStream)
    requires out.Valid()
    modifies out, out.buffer
    ensures out.Valid() && out.Contents() == old(out.Contents()) + LayerBytes(x)
  {
    hide U32, PackLayer, ObjectOutputStream.Contents;
    out.WriteU32(x.color);
    out.WriteU8(PackLayer(x));
  }

  method PickleShadow(x: Shadow, out: ObjectOutputStream)
    requires out.Valid()
    modifies out, out.buffer
    ensures out.Valid() && out.Contents() == old(out.Contents()) + ShadowBytes(x)
  {
    hide U16, U32, PackShadowA, PackShadowB, ObjectOutputStream.Contents;
    out.WriteU32(x.color);
    out.WriteU32(PackShadowA(x));
    out.WriteU16(PackShadowB(x));
  }

  method PickleGlow(x: Glow, out: ObjectOutputStream)
    requires out.Valid()
    modifies out, out.buffer
    ensures out.Valid() && out.Contents() == old(out.Contents()) + GlowBytes(x)
  {
    hide U32, PackGlow, ObjectOutputStream.Contents;
    out.WriteU32(x.color);
    out.WriteU32(PackGlow(x));
  }

  method PickleShadowIf(present: bool, x: Shadow, out: ObjectOutputStream)
    requires out.Valid()
    modifies out, out.buffer
    ensures out.Valid() && out.Contents() == old(out.Contents()) + Pick(present, ShadowBytes(x), [])
  {
    hide ShadowBytes, ObjectOutputStream.Contents;
    if present {
      PickleShadow(x, out);
    }
  }

  method PickleGlowIf(present: bool, x: Glow, out: ObjectOutputStream)
    requires out.Valid()
    modifies out, out.buffer
    ensures out.Valid() && out.Contents() == old(out.Contents()) + Pick(present, GlowBytes(x), [])
  {
    hide GlowBytes, ObjectOutputStream.Contents;
    if present {
      PickleGlow(x, out);
    }
  }

  method PickleLayerIf(present: bool, x: Layer, out: ObjectOutputStream)
    requires out.Valid()
    modifies out, out.buffer
    ensures out.Valid() && out.Contents() == old(out.Contents()) + Pick(present, LayerBytes(x), [])
  {
    hide LayerBytes, ObjectOutputStream.Contents;
    if present {
      PickleLayer(x, out);
    }
  }

  /** `MCBitmapEffectsPickle`. */
  method Pickle(e: Effects, out: ObjectOutputStream)
    requires out.Valid()
    modifies out, out.buffer
    ensures out.Valid() && out.Contents() == old(out.Contents()) + Record(e, [])
  {
    hide *;
    out.WriteU16(Word(Weigh(e)));
    out.WriteU16(LowWord(e.mask));
    PreambleWritten(old(out.Contents()), Weigh(e), e.mask);
    PickleShadowIf(e.HasDropShadow(), e.dropShadow, out);
    PickleGlowIf(e.HasOuterGlow(), e.outerGlow, out);
    PickleShadowIf(e.HasInnerShadow(), e.innerShadow, out);
    PickleGlowIf(e.HasInnerGlow(), e.innerGlow, out);
    PickleLayerIf(e.HasColorOverlay(), e.colorOverlay, out);
    RecordWritten(old(out.Contents()), e);
  }

  lemma PreambleWritten(s: Bytes, size: nat, mask: bv32)
    requires size < 0x1_0000
    ensures s + U16(Word(size)) + U16(LowWord(mask)) == s + Preamble(size, mask)
  {
    hide U16, Word;
  }

  lemma RecordWritten(s: Bytes, e: Effects)
    ensures s + Preamble(Weigh(e), e.mask)
            + Pick(e.HasDropShadow(), ShadowBytes(e.dropShadow), [])
            + Pick(e.HasOuterGlow(), GlowBytes(e.outerGlow), [])
            + Pick(e.HasInnerShadow(), ShadowBytes(e.innerShadow), [])
            + Pick(e.HasInnerGlow(), GlowBytes(e.innerGlow), [])
            + Pick(e.HasColorOverlay(), LayerBytes(e.colorOverlay), [])
         == s + Record(e, [])
  {
    hide Preamble, Weigh, Pick, ShadowBytes, GlowBytes, LayerBytes;
  }

  method UnpickleLayer(input: ObjectInputStream) returns (ok: bool, x: Layer)
    requires input.Valid()
    modifies input, input.buffer
    ensures input.Valid()
    ensures if ok then GetLayer(old(input.Rest())) == Some(x) && input.Rest() == old(input.Rest())[LAYER_SIZE..]
            else GetLayer(old(input.Rest())) == None && input.Rest() == []
  {
    hide GetU32, UnpackLayer, ObjectInputStream.Rest;
    ghost var s := input.Rest();
    x := Layer(0, 0);
    var color, flags;
    ok, color := input.ReadU32();
    if ok {
      ok, flags := input.ReadU8();
    }
    if ok {
      x := UnpackLayer(color, flags);
    }
  }

  method UnpickleShadow(input: ObjectInputStream) returns (ok: bool, x: Shadow)
    requires input.Valid()
    modifies input, input.buffer
    ensures input.Valid()
    ensures if ok then GetShadow(old(input.Rest())) == Some(x) && input.Rest() == old(input.Rest())[SHADOW_SIZE..]
            else GetShadow(old(input.Rest())) == None && input.Rest() == []
  {
    hide GetU16, GetU32, UnpackShadow, ObjectInputStream.Rest;
    ghost var s := input.Rest();
    x := Shadow(0, 0, 0, 0, 0, 0, 0, false);
    var color, a, b;
    ok, color := input.ReadU32();
    if ok {
      ok, a := input.ReadU32();
    }
    if ok {
      ok, b := input.ReadU16();
    }
    if ok {
      assert s[4..][..4] == s[4..8] && s[4..][4..] == s[8..] && s[8..][..2] == s[8..10] && s[8..][2..] == s[10..];
      x := UnpackShadow(color, a, b);
    }
  }

  method UnpickleGlow(input: ObjectInputStream) returns (ok: bool, x: Glow)
    requires input.Valid()
    modifies input, input.buffer
    ensures input.Valid()
    ensures if ok then GetGlow(old(input.Rest())) == Some(x) && input.Rest() == old(input.Rest())[GLOW_SIZE..]
            else GetGlow(old(input.Rest())) == None && input.Rest() == []
  {
    hide GetU32, UnpackGlow, ObjectInputStream.Rest;
    ghost var s := input.Rest();
    x := Glow(0, 0, 0, 0, 0, 0, 0);
    var color, data;
    ok, color := input.ReadU32();
    if ok {
      ok, data := input.ReadU32();
    }
    if ok {
      assert s[4..][..4] == s[4..8] && s[4..][4..] == s[8..];
      x := UnpackGlow(color, data);
    }
  }

  /** Where a reader stands, against what the record says it should have read. */
  ghost predicate Reads(k: Option<Cursor>, ok: bool, r: Effects, left: nat, rest: Bytes) {
    if ok then k == Some(Cursor(r, rest, left)) else k == None && rest == []
  }

  lemma PreambleRead(s: Bytes, init: Effects)
    requires |s| >= 4
    ensures Opened(s, init)
         == Cursor(init.(mask := GetU16(s[2..][..2]) as bv32), s[2..][2..], Less(Number(GetU16(s[..2])), 4))
  {
    hide GetU16, Number, Less;
    assert s[2..][..2] == s[2..4] && s[2..][2..] == s[4..];
  }

  function AfterDropShadow(k: Option<Cursor>): Option<Cursor> {
    if k.None? then None else TakeDropShadow(k.value)
  }

  method ReadDropShadow(ok0: bool, r0: Effects, left0: nat, ghost k: Option<Cursor>, input: ObjectInputStream)
    returns (ok: bool, r: Effects, left: nat)
    requires input.Valid() && Reads(k, ok0, r0, left0, input.Rest())
    modifies input, input.buffer
    ensures input.Valid() && Reads(AfterDropShadow(k), ok, r, left, input.Rest())
  {
    hide GetShadow, Less, Effects.HasDropShadow, ObjectInputStream.Rest;
    ok, r, left := ok0, r0, left0;
    if ok && r.HasDropShadow() {
      var x;
      left := Less(left, SHADOW_SIZE);
      ok, x := UnpickleShadow(input);
      r := r.(dropShadow := x);
    }
  }

  function AfterOuterGlow(k: Option<Cursor>): Option<Cursor> {
    if k.None? then None else TakeOuterGlow(k.value)
  }

  method ReadOuterGlow(ok0: bool, r0: Effects, left0: nat, ghost k: Option<Cursor>, input: ObjectInputStream)
    returns (ok: bool, r: Effects, left: nat)
    requires input.Valid() && Reads(k, ok0, r0, left0, input.Rest())
    modifies input, input.buffer
    ensures input.Valid() && Reads(AfterOuterGlow(k), ok, r, left, input.Rest())
  {
    hide GetGlow, Less, Effects.HasOuterGlow, ObjectInputStream.Rest;
    ok, r, left := ok0, r0, left0;
    if ok && r.HasOuterGlow() {
      var x;
      left := Less(left, GLOW_SIZE);
      ok, x := UnpickleGlow(input);
      r := r.(outerGlow := x);
    }
  }

  function AfterInnerShadow(k: Option<Cursor>): Option<Cursor> {
    if k.None? then None else TakeInnerShadow(k.value)
  }

  method ReadInnerShadow(ok0: bool, r0: Effects, left0: nat, ghost k: Option<Cursor>, input: ObjectInputStream)
    returns (ok: bool, r: Effects, left: nat)
    requires input.Valid() && Reads(k, ok0, r0, left0, input.Rest())
    modifies input, input.buffer
    ensures input.Valid() && Reads(AfterInnerShadow(k), ok, r, left, input.Rest())
  {
    hide GetShadow, Less, Effects.HasInnerShadow, ObjectInputStream.Rest;
    ok, r, left := ok0, r0, left0;
    if ok && r.HasInnerShadow() {
      var x;
      left := Less(left, SHADOW_SIZE);
      ok, x := UnpickleShadow(input);
      r := r.(innerShadow := x);
    }
  }

  function AfterInnerGlow(k: Option<Cursor>): Option<Cursor> {
    if k.None? then None else TakeInnerGlow(k.value)
  }

  method ReadInnerGlow(ok0: bool, r0: Effects, left0: nat, ghost k: Option<Cursor>, input: ObjectInputStream)
    returns (ok: bool, r: Effects, left: nat)
    requires input.Valid() && Reads(k, ok0, r0, left0, input.Rest())
    modifies input, input.buffer
    ensures input.Valid() && Reads(AfterInnerGlow(k), ok, r, left, input.Rest())
  {
    hide GetGlow, Less, Effects.HasInnerGlow, ObjectInputStream.Rest;
    ok, r, left := ok0, r0, left0;
    if ok && r.HasInnerGlow() {
      var x;
      left := Less(left, GLOW_SIZE);
      ok, x := UnpickleGlow(input);
      r := r.(innerGlow := x);
    }
  }

  function AfterColorOverlay(k: Option<Cursor>): Option<Cursor> {
    if k.None? then None else TakeColorOverlay(k.value)
  }

  method ReadColorOverlay(ok0: bool, r0: Effects, left0: nat, ghost k: Option<Cursor>, input: ObjectInputStream)
    returns (ok: bool, r: Effects, left: nat)
    requires input.Valid() && Reads(k, ok0, r0, left0, input.Rest())
    modifies input, input.buffer
    ensures input.Valid() && Reads(AfterColorOverlay(k), ok, r, left, input.Rest())
  {
    hide GetLayer, Less, Effects.HasColorOverlay, ObjectInputStream.Rest;
    ok, r, left := ok0, r0, left0;
    if ok && r.HasColorOverlay() {
      var x;
      left := Less(left, LAYER_SIZE);
      ok, x := UnpickleLayer(input);
      r := r.(colorOverlay := x);
    }
  }

  method ReadPreamble(init: Effects, input: ObjectInputStream) returns (ok: bool, r: Effects, left: nat)
    requires input.Valid()
    modifies input, input.buffer
    ensures input.Valid()
    ensures Reads(Begun(old(input.Rest()), init), ok, r, left, input.Rest())
  {
    hide Less, GetU16, Number, Opened, ObjectInputStream.Rest;
    ghost var s := input.Rest();
    r, left := init, 0;
    var size, mask;
    ok, size := input.ReadU16();
    if ok {
      ok, mask := input.ReadU16();
    }
    if ok {
      r := r.(mask := mask as bv32);
      left := Less(Number(size), 4);
      PreambleRead(s, init);
    }
  }

  function Begun(s: Bytes, init: Effects): Option<Cursor> {
    if |s| < 4 then None else Some(Opened(s, init))
  }

  lemma UnpickledChain(s: Bytes, init: Effects)
    ensures var k := AfterColorOverlay(AfterInnerGlow(AfterInnerShadow(AfterOuterGlow(AfterDropShadow(
                       Begun(s, init))))));
            Unpickled(s, init)
            == if k.None? || |k.value.rest| < k.value.left then None
               else Some((k.value.e, k.value.rest[k.value.left..]))
  {
    hide TakeDropShadow, TakeOuterGlow, TakeInnerShadow, TakeInnerGlow, TakeColorOverlay, Opened;
  }

  /** `MCBitmapEffectsUnpickle`: `init` is the new record before anything is assigned to it. */
  method Unpickle(current: Effects, init: Effects, input: ObjectInputStream) returns (ok: bool, e: Effects)
    requires input.Valid()
    modifies input, input.buffer
    ensures input.Valid()
    ensures if ok then Unpickled(old(input.Rest()), init) == Some((e, input.Rest()))
            else Unpickled(old(input.Rest()), init) == None && e == current && input.Rest() == []
  {
    hide Begun, AfterDropShadow, AfterOuterGlow, AfterInnerShadow, AfterInnerGlow, AfterColorOverlay, Unpickled,
      ObjectInputStream.Rest;
    ghost var k := Begun(input.Rest(), init);
    UnpickledChain(input.Rest(), init);
    e := current;
    var r, left;
    ok, r, left := ReadPreamble(init, input);
    ok, r, left := ReadDropShadow(ok, r, left, k, input);
    k := AfterDropShadow(k);
    ok, r, left := ReadOuterGlow(ok, r, left, k, input);
    k := AfterOuterGlow(k);
    ok, r, left := ReadInnerShadow(ok, r, left, k, input);
    k := AfterInnerShadow(k);
    ok, r, left := ReadInnerGlow(ok, r, left, k, input);
    k := AfterInnerGlow(k);
    ok, r, left := ReadColorOverlay(ok, r, left, k, input);
    if ok && left > 0 {
      var skipped;
      ok, skipped := input.Read(left);
    }
    if ok {
      e := r;
    }
  }

  /** What is pickled is read back, and reading stops where writing did. */
  method PickleThenUnpickle(e: Effects, current: Effects, init: Effects, tail: Bytes)
    returns (ok: bool, e': Effects, rest: Bytes)
    ensures ok && e' == Restored(e, init) && rest == tail
  {
    hide *;
    var out := new ObjectOutputStream();
    Pickle(e, out);
    out.Write(tail);
    out.Flush();
    assert [] + Record(e, []) == Record(e, []);
    var input := new ObjectInputStream(out.written);
    RecordRoundTrip(e, [], tail, init);
    ok, e' := Unpickle(current, init, input);
    var done;
    done, rest := input.Read(|tail|);
  }
}
