/** Pickled bitmap effects: the fields of the effects that are present, packed
    into words, behind a size and a mask. */
module EffectFormat {
  import opened Common
  import opened ObjectStream

  datatype Layer = Layer(color: bv32, blend: bv4)

  datatype Shadow = Shadow(color: bv32, blend: bv4, filter: bv3, size: bv8, spread: bv8,
                           angle: bv9, distance: bv15, knockout: bool)

  datatype Glow = Glow(color: bv32, blend: bv4, filter: bv3, size: bv8, spread: bv8, range: bv8, source: bv1)

  /** The effects of an object; the mask says which of them are present. */
  datatype Effects = Effects(mask: bv32, dropShadow: Shadow, innerShadow: Shadow, outerGlow: Glow, innerGlow: Glow,
                             colorOverlay: Layer)
  {
    predicate HasDropShadow() { mask & 1 != 0 }

    predicate HasInnerShadow() { mask & 2 != 0 }

    predicate HasOuterGlow() { mask & 4 != 0 }

    predicate HasInnerGlow() { mask & 8 != 0 }

    predicate HasColorOverlay() { mask & 16 != 0 }
  }

  const SHADOW_SIZE := 10
  const GLOW_SIZE := 8
  const LAYER_SIZE := 5

  function Pick<T>(present: bool, x: T, y: T): T {
    if present then x else y
  }

  function SizeIf(present: bool, size: nat): (n: nat)
    ensures n <= size
  {
    if present then size else 0
  }

  /** `MCBitmapEffectsWeigh`. */
  function Weigh(e: Effects): (n: nat)
    ensures 4 <= n <= 45
  {
    4
    + SizeIf(e.HasDropShadow(), SHADOW_SIZE)
    + SizeIf(e.HasOuterGlow(), GLOW_SIZE)
    + SizeIf(e.HasInnerShadow(), SHADOW_SIZE)
    + SizeIf(e.HasInnerGlow(), GLOW_SIZE)
    + SizeIf(e.HasColorOverlay(), LAYER_SIZE)
  }

  // ---- packing ---------------------------------------------------------------

  function FiveShifts(a: bv4, b: bv3, c: bv8, d: bv8, e: bv9): bv32 {
    (a as bv32 << 28) | (b as bv32 << 25) | (c as bv32 << 17) | (d as bv32 << 9) | e as bv32
  }

  function SixShifts(a: bv4, b: bv3, c: bv8, d: bv8, e: bv8, f: bv1): bv32 {
    (a as bv32 << 28) | (b as bv32 << 25) | (c as bv32 << 17) | (d as bv32 << 9) | (e as bv32 << 1) | f as bv32
  }

  function OneShift(a: bv15, b: bool): bv16 {
    (a as bv16 << 1) | (if b then 1 else 0)
  }

  function PackShadowA(x: Shadow): bv32 {
    FiveShifts(x.blend, x.filter, x.size, x.spread, x.angle)
  }

  function PackShadowB(x: Shadow): bv16 {
    OneShift(x.distance, x.knockout)
  }

  function UnpackShadow(color: bv32, a: bv32, b: bv16): Shadow {
    Shadow(color, ((a >> 28) & 0x0f) as bv4, ((a >> 25) & 0x07) as bv3, ((a >> 17) & 0xff) as bv8,
           ((a >> 9) & 0xff) as bv8, (a & 0x01ff) as bv9, ((b >> 1) & 0x7fff) as bv15, b & 1 != 0)
  }

  lemma ShadowRoundTrip(x: Shadow)
    ensures UnpackShadow(x.color, PackShadowA(x), PackShadowB(x)) == x
  {
  }

  function PackGlow(x: Glow): bv32 {
    SixShifts(x.blend, x.filter, x.size, x.spread, x.range, x.source)
  }

  function UnpackGlow(color: bv32, a: bv32): Glow {
    Glow(color, ((a >> 28) & 0x0f) as bv4, ((a >> 25) & 0x07) as bv3, ((a >> 17) & 0xff) as bv8,
         ((a >> 9) & 0xff) as bv8, ((a >> 1) & 0xff) as bv8, (a & 1) as bv1)
  }

  lemma GlowRoundTrip(x: Glow)
    ensures UnpackGlow(x.color, PackGlow(x)) == x
  {
  }

  function PackLayer(x: Layer): bv8 {
    x.blend as bv8 << 4
  }

  function UnpackLayer(color: bv32, flags: bv8): Layer {
    Layer(color, (flags >> 4) as bv4)
  }

  lemma LayerRoundTrip(x: Layer)
    ensures UnpackLayer(x.color, PackLayer(x)) == x
  {
  }

  /** A packed word by place values: every field counts as much as the fields
      behind it can hold, and one. */
  function FivePlaces(a: bv4, b: bv3, c: bv8, d: bv8, e: bv9): bv32 {
    a as bv32 * 0x1000_0000 + b as bv32 * 0x200_0000 + c as bv32 * 0x2_0000 + d as bv32 * 0x200 + e as bv32
  }

  function SixPlaces(a: bv4, b: bv3, c: bv8, d: bv8, e: bv8, f: bv1): bv32 {
    a as bv32 * 0x1000_0000 + b as bv32 * 0x200_0000 + c as bv32 * 0x2_0000 + d as bv32 * 0x200 + e as bv32 * 2
    + f as bv32
  }

  function TwoPlaces(a: bv15, b: bool): bv16 {
    a as bv16 * 2 + if b then 1 else 0
  }

  lemma ShadowPlaces(x: Shadow)
    ensures PackShadowA(x) == FivePlaces(x.blend, x.filter, x.size, x.spread, x.angle)
    ensures PackShadowB(x) == TwoPlaces(x.distance, x.knockout)
  {
    hide FivePlaces, FiveShifts, TwoPlaces, OneShift;
    FivePlaced(x.blend, x.filter, x.size, x.spread, x.angle);
    TwoPlaced(x.distance, x.knockout);
  }

  lemma GlowPlaces(x: Glow)
    ensures PackGlow(x) == SixPlaces(x.blend, x.filter, x.size, x.spread, x.range, x.source)
  {
    hide SixPlaces, SixShifts;
    SixPlaced(x.blend, x.filter, x.size, x.spread, x.range, x.source);
  }

  lemma LayerPlaces(x: Layer)
    ensures PackLayer(x) == x.blend as bv8 * 16
  {
  }

  lemma FivePlaced(a: bv4, b: bv3, c: bv8, d: bv8, e: bv9)
    ensures FiveShifts(a, b, c, d, e) == FivePlaces(a, b, c, d, e)
  {
  }

  lemma SixPlaced(a: bv4, b: bv3, c: bv8, d: bv8, e: bv8, f: bv1)
    ensures SixShifts(a, b, c, d, e, f) == SixPlaces(a, b, c, d, e, f)
  {
  }

  lemma TwoPlaced(a: bv15, b: bool)
    ensures OneShift(a, b) == TwoPlaces(a, b)
  {
    LowBit(a, if b then 1 else 0);
  }

  lemma LowBit(a: bv15, f: bv16)
    requires f == 0 || f == 1
    ensures (a as bv16 << 1) | f == a as bv16 * 2 + f
  {
  }

  /** Unpacking loses nothing of a shadow or a glow, and of a layer four bits. */
  lemma ShadowUnpacked(color: bv32, a: bv32, b: bv16)
    ensures var x := UnpackShadow(color, a, b); x.color == color && PackShadowA(x) == a && PackShadowB(x) == b
  {
    FiveFields(a);
    TwoFields(b);
  }

  lemma GlowUnpacked(color: bv32, a: bv32)
    ensures var x := UnpackGlow(color, a); x.color == color && PackGlow(x) == a
  {
    SixFields(a);
  }

  lemma LayerUnpacked(color: bv32, flags: bv8)
    ensures var x := UnpackLayer(color, flags); x.color == color && PackLayer(x) == flags & 0xF0
  {
  }

  lemma FiveFields(a: bv32)
    ensures (((a >> 28) & 0x0f) as bv4 as bv32 << 28) | (((a >> 25) & 0x07) as bv3 as bv32 << 25)
            | (((a >> 17) & 0xff) as bv8 as bv32 << 17) | (((a >> 9) & 0xff) as bv8 as bv32 << 9)
            | (a & 0x01ff) as bv9 as bv32 == a
  {
  }

  lemma SixFields(a: bv32)
    ensures (((a >> 28) & 0x0f) as bv4 as bv32 << 28) | (((a >> 25) & 0x07) as bv3 as bv32 << 25)
            | (((a >> 17) & 0xff) as bv8 as bv32 << 17) | (((a >> 9) & 0xff) as bv8 as bv32 << 9)
            | (((a >> 1) & 0xff) as bv8 as bv32 << 1) | (a & 1) as bv1 as bv32 == a
  {
  }

  lemma TwoFields(b: bv16)
    ensures (((b >> 1) & 0x7fff) as bv15 as bv16 << 1) | (if b & 1 != 0 then 1 else 0) == b
  {
  }

  // ---- writing ---------------------------------------------------------------

  function ShadowBytes(x: Shadow): (s: Bytes)
    ensures |s| == SHADOW_SIZE
  {
    U32(x.color) + U32(PackShadowA(x)) + U16(PackShadowB(x))
  }

  function GlowBytes(x: Glow): (s: Bytes)
    ensures |s| == GLOW_SIZE
  {
    U32(x.color) + U32(PackGlow(x))
  }

  function LayerBytes(x: Layer): (s: Bytes)
    ensures |s| == LAYER_SIZE
  {
    U32(x.color) + [PackLayer(x)]
  }

  /** The fields of the effects that are present, in the order they are written. */
  function Fields(e: Effects): (s: Bytes)
    ensures |s| == Weigh(e) - 4
  {
    Pick(e.HasDropShadow(), ShadowBytes(e.dropShadow), [])
    + (Pick(e.HasOuterGlow(), GlowBytes(e.outerGlow), [])
    + (Pick(e.HasInnerShadow(), ShadowBytes(e.innerShadow), [])
    + (Pick(e.HasInnerGlow(), GlowBytes(e.innerGlow), [])
    + Pick(e.HasColorOverlay(), LayerBytes(e.colorOverlay), []))))
  }

  /** What of the mask fits its two bytes. */
  function LowWord(mask: bv32): bv16 {
    (mask & 0xffff) as bv16
  }

  function LowBits(mask: bv32): bv32 {
    LowWord(mask) as bv32
  }

  /** The two words in front of the fields. */
  function Preamble(size: nat, mask: bv32): (s: Bytes)
    requires size < 0x1_0000
    ensures |s| == 4
  {
    U16(Word(size)) + U16(LowWord(mask))
  }

  /** A record as a later version may write it, with more data behind the fields. */
  function Record(e: Effects, extra: Bytes): (s: Bytes)
    requires Weigh(e) + |extra| < 0x1_0000
    ensures |s| == Weigh(e) + |extra|
  {
    Preamble(Weigh(e) + |extra|, e.mask) + Fields(e) + extra
  }

  lemma ShadowLayout(x: Shadow)
    ensures var s := ShadowBytes(x);
            && BigEndian(s[..4]) == x.color
            && BigEndian(s[4..8]) == FivePlaces(x.blend, x.filter, x.size, x.spread, x.angle)
            && HalfWord(s[8..]) == TwoPlaces(x.distance, x.knockout)
  {
    hide BigEndian, HalfWord, PackShadowA, PackShadowB, FivePlaces, TwoPlaces, U16, U32;
    ShadowPlaces(x);
    ThreeWords(x.color, PackShadowA(x), PackShadowB(x));
  }

  lemma GlowLayout(x: Glow)
    ensures var s := GlowBytes(x);
            && BigEndian(s[..4]) == x.color
            && BigEndian(s[4..]) == SixPlaces(x.blend, x.filter, x.size, x.spread, x.range, x.source)
  {
    hide BigEndian, PackGlow, SixPlaces, U32;
    GlowPlaces(x);
    TwoWords(x.color, PackGlow(x));
  }

  lemma TwoWords(a: bv32, b: bv32)
    ensures var s := U32(a) + U32(b); BigEndian(s[..4]) == a && BigEndian(s[4..]) == b
  {
    hide BigEndian, U32, GetU32;
    var s := U32(a) + U32(b);
    assert s[..4] == U32(a) && s[4..] == U32(b);
    U32Order(a, U32(a));
    U32Order(b, U32(b));
  }

  lemma ThreeWords(a: bv32, b: bv32, c: bv16)
    ensures var s := U32(a) + U32(b) + U16(c);
            BigEndian(s[..4]) == a && BigEndian(s[4..8]) == b && HalfWord(s[8..]) == c
  {
    hide BigEndian, HalfWord, U16, U32, GetU16, GetU32;
    var s := U32(a) + U32(b) + U16(c);
    assert s[..4] == U32(a) && s[4..8] == U32(b) && s[8..] == U16(c);
    U32Order(a, U32(a));
    U32Order(b, U32(b));
    U16Order(c, U16(c));
  }

  lemma LayerLayout(x: Layer)
    ensures var s := LayerBytes(x); BigEndian(s[..4]) == x.color && s[4] == x.blend as bv8 * 16
  {
    hide U32, PackLayer, BigEndian;
    var s := LayerBytes(x);
    assert s[..4] == U32(x.color);
    U32Order(x.color, s[..4]);
    LayerPlaces(x);
  }

  /** Where the fields of a record stand: drop shadow, outer glow, inner shadow,
      inner glow and color overlay, those whose bit is set. */
  ghost predicate FieldsAt(s: Bytes, e: Effects, at: nat, extra: Bytes) {
    var a := at;
    var b := if e.mask & 1 != 0 then a + 10 else a;
    var c := if e.mask & 4 != 0 then b + 8 else b;
    var d := if e.mask & 2 != 0 then c + 10 else c;
    var f := if e.mask & 8 != 0 then d + 8 else d;
    var g := if e.mask & 16 != 0 then f + 5 else f;
    && |s| == g + |extra|
    && (e.mask & 1 != 0 ==> s[a..b] == ShadowBytes(e.dropShadow))
    && (e.mask & 4 != 0 ==> s[b..c] == GlowBytes(e.outerGlow))
    && (e.mask & 2 != 0 ==> s[c..d] == ShadowBytes(e.innerShadow))
    && (e.mask & 8 != 0 ==> s[d..f] == GlowBytes(e.innerGlow))
    && (e.mask & 16 != 0 ==> s[f..g] == LayerBytes(e.colorOverlay))
    && s[g..] == extra
  }

  /** The size, a byte and a byte, and the low end of the mask. */
  ghost predicate PreambleIs(p: Bytes, size: nat, mask: bv32) {
    |p| == 4 && p[0] as nat * 256 + p[1] as nat == size && HalfWord(p[2..]) == (mask & 0xFFFF) as bv16
  }

  /** A record on the bytes. */
  lemma RecordLayout(e: Effects, extra: Bytes)
    requires Weigh(e) + |extra| < 0x1_0000
    ensures var s := Record(e, extra); PreambleIs(s[..4], |s|, e.mask) && FieldsAt(s, e, 4, extra)
  {
    var n := Weigh(e) + |extra|;
    FieldsBehind(Preamble(n, e.mask), e, extra);
    PreambleBytes(n, e.mask);
    hide *;
    RecordStarts(e, extra);
  }

  lemma RecordStarts(e: Effects, extra: Bytes)
    requires Weigh(e) + |extra| < 0x1_0000
    ensures var s, p := Record(e, extra), Preamble(Weigh(e) + |extra|, e.mask);
            s == p + Fields(e) + extra && s[..4] == p
  {
    hide Weigh, Fields, Preamble;
  }

  lemma PreambleBytes(n: nat, mask: bv32)
    requires n < 0x1_0000
    ensures PreambleIs(Preamble(n, mask), n, mask)
  {
    hide U16, Word, HalfWord;
    var p := Preamble(n, mask);
    assert p[2..] == U16(LowWord(mask)) && p[0] == U16(Word(n))[0] && p[1] == U16(Word(n))[1];
    U16Order(LowWord(mask), p[2..]);
    SizeBytes(n);
  }

  lemma FieldsBehind(p: Bytes, e: Effects, extra: Bytes)
    ensures FieldsAt(p + Fields(e) + extra, e, |p|, extra)
  {
    hide ShadowBytes, GlowBytes, LayerBytes;
    FivePieces(p, Pick(e.HasDropShadow(), ShadowBytes(e.dropShadow), []),
      Pick(e.HasOuterGlow(), GlowBytes(e.outerGlow), []), Pick(e.HasInnerShadow(), ShadowBytes(e.innerShadow), []),
      Pick(e.HasInnerGlow(), GlowBytes(e.innerGlow), []), Pick(e.HasColorOverlay(), LayerBytes(e.colorOverlay), []),
      extra);
  }

  lemma FivePieces(p: Bytes, a: Bytes, b: Bytes, c: Bytes, d: Bytes, f: Bytes, x: Bytes)
    ensures var s := p + (a + (b + (c + (d + f)))) + x;
            var i := |p| + |a|;
            var j := i + |b|;
            var k := j + |c|;
            var l := k + |d|;
            var m := l + |f|;
            && |s| == m + |x| && s[|p|..i] == a && s[i..j] == b && s[j..k] == c && s[k..l] == d && s[l..m] == f
            && s[m..] == x
  {
  }

  lemma SizeBytes(n: nat)
    requires n < 0x1_0000
    ensures var s := U16(Word(n)); s[0] as nat * 256 + s[1] as nat == n
  {
    hide *;
    WordHolds(n);
    NumberIs(Word(n));
    U16Number(Word(n));
  }

  lemma U16Number(v: bv16)
    ensures U16(v)[0] as nat * 256 + U16(v)[1] as nat == v as nat
  {
    hide *;
    BytesJoined(v);
    BytesNumber(U16(v)[0], U16(v)[1], v);
  }

  lemma BytesJoined(v: bv16)
    ensures v == U16(v)[0] as bv16 * 256 + U16(v)[1] as bv16
  {
  }

  lemma BytesNumber(hi: bv8, lo: bv8, v: bv16)
    requires v == hi as bv16 * 256 + lo as bv16
    ensures hi as nat * 256 + lo as nat == v as nat
  {
    SixteenBits(hi, lo);
  }

  // ---- reading ---------------------------------------------------------------

  /** A record while it is read: the effects so far, what is left of the stream,
      and what is left of the declared size, as a `uint16_t`. */
  datatype Cursor = Cursor(e: Effects, rest: Bytes, left: nat)

  /** A `uint16_t` after a subtraction. */
  function Less(left: nat, n: nat): (m: nat)
    ensures m < 0x1_0000
  {
    (left - n) % 0x1_0000
  }

  function GetShadow(s: Bytes): Option<Shadow> {
    if |s| < SHADOW_SIZE then None
    else Some(UnpackShadow(GetU32(s[..4]), GetU32(s[4..8]), GetU16(s[8..10])))
  }

  function GetGlow(s: Bytes): Option<Glow> {
    if |s| < GLOW_SIZE then None
    else Some(UnpackGlow(GetU32(s[..4]), GetU32(s[4..8])))
  }

  function GetLayer(s: Bytes): Option<Layer> {
    if |s| < LAYER_SIZE then None
    else Some(UnpackLayer(GetU32(s[..4]), s[4]))
  }

  function TakeDropShadow(c: Cursor): Option<Cursor> {
    if !c.e.HasDropShadow() then Some(c)
    else
      var x :- GetShadow(c.rest);
      Some(Cursor(c.e.(dropShadow := x), c.rest[SHADOW_SIZE..], Less(c.left, SHADOW_SIZE)))
  }

  function TakeOuterGlow(c: Cursor): Option<Cursor> {
    if !c.e.HasOuterGlow() then Some(c)
    else
      var x :- GetGlow(c.rest);
      Some(Cursor(c.e.(outerGlow := x), c.rest[GLOW_SIZE..], Less(c.left, GLOW_SIZE)))
  }

  function TakeInnerShadow(c: Cursor): Option<Cursor> {
    if !c.e.HasInnerShadow() then Some(c)
    else
      var x :- GetShadow(c.rest);
      Some(Cursor(c.e.(innerShadow := x), c.rest[SHADOW_SIZE..], Less(c.left, SHADOW_SIZE)))
  }

  function TakeInnerGlow(c: Cursor): Option<Cursor> {
    if !c.e.HasInnerGlow() then Some(c)
    else
      var x :- GetGlow(c.rest);
      Some(Cursor(c.e.(innerGlow := x), c.rest[GLOW_SIZE..], Less(c.left, GLOW_SIZE)))
  }

  function TakeColorOverlay(c: Cursor): Option<Cursor> {
    if !c.e.HasColorOverlay() then Some(c)
    else
      var x :- GetLayer(c.rest);
      Some(Cursor(c.e.(colorOverlay := x), c.rest[LAYER_SIZE..], Less(c.left, LAYER_SIZE)))
  }

  /** The fields, in the order they are read. */
  function TakeFields(c: Cursor): Option<Cursor> {
    var c1 :- TakeDropShadow(c);
    var c2 :- TakeOuterGlow(c1);
    var c3 :- TakeInnerShadow(c2);
    var c4 :- TakeInnerGlow(c3);
    TakeColorOverlay(c4)
  }

  function DeclaredSize(s: Bytes): (n: nat)
    requires |s| >= 4
    ensures n < 0x1_0000
  {
    Number(GetU16(s[..2]))
  }

  function DeclaredMask(s: Bytes): bv32
    requires |s| >= 4
  {
    GetU16(s[2..4]) as bv32
  }

  /** The state in which the fields are read. */
  function Opened(s: Bytes, init: Effects): Cursor
    requires |s| >= 4
  {
    Cursor(init.(mask := DeclaredMask(s)), s[4..], Less(DeclaredSize(s), 4))
  }

  /** Unpickling a stream: the effects, over what the new record happened to
      hold, and the stream behind the record. */
  function Unpickled(s: Bytes, init: Effects): Option<(Effects, Bytes)> {
    if |s| < 4 then None
    else
      var c :- TakeFields(Opened(s, init));
      if |c.rest| < c.left then None else Some((c.e, c.rest[c.left..]))
  }

  // ---- round trip --------------------------------------------------------------

  lemma GetShadowBytes(s: Bytes, x: Shadow, tail: Bytes)
    requires s == ShadowBytes(x) + tail
    ensures GetShadow(s) == Some(x) && s[SHADOW_SIZE..] == tail
  {
    hide U16, U32, GetU16, GetU32, PackShadowA, PackShadowB, UnpackShadow;
    assert s[..4] == U32(x.color) && s[4..8] == U32(PackShadowA(x)) && s[8..10] == U16(PackShadowB(x));
    U32RoundTrip(x.color);
    U32RoundTrip(PackShadowA(x));
    U16RoundTrip(PackShadowB(x));
    ShadowRoundTrip(x);
  }

  lemma GetGlowBytes(s: Bytes, x: Glow, tail: Bytes)
    requires s == GlowBytes(x) + tail
    ensures GetGlow(s) == Some(x) && s[GLOW_SIZE..] == tail
  {
    hide U32, GetU32, PackGlow, UnpackGlow;
    assert s[..4] == U32(x.color) && s[4..8] == U32(PackGlow(x));
    U32RoundTrip(x.color);
    U32RoundTrip(PackGlow(x));
    GlowRoundTrip(x);
  }

  lemma GetLayerBytes(s: Bytes, x: Layer, tail: Bytes)
    requires s == LayerBytes(x) + tail
    ensures GetLayer(s) == Some(x) && s[LAYER_SIZE..] == tail
  {
    hide U32, GetU32, PackLayer, UnpackLayer;
    assert s[..4] == U32(x.color) && s[4] == PackLayer(x);
    U32RoundTrip(x.color);
    LayerRoundTrip(x);
  }

  /** What reading a record gives: the low mask bits, and the present effects
      over whatever was there. */
  function Restored(e: Effects, init: Effects): Effects {
    Effects(LowBits(e.mask),
            Pick(e.HasDropShadow(), e.dropShadow, init.dropShadow),
            Pick(e.HasInnerShadow(), e.innerShadow, init.innerShadow),
            Pick(e.HasOuterGlow(), e.outerGlow, init.outerGlow),
            Pick(e.HasInnerGlow(), e.innerGlow, init.innerGlow),
            Pick(e.HasColorOverlay(), e.colorOverlay, init.colorOverlay))
  }

  predicate SamePresence(a: Effects, b: Effects) {
    && a.HasDropShadow() == b.HasDropShadow() && a.HasInnerShadow() == b.HasInnerShadow()
    && a.HasOuterGlow() == b.HasOuterGlow() && a.HasInnerGlow() == b.HasInnerGlow()
    && a.HasColorOverlay() == b.HasColorOverlay()
  }

  /** The low mask bits decide presence. */
  lemma LowBitsDecide(a: Effects, b: Effects)
    requires a.mask == LowBits(b.mask)
    ensures SamePresence(a, b)
  {
  }

  lemma OpenedPreamble(s: Bytes, size: nat, mask: bv32, tail: Bytes, init: Effects)
    requires size < 0x1_0000 && s == Preamble(size, mask) + tail
    ensures |s| >= 4 && DeclaredSize(s) == size && DeclaredMask(s) == LowBits(mask)
    ensures Opened(s, init) == Cursor(init.(mask := LowBits(mask)), tail, Less(size, 4))
  {
    hide U16, GetU16, Word, Number, LowWord;
    var low := LowWord(mask);
    assert s[..2] == U16(Word(size)) && s[2..4] == U16(low) && s[4..] == tail;
    U16RoundTrip(Word(size));
    U16RoundTrip(low);
    WordHolds(size);
  }

  lemma DropShadowTaken(c: Cursor, e: Effects, tail: Bytes)
    requires SamePresence(c.e, e) && c.left < 0x1_0000
    requires c.rest == Pick(e.HasDropShadow(), ShadowBytes(e.dropShadow), []) + tail
    requires SizeIf(e.HasDropShadow(), SHADOW_SIZE) <= c.left
    ensures TakeDropShadow(c)
         == Some(Cursor(c.e.(dropShadow := Pick(e.HasDropShadow(), e.dropShadow, c.e.dropShadow)), tail,
                        c.left - SizeIf(e.HasDropShadow(), SHADOW_SIZE)))
    ensures SamePresence(TakeDropShadow(c).value.e, e)
  {
    hide ShadowBytes, GlowBytes, LayerBytes, GetShadow, GetGlow, GetLayer;
    if e.HasDropShadow() {
      GetShadowBytes(c.rest, e.dropShadow, tail);
    } else {
      assert c.rest == tail;
    }
  }

  lemma OuterGlowTaken(c: Cursor, e: Effects, tail: Bytes)
    requires SamePresence(c.e, e) && c.left < 0x1_0000
    requires c.rest == Pick(e.HasOuterGlow(), GlowBytes(e.outerGlow), []) + tail
    requires SizeIf(e.HasOuterGlow(), GLOW_SIZE) <= c.left
    ensures TakeOuterGlow(c)
         == Some(Cursor(c.e.(outerGlow := Pick(e.HasOuterGlow(), e.outerGlow, c.e.outerGlow)), tail,
                        c.left - SizeIf(e.HasOuterGlow(), GLOW_SIZE)))
    ensures SamePresence(TakeOuterGlow(c).value.e, e)
  {
    hide ShadowBytes, GlowBytes, LayerBytes, GetShadow, GetGlow, GetLayer;
    if e.HasOuterGlow() {
      GetGlowBytes(c.rest, e.outerGlow, tail);
    } else {
      assert c.rest == tail;
    }
  }

  lemma InnerShadowTaken(c: Cursor, e: Effects, tail: Bytes)
    requires SamePresence(c.e, e) && c.left < 0x1_0000
    requires c.rest == Pick(e.HasInnerShadow(), ShadowBytes(e.innerShadow), []) + tail
    requires SizeIf(e.HasInnerShadow(), SHADOW_SIZE) <= c.left
    ensures TakeInnerShadow(c)
         == Some(Cursor(c.e.(innerShadow := Pick(e.HasInnerShadow(), e.innerShadow, c.e.innerShadow)), tail,
                        c.left - SizeIf(e.HasInnerShadow(), SHADOW_SIZE)))
    ensures SamePresence(TakeInnerShadow(c).value.e, e)
  {
    hide ShadowBytes, GlowBytes, LayerBytes, GetShadow, GetGlow, GetLayer;
    if e.HasInnerShadow() {
      GetShadowBytes(c.rest, e.innerShadow, tail);
    } else {
      assert c.rest == tail;
    }
  }

  lemma InnerGlowTaken(c: Cursor, e: Effects, tail: Bytes)
    requires SamePresence(c.e, e) && c.left < 0x1_0000
    requires c.rest == Pick(e.HasInnerGlow(), GlowBytes(e.innerGlow), []) + tail
    requires SizeIf(e.HasInnerGlow(), GLOW_SIZE) <= c.left
    ensures TakeInnerGlow(c)
         == Some(Cursor(c.e.(innerGlow := Pick(e.HasInnerGlow(), e.innerGlow, c.e.innerGlow)), tail,
                        c.left - SizeIf(e.HasInnerGlow(), GLOW_SIZE)))
    ensures SamePresence(TakeInnerGlow(c).value.e, e)
  {
    hide ShadowBytes, GlowBytes, LayerBytes, GetShadow, GetGlow, GetLayer;
    if e.HasInnerGlow() {
      GetGlowBytes(c.rest, e.innerGlow, tail);
    } else {
      assert c.rest == tail;
    }
  }

  lemma ColorOverlayTaken(c: Cursor, e: Effects, tail: Bytes)
    requires SamePresence(c.e, e) && c.left < 0x1_0000
    requires c.rest == Pick(e.HasColorOverlay(), LayerBytes(e.colorOverlay), []) + tail
    requires SizeIf(e.HasColorOverlay(), LAYER_SIZE) <= c.left
    ensures TakeColorOverlay(c)
         == Some(Cursor(c.e.(colorOverlay := Pick(e.HasColorOverlay(), e.colorOverlay, c.e.colorOverlay)), tail,
                        c.left - SizeIf(e.HasColorOverlay(), LAYER_SIZE)))
    ensures SamePresence(TakeColorOverlay(c).value.e, e)
  {
    hide ShadowBytes, GlowBytes, LayerBytes, GetShadow, GetGlow, GetLayer;
    if e.HasColorOverlay() {
      GetLayerBytes(c.rest, e.colorOverlay, tail);
    } else {
      assert c.rest == tail;
    }
  }

  lemma FieldsNest(e: Effects, tail: Bytes)
    ensures Fields(e) + tail
         == Pick(e.HasDropShadow(), ShadowBytes(e.dropShadow), [])
          + (Pick(e.HasOuterGlow(), GlowBytes(e.outerGlow), [])
          + (Pick(e.HasInnerShadow(), ShadowBytes(e.innerShadow), [])
          + (Pick(e.HasInnerGlow(), GlowBytes(e.innerGlow), [])
          + (Pick(e.HasColorOverlay(), LayerBytes(e.colorOverlay), []) + tail))))
  {
    hide Pick, ShadowBytes, GlowBytes, LayerBytes;
  }

  lemma FieldsTaken(c: Cursor, e: Effects, tail: Bytes)
    requires SamePresence(c.e, e) && c.rest == Fields(e) + tail && Weigh(e) - 4 <= c.left < 0x1_0000
    ensures TakeFields(c) == Some(Cursor(Restored(e, c.e).(mask := c.e.mask), tail, c.left - (Weigh(e) - 4)))
  {
    hide ShadowBytes, GlowBytes, LayerBytes, GetShadow, GetGlow, GetLayer, Fields,
      TakeDropShadow, TakeOuterGlow, TakeInnerShadow, TakeInnerGlow, TakeColorOverlay, SamePresence, Pick, SizeIf,
      Effects.HasDropShadow, Effects.HasInnerShadow, Effects.HasOuterGlow, Effects.HasInnerGlow,
        Effects.HasColorOverlay;
    var s5 := Pick(e.HasColorOverlay(), LayerBytes(e.colorOverlay), []) + tail;
    var s4 := Pick(e.HasInnerGlow(), GlowBytes(e.innerGlow), []) + s5;
    var s3 := Pick(e.HasInnerShadow(), ShadowBytes(e.innerShadow), []) + s4;
    var s2 := Pick(e.HasOuterGlow(), GlowBytes(e.outerGlow), []) + s3;
    FieldsNest(e, tail);
    DropShadowTaken(c, e, s2);
    var c1 := TakeDropShadow(c).value;
    OuterGlowTaken(c1, e, s3);
    var c2 := TakeOuterGlow(c1).value;
    InnerShadowTaken(c2, e, s4);
    var c3 := TakeInnerShadow(c2).value;
    InnerGlowTaken(c3, e, s5);
    ColorOverlayTaken(TakeInnerGlow(c3).value, e, tail);
  }

  lemma RecordParts(e: Effects, extra: Bytes, tail: Bytes)
    requires Weigh(e) + |extra| < 0x1_0000
    ensures Record(e, extra) + tail == Preamble(Weigh(e) + |extra|, e.mask) + (Fields(e) + (extra + tail))
  {
    hide Preamble, Fields, Weigh;
  }

  lemma RecordOpened(e: Effects, extra: Bytes, tail: Bytes, init: Effects)
    requires Weigh(e) + |extra| < 0x1_0000
    ensures var c := Opened(Record(e, extra) + tail, init);
            && c == Cursor(init.(mask := LowBits(e.mask)), Fields(e) + (extra + tail), Weigh(e) - 4 + |extra|)
            && SamePresence(c.e, e)
  {
    hide *;
    var size, rest := Weigh(e) + |extra|, Fields(e) + (extra + tail);
    RecordParts(e, extra, tail);
    OpenedPreamble(Record(e, extra) + tail, size, e.mask, rest, init);
    assert Less(size, 4) == size - 4 by {
      LessWhole(size, 4);
    }
    LowBitsDecide(init.(mask := LowBits(e.mask)), e);
  }

  lemma LessWhole(size: nat, n: nat)
    requires n <= size < 0x1_0000
    ensures Less(size, n) == size - n
  {
  }

  lemma RestoredOver(e: Effects, init: Effects, mask: bv32)
    requires mask == LowBits(e.mask)
    ensures Restored(e, init.(mask := mask)).(mask := mask) == Restored(e, init)
  {
    hide Pick;
  }

  lemma UnpickledFrom(s: Bytes, init: Effects, c: Cursor)
    requires |s| >= 4 && TakeFields(Opened(s, init)) == Some(c) && c.left <= |c.rest|
    ensures Unpickled(s, init) == Some((c.e, c.rest[c.left..]))
  {
    hide TakeFields, Opened;
  }

  /** A record gives back its mask and its present effects, and reading stops
      right behind it whatever a later version added to it. */
  lemma RecordRoundTrip(e: Effects, extra: Bytes, tail: Bytes, init: Effects)
    requires Weigh(e) + |extra| < 0x1_0000
    ensures Unpickled(Record(e, extra) + tail, init) == Some((Restored(e, init), tail))
  {
    hide *;
    var mask := LowBits(e.mask);
    RecordOpened(e, extra, tail, init);
    FieldsTaken(Opened(Record(e, extra) + tail, init), e, extra + tail);
    RestoredOver(e, init, mask);
    UnpickledFrom(Record(e, extra) + tail, init, Cursor(Restored(e, init), extra + tail, |extra|));
    assert (extra + tail)[|extra|..] == tail;
  }

  // ---- every stream ------------------------------------------------------------

  /** How many bytes reading takes: the declared size, or when that is less than
      the fields weigh, the declared size and a `uint16_t` round more. */
  function Extent(size: nat, weight: nat): (n: nat)
    ensures weight <= 0x1_0000 ==> n >= weight
  {
    if weight <= size then size else size + 0x1_0000
  }

  /** A reading step fails when the stream is short, and else takes `n` bytes
      from the stream and from the declared size. */
  predicate Takes(c: Cursor, r: Option<Cursor>, n: nat) {
    && (r.Some? <==> n <= |c.rest|)
    && (r.Some? ==> r.value.rest == c.rest[n..] && r.value.left == Less(c.left, n) && r.value.e.mask == c.e.mask)
  }

  lemma TakesCompose(c: Cursor, r: Option<Cursor>, n: nat, r': Option<Cursor>, n': nat)
    requires Takes(c, r, n) && (if r.None? then r'.None? else Takes(r.value, r', n'))
    ensures Takes(c, r', n + n')
  {
    if r.Some? && r'.Some? {
      assert c.rest[n..][n'..] == c.rest[n + n'..];
    }
  }

  lemma StepsTake(c: Cursor, e: Effects)
    requires c.left < 0x1_0000 && c.e.mask == e.mask
    ensures Takes(c, TakeDropShadow(c), SizeIf(e.HasDropShadow(), SHADOW_SIZE))
    ensures Takes(c, TakeOuterGlow(c), SizeIf(e.HasOuterGlow(), GLOW_SIZE))
    ensures Takes(c, TakeInnerShadow(c), SizeIf(e.HasInnerShadow(), SHADOW_SIZE))
    ensures Takes(c, TakeInnerGlow(c), SizeIf(e.HasInnerGlow(), GLOW_SIZE))
    ensures Takes(c, TakeColorOverlay(c), SizeIf(e.HasColorOverlay(), LAYER_SIZE))
  {
    hide UnpackShadow, UnpackGlow, UnpackLayer, GetU16, GetU32;
  }

  lemma TakesShort(c: Cursor, r: Option<Cursor>, n: nat, n': nat)
    requires Takes(c, r, n) && r.None? && n <= n'
    ensures Takes(c, r, n')
  {
  }

  lemma TakesOn(c: Cursor, r: Option<Cursor>, n: nat)
    requires Takes(c, r, n) && r.Some?
    ensures r.value.left < 0x1_0000 && r.value.e.mask == c.e.mask
  {
  }

  lemma FieldsTake(c: Cursor)
    requires c.left < 0x1_0000
    ensures Takes(c, TakeFields(c), Weigh(c.e) - 4)
  {
    hide Takes, SizeIf, TakeDropShadow, TakeOuterGlow, TakeInnerShadow, TakeInnerGlow, TakeColorOverlay,
      Effects.HasDropShadow, Effects.HasInnerShadow, Effects.HasOuterGlow, Effects.HasInnerGlow,
        Effects.HasColorOverlay;
    var n1, n2, n3, n4, n5 := SizeIf(c.e.HasDropShadow(), SHADOW_SIZE), SizeIf(c.e.HasOuterGlow(), GLOW_SIZE),
      SizeIf(c.e.HasInnerShadow(), SHADOW_SIZE), SizeIf(c.e.HasInnerGlow(), GLOW_SIZE), SizeIf(c.e.HasColorOverlay(),
        LAYER_SIZE);
    var total := n1 + n2 + n3 + n4 + n5;
    StepsTake(c, c.e);
    var r1 := TakeDropShadow(c);
    if r1.None? {
      TakesShort(c, r1, n1, total);
      return;
    }
    TakesOn(c, r1, n1);
    StepsTake(r1.value, c.e);
    var r2 := TakeOuterGlow(r1.value);
    TakesCompose(c, r1, n1, r2, n2);
    if r2.None? {
      TakesShort(c, r2, n1 + n2, total);
      return;
    }
    TakesOn(c, r2, n1 + n2);
    StepsTake(r2.value, c.e);
    var r3 := TakeInnerShadow(r2.value);
    TakesCompose(c, r2, n1 + n2, r3, n3);
    if r3.None? {
      TakesShort(c, r3, n1 + n2 + n3, total);
      return;
    }
    TakesOn(c, r3, n1 + n2 + n3);
    StepsTake(r3.value, c.e);
    var r4 := TakeInnerGlow(r3.value);
    TakesCompose(c, r3, n1 + n2 + n3, r4, n4);
    if r4.None? {
      TakesShort(c, r4, n1 + n2 + n3 + n4, total);
      return;
    }
    TakesOn(c, r4, n1 + n2 + n3 + n4);
    StepsTake(r4.value, c.e);
    TakesCompose(c, r4, n1 + n2 + n3 + n4, TakeColorOverlay(r4.value), n5);
  }

  /** What is left of the size when the fields have been read, is left of the extent. */
  lemma LeftOfExtent(size: nat, weight: nat)
    requires size < 0x1_0000 && 4 <= weight <= 45
    ensures Less(Less(size, 4), weight - 4) == Extent(size, weight) - weight
  {
    LessRound(size - 4, weight - 4);
  }

  lemma LessRound(a: int, b: int)
    ensures (a % 0x1_0000 - b) % 0x1_0000 == (a - b) % 0x1_0000
  {
    var q := a / 0x1_0000;
    assert a % 0x1_0000 - b == (a - b) - q * 0x1_0000;
  }

  /** Reading succeeds exactly when the stream holds the extent, and takes exactly that. */
  lemma UnpickledIff(s: Bytes, init: Effects)
    requires |s| >= 4
    ensures var n := Extent(DeclaredSize(s), Weigh(init.(mask := DeclaredMask(s))));
            && (Unpickled(s, init).Some? <==> n <= |s|)
            && (Unpickled(s, init).Some? ==> Unpickled(s, init).value.1 == s[n..])
  {
    hide TakeFields, Weigh, DeclaredSize, DeclaredMask;
    var c := Opened(s, init);
    var r := TakeFields(c);
    FieldsTake(c);
    LeftOfExtent(DeclaredSize(s), Weigh(c.e));
    hide Less;
  }
}
