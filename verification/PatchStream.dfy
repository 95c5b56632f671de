/** The streams a patch is written to and read from, and its layout in bytes. */
module PatchStream {
  import opened Common

  const TWO_32 := 0x1_0000_0000

  /** A value as it survives being passed as an int32_t. */
  function Int32(v: int): int {
    var u := v % TWO_32;
    if u < 0x8000_0000 then u else u - TWO_32
  }

  predicate IsInt32(v: int) {
    -0x8000_0000 <= v < 0x8000_0000
  }

  /** Four bytes, most significant first. */
  function Encode(v: int): (s: seq<byte>)
    ensures |s| == 4
  {
    var u := v % TWO_32;
    [u / 0x100_0000, u / 0x1_0000 % 0x100, u / 0x100 % 0x100, u % 0x100]
  }

  function Decode(s: seq<byte>): (v: int)
    requires |s| == 4
    ensures IsInt32(v)
  {
    Int32((s[0] as int) * 0x100_0000 + (s[1] as int) * 0x1_0000 + (s[2] as int) * 0x100 + s[3] as int)
  }

  lemma DecodeEncode(v: int)
    ensures Decode(Encode(v)) == Int32(v)
    ensures IsInt32(v) ==> Int32(v) == v
  {
    FourBytes(v % TWO_32);
    Int32Again(v);
  }

  lemma FourBytes(u: nat)
    ensures u == u / 0x100_0000 * 0x100_0000 + u / 0x1_0000 % 0x100 * 0x1_0000 + u / 0x100 % 0x100 * 0x100 + u % 0x100
  {
    var a, b, c := u / 0x100, u / 0x1_0000, u / 0x100_0000;
    assert u == a * 0x100 + u % 0x100;
    assert b == a / 0x100 && a == b * 0x100 + a % 0x100;
    assert c == b / 0x100 && b == c * 0x100 + b % 0x100;
  }

  lemma Int32Again(v: int)
    ensures Int32(v % TWO_32) == Int32(v) && Int32(Int32(v)) == Int32(v)
    ensures IsInt32(v) ==> Int32(v) == v
  {
  }

  /** Network byte order: the four bytes stand for the value modulo 2^32. */
  lemma EncodeValue(v: int)
    ensures Value(Encode(v)) == v % TWO_32
  {
    FourBytes(v % TWO_32);
    ValueOfFour(Encode(v));
  }

  /** Read back they are the int32_t that differs by a multiple of 2^32. */
  lemma DecodeValue(s: seq<byte>)
    requires |s| == 4
    ensures IsInt32(Decode(s)) && (Decode(s) == Value(s) || Decode(s) == Value(s) - TWO_32)
    ensures Decode(s) == Int32(Value(s))
  {
    ValueOfFour(s);
  }

  function EncodeAll(vs: seq<int>): (s: seq<byte>)
    ensures |s| == 4 * |vs|
  {
    if vs == [] then [] else EncodeAll(vs[..|vs| - 1]) + Encode(vs[|vs| - 1])
  }

  function DecodeAll(s: seq<byte>, n: nat): (vs: seq<int>)
    requires 4 * n <= |s|
    ensures |vs| == n
  {
    if n == 0 then [] else DecodeAll(s, n - 1) + [Decode(s[4 * n - 4..4 * n])]
  }

  lemma {:induction false} DecodeEncodeAll(vs: seq<int>, rest: seq<byte>)
    requires forall i :: 0 <= i < |vs| ==> IsInt32(vs[i])
    ensures DecodeAll(EncodeAll(vs) + rest, |vs|) == vs
    decreases |vs|
  {
    hide Encode, Decode, DecodeAll, EncodeAll, Int32;
    var n := |vs| - 1;
    if vs == [] {
      NothingDecoded(rest);
    } else {
      DecodeEncodeAll(vs[..n], Encode(vs[n]) + rest);
      LastEncoded(vs, rest);
      DecodeEncode(vs[n]);
      assert vs == vs[..n] + [vs[n]];
    }
  }

  lemma NothingDecoded(rest: seq<byte>)
    ensures DecodeAll(EncodeAll([]) + rest, 0) == []
  {
  }

  lemma LastEncoded(vs: seq<int>, rest: seq<byte>)
    requires vs != []
    ensures var n := |vs| - 1;
            DecodeAll(EncodeAll(vs) + rest, |vs|)
            == DecodeAll(EncodeAll(vs[..n]) + (Encode(vs[n]) + rest), n) + [Decode(Encode(vs[n]))]
  {
    hide Encode, Decode;
    var n := |vs| - 1;
    assert EncodeAll(vs) + rest == EncodeAll(vs[..n]) + (Encode(vs[n]) + rest);
    assert (EncodeAll(vs) + rest)[4 * n..4 * n + 4] == Encode(vs[n]);
  }

  lemma EncodeAllAppend(vs: seq<int>, v: int)
    ensures EncodeAll(vs + [v]) == EncodeAll(vs) + Encode(v)
  {
    assert (vs + [v])[..|vs|] == vs;
  }

  lemma {:induction false} EncodeAllValue(vs: seq<int>, k: nat)
    requires k < |vs|
    ensures Value(EncodeAll(vs)[4 * k..4 * k + 4]) == vs[k] % TWO_32
    decreases |vs|
  {
    hide Encode, Value;
    var n := |vs| - 1;
    if k < n {
      EncodeAllValue(vs[..n], k);
      assert EncodeAll(vs)[4 * k..4 * k + 4] == EncodeAll(vs[..n])[4 * k..4 * k + 4];
    } else {
      EncodeValue(vs[k]);
      assert EncodeAll(vs)[4 * k..4 * k + 4] == Encode(vs[k]);
    }
  }

  lemma {:induction false} DecodeAllValue(s: seq<byte>, n: nat, k: nat)
    requires 4 * n <= |s| && k < n
    ensures DecodeAll(s, n)[k] == Int32(Value(s[4 * k..4 * k + 4]))
    decreases n
  {
    hide Decode, Value, Int32;
    if k < n - 1 { DecodeAllValue(s, n - 1, k); } else { DecodeValue(s[4 * k..4 * k + 4]); }
  }

  /** A patch once it has been read: the control values in groups of three. */
  datatype Patch = Patch(control: seq<int>, diff: seq<byte>, extra: seq<byte>, newSize: int)

  function Header(control: int, diff: int, extra: int, newSize: int): (s: seq<byte>)
    ensures |s| == 16
  {
    Encode(control) + Encode(diff) + Encode(extra) + Encode(newSize)
  }

  /** The bytes of a patch, in the order they stand in the file. */
  function Layout(p: Patch): seq<byte> {
    Header(4 * |p.control|, |p.diff|, |p.extra|, p.newSize) + EncodeAll(p.control) + p.diff + p.extra
  }

  /** Reading a patch: fails when the stream is too short for the sizes it
      declares.  A negative number of elements is one no array can be allocated
      for; a control size of -1 to -3 is none, as division truncates. */
  function Parse(s: seq<byte>): Option<Patch> {
    if |s| < 16 then None
    else
      var control, diff, extra, newSize := Decode(s[0..4]), Decode(s[4..8]), Decode(s[8..12]), Decode(s[12..16]);
      if control <= -4 || diff < 0 || extra < 0 || newSize < 0 then None
      else Body(s[16..], Max(control, 0) / 4, diff, extra, newSize)
  }

  function Body(rest: seq<byte>, n: nat, diff: nat, extra: nat, newSize: nat): Option<Patch> {
    if |rest| < 4 * n + diff + extra then None
    else Some(Patch(DecodeAll(rest, n), rest[4 * n..4 * n + diff], rest[4 * n + diff..4 * n + diff + extra], newSize))
  }

  predicate Storable(p: Patch) {
    && (forall i :: 0 <= i < |p.control| ==> IsInt32(p.control[i]))
    && 4 * |p.control| < 0x8000_0000 && |p.diff| < 0x8000_0000 && |p.extra| < 0x8000_0000
      && 0 <= p.newSize < 0x8000_0000
  }

  lemma HeaderFields(s: seq<byte>, a: int, b: int, c: int, d: int, rest: seq<byte>)
    requires s == Header(a, b, c, d) + rest
    requires IsInt32(a) && IsInt32(b) && IsInt32(c) && IsInt32(d)
    ensures |s| >= 16 && s[16..] == rest
    ensures Decode(s[0..4]) == a && Decode(s[4..8]) == b && Decode(s[8..12]) == c && Decode(s[12..16]) == d
  {
    assert s[0..4] == Encode(a) && s[4..8] == Encode(b) && s[8..12] == Encode(c) && s[12..16] == Encode(d);
    DecodeEncode(a);
    DecodeEncode(b);
    DecodeEncode(c);
    DecodeEncode(d);
  }

  lemma BodyLayout(p: Patch)
    requires Storable(p)
    ensures Body(EncodeAll(p.control) + p.diff + p.extra, |p.control|, |p.diff|, |p.extra|, p.newSize) == Some(p)
  {
    hide Encode, Decode, EncodeAll, DecodeAll;
    var n := |p.control|;
    var rest := EncodeAll(p.control) + p.diff + p.extra;
    assert rest == EncodeAll(p.control) + (p.diff + p.extra);
    DecodeEncodeAll(p.control, p.diff + p.extra);
    assert rest[4 * n..4 * n + |p.diff|] == p.diff;
    assert rest[4 * n + |p.diff|..4 * n + |p.diff| + |p.extra|] == p.extra;
  }

  /** The layout can be read back. */
  lemma ParseLayout(p: Patch)
    requires Storable(p)
    ensures Parse(Layout(p)) == Some(p)
  {
    hide Encode, Decode, EncodeAll, DecodeAll, Header, Body;
    var n := |p.control|;
    var rest := EncodeAll(p.control) + p.diff + p.extra;
    var s := Layout(p);
    assert s == Header(4 * n, |p.diff|, |p.extra|, p.newSize) + rest;
    HeaderFields(s, 4 * n, |p.diff|, |p.extra|, p.newSize, rest);
    BodyLayout(p);
  }

  /** The file, byte for byte: sizes of the control block, the difference bytes
      and the extra bytes, then the new size, then the three parts. */
  lemma LayoutBytes(p: Patch)
    ensures var s, n, d, e := Layout(p), 4 * |p.control|, |p.diff|, |p.extra|;
            && |s| == 16 + n + d + e
            && Value(s[0..4]) == n % TWO_32 && Value(s[4..8]) == d % TWO_32
            && Value(s[8..12]) == e % TWO_32 && Value(s[12..16]) == p.newSize % TWO_32
            && (forall k :: 0 <= k < |p.control| ==>
                  Value(s[16 + 4 * k..20 + 4 * k]) == p.control[k] % TWO_32)
            && s[16 + n..16 + n + d] == p.diff && s[16 + n + d..] == p.extra
  {
    hide Encode, EncodeAll, Value;
    var s, n, d, e := Layout(p), 4 * |p.control|, |p.diff|, |p.extra|;
    assert s[0..4] == Encode(n) && s[4..8] == Encode(d) && s[8..12] == Encode(e) && s[12..16] == Encode(p.newSize);
    EncodeValue(n);
    EncodeValue(d);
    EncodeValue(e);
    EncodeValue(p.newSize);
    forall k | 0 <= k < |p.control| ensures Value(s[16 + 4 * k..20 + 4 * k]) == p.control[k] % TWO_32 {
      EncodeAllValue(p.control, k);
      assert s[16 + 4 * k..20 + 4 * k] == EncodeAll(p.control)[4 * k..4 * k + 4];
    }
  }

  /** What is read from a file behind its header, byte for byte. */
  ghost predicate ReadFrom(s: seq<byte>, n: nat, d: nat, e: nat, p: Patch)
    requires 16 + 4 * n + d + e <= |s|
  {
    && |p.control| == n
    && (forall k :: 0 <= k < n ==> p.control[k] == Int32(Value(s[16 + 4 * k..20 + 4 * k])))
    && p.diff == s[16 + 4 * n..16 + 4 * n + d] && p.extra == s[16 + 4 * n + d..16 + 4 * n + d + e]
  }

  lemma BodyBytes(s: seq<byte>, n: nat, d: nat, e: nat, newSize: nat)
    requires |s| >= 16
    ensures Body(s[16..], n, d, e, newSize).Some? <==> 16 + 4 * n + d + e <= |s|
    ensures 16 + 4 * n + d + e <= |s| ==>
              var p := Body(s[16..], n, d, e, newSize).value; ReadFrom(s, n, d, e, p) && p.newSize == newSize
  {
    hide Decode, DecodeAll, Value, Int32;
    if 16 + 4 * n + d + e <= |s| {
      var rest := s[16..];
      forall k | 0 <= k < n ensures DecodeAll(rest, n)[k] == Int32(Value(s[16 + 4 * k..20 + 4 * k])) {
        DecodeAllValue(rest, n, k);
        BehindHeader(s, 4 * k, 4 * k + 4);
      }
      BehindHeader(s, 4 * n, 4 * n + d);
      BehindHeader(s, 4 * n + d, 4 * n + d + e);
    }
  }

  lemma BehindHeader(s: seq<byte>, i: nat, j: nat)
    requires i <= j && 16 + j <= |s|
    ensures s[16..][i..j] == s[16 + i..16 + j]
  {
  }

  /** Which files can be read, and what is read from them: four sizes, then the
      control values, the difference bytes and the extra bytes. */
  lemma ParseBytes(s: seq<byte>)
    ensures |s| < 16 ==> Parse(s) == None
    ensures |s| >= 16 ==>
              var control, d, e, newSize :=
                Int32(Value(s[0..4])), Int32(Value(s[4..8])), Int32(Value(s[8..12])), Int32(Value(s[12..16]));
              var n := Max(control, 0) / 4;
              && (Parse(s).Some? <==>
                    -4 < control && 0 <= d && 0 <= e && 0 <= newSize && 16 + 4 * n + d + e <= |s|)
              && (Parse(s).Some? ==> ReadFrom(s, n, d, e, Parse(s).value) && Parse(s).value.newSize == newSize)
  {
    hide Decode, Body, ReadFrom, Value, Int32;
    if |s| >= 16 {
      var control, d, e, newSize := Decode(s[0..4]), Decode(s[4..8]), Decode(s[8..12]), Decode(s[12..16]);
      DecodeValue(s[0..4]);
      DecodeValue(s[4..8]);
      DecodeValue(s[8..12]);
      DecodeValue(s[12..16]);
      if 0 <= d && 0 <= e && 0 <= newSize { BodyBytes(s, Max(control, 0) / 4, d, e, newSize); }
    }
  }

  /** The contents after writing s at a position, over what is there. */
  function Overwrite(d: seq<byte>, pos: nat, s: seq<byte>): (r: seq<byte>)
    requires pos <= |d|
    ensures |r| >= pos + |s| && r[..pos] == d[..pos] && r[pos..pos + |s|] == s
    ensures pos + |s| <= |d| ==> |r| == |d| && r[pos + |s|..] == d[pos + |s|..]
  {
    d[..pos] + s + if pos + |s| <= |d| then d[pos + |s|..] else []
  }

  lemma OverwriteAtEnd(d: seq<byte>, s: seq<byte>)
    ensures Overwrite(d, |d|, s) == d + s
  {
    if s == [] { assert Overwrite(d, |d|, s) == d; }
  }

  /** Filling in the first three header values once they are known. */
  lemma OverwriteHeader(n: int, rest: seq<byte>, a: int, b: int, c: int)
    ensures Overwrite(Overwrite(Overwrite(Header(0, 0, 0, n) + rest, 0, Encode(a)), 4, Encode(b)), 8, Encode(c))
             == Header(a, b, c, n) + rest
  {
    var d0 := Header(0, 0, 0, n) + rest;
    var tail := Encode(n) + rest;
    hide Encode;
    assert d0 == Encode(0) + (Encode(0) + Encode(0) + tail);
    var d1 := Overwrite(d0, 0, Encode(a));
    assert d1 == Encode(a) + Encode(0) + (Encode(0) + tail);
    var d2 := Overwrite(d1, 4, Encode(b));
    assert d2 == Encode(a) + Encode(b) + Encode(0) + tail;
    var d3 := Overwrite(d2, 8, Encode(c));
    assert d3 == Encode(a) + Encode(b) + Encode(c) + tail;
  }

  class OutputStream {
    var data: seq<byte>
    var pos: nat

    predicate Valid()
      reads this
    {
      pos <= |data|
    }

    constructor ()
      ensures Valid() && data == [] && pos == 0
    {
      data, pos := [], 0;
    }

    method Rewind()
      requires Valid()
      modifies this
      ensures Valid() && pos == 0 && data == old(data)
    {
      pos := 0;
    }

    method WriteBytes(s: seq<byte>)
      requires Valid()
      modifies this
      ensures Valid() && pos == old(pos) + |s| && data == Overwrite(old(data), old(pos), s)
    {
      data := Overwrite(data, pos, s);
      pos := pos + |s|;
    }

    method WriteInt32(v: int)
      requires Valid()
      modifies this
      ensures Valid() && pos == old(pos) + 4 && data == Overwrite(old(data), old(pos), Encode(v))
    {
      WriteBytes(Encode(v));
    }
  }

  class InputStream {
    const data: seq<byte>
    var ptr: nat

    predicate Valid()
      reads this
    {
      ptr <= |data|
    }

    constructor (contents: seq<byte>)
      ensures Valid() && data == contents && ptr == 0
    {
      data := contents;
      ptr := 0;
    }

    function Rest(): (r: seq<byte>)
      requires Valid()
      reads this
      ensures |r| == |data| - ptr
    {
      data[ptr..]
    }

    method Measure() returns (size: nat)
      ensures size == |data|
    {
      size := |data|;
    }

    method ReadInt32() returns (ok: bool, v: int)
      requires Valid()
      modifies this
      ensures Valid() && ok == (old(|Rest()|) >= 4)
      ensures ok ==> v == Decode(old(Rest())[..4]) && ptr == old(ptr) + 4 && Rest() == old(Rest())[4..]
      ensures !ok ==> ptr == old(ptr)
    {
      if |data| - ptr < 4 {
        return false, 0;
      }
      ok, v := true, Decode(data[ptr..ptr + 4]);
      ptr := ptr + 4;
    }

    method ReadBytes(count: nat) returns (ok: bool, s: seq<byte>)
      requires Valid()
      modifies this
      ensures Valid() && ok == (old(|Rest()|) >= count)
      ensures ok ==> s == old(Rest())[..count] && ptr == old(ptr) + count && Rest() == old(Rest())[count..]
      ensures !ok ==> ptr == old(ptr)
    {
      if |data| - ptr < count {
        return false, [];
      }
      ok, s := true, data[ptr..ptr + count];
      ptr := ptr + count;
    }
  }
}
