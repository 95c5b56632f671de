/** `MCDeployCapsuleGenerate`: the sections of a capsule, written one after the
    other, and what reading them back gives. */
module CapsuleWrite {
  import opened Common
  import opened CapsuleFormat
  import opened Capsule

  /** The type of a section that holds the digest of everything before it. */
  const DIGEST := 2

  datatype Section = Section(kind: int, data: seq<byte>)

  /** A type has 31 bits, and a length can be padded in 32. */
  predicate Storable(s: Section) {
    0 <= s.kind < 0x8000_0000 && |s.data| <= PADDABLE
  }

  ghost predicate AllStorable(ss: seq<Section>) {
    forall k :: 0 <= k < |ss| ==> Storable(ss[k])
  }

  ghost predicate IsDigest(md5: seq<byte> -> seq<byte>) {
    forall d :: |md5(d)| == 16
  }

  /** A word in network order. */
  function WordBytes(w: int): (s: seq<byte>)
    requires 0 <= w < 0x1_0000_0000
    ensures |s| == 4
  {
    [w / 0x100_0000, w / 0x1_0000 % 0x100, w / 0x100 % 0x100, w % 0x100]
  }

  lemma WordValue(w: int)
    requires 0 <= w < 0x1_0000_0000
    ensures Value(WordBytes(w)) == w
  {
    var a, b, c := w / 0x100, w / 0x1_0000, w / 0x100_0000;
    assert w == a * 0x100 + w % 0x100;
    assert b == a / 0x100 && a == b * 0x100 + a % 0x100;
    assert c == b / 0x100 && b == c * 0x100 + b % 0x100;
    ValueOfFour(WordBytes(w));
  }

  predicate NeedsSecondWord(kind: int, length: int) {
    length >= 0x100_0000 || kind >= 128
  }

  function HeaderBytes(kind: int, length: int): (s: seq<byte>)
    requires 0 <= kind < 0x8000_0000 && 0 <= length < 0x1_0000_0000
    ensures |s| == if NeedsSecondWord(kind, length) then 8 else 4
  {
    if NeedsSecondWord(kind, length) then
      WordBytes(0x8000_0000 + kind % 0x80 * 0x100_0000 + length % 0x100_0000)
      + WordBytes(kind / 0x80 * 0x80 * 2 + length / 0x100_0000)
    else WordBytes(kind % 0x80 * 0x100_0000 + length % 0x100_0000)
  }

  function Zeros(n: nat): (s: seq<byte>)
    ensures |s| == n
  {
    seq<byte>(n, _ => 0)
  }

  lemma WholeWords(h: nat, n: nat)
    requires h == 4 || h == 8
    ensures (h + n + (4 - n % 4) % 4) % 4 == 0
  {
  }

  /** A section as it is written: header, data, and zeros up to a whole word. */
  function SectionBytes(kind: int, data: seq<byte>): (s: seq<byte>)
    requires 0 <= kind < 0x8000_0000 && |data| < 0x1_0000_0000
    ensures |s| % 4 == 0 && |s| > 0
  {
    WholeWords(|HeaderBytes(kind, |data|)|, |data|);
    HeaderBytes(kind, |data|) + data + Zeros((4 - |data| % 4) % 4)
  }

  /** What a section holds once d has been written. */
  function Content(md5: seq<byte> -> seq<byte>, d: seq<byte>, s: Section): seq<byte> {
    if s.kind == DIGEST then md5(d) else s.data
  }

  /** The capsule. */
  ghost function Written(md5: seq<byte> -> seq<byte>, ss: seq<Section>): seq<byte>
    requires IsDigest(md5) && AllStorable(ss)
  {
    if ss == [] then []
    else
      var d, s := Written(md5, ss[..|ss| - 1]), ss[|ss| - 1];
      assert Storable(s);
      d + SectionBytes(s.kind, Content(md5, d, s))
  }

  lemma {:induction false} WrittenLength(md5: seq<byte> -> seq<byte>, ss: seq<Section>)
    requires IsDigest(md5) && AllStorable(ss)
    ensures |Written(md5, ss)| % 4 == 0 && (ss == [] <==> Written(md5, ss) == [])
    decreases |ss|
  {
    if ss != [] {
      var n := |ss| - 1;
      assert Storable(ss[n]);
      WrittenLength(md5, ss[..n]);
      hide SectionBytes, Content;
      var d := Written(md5, ss[..n]);
      var b := SectionBytes(ss[n].kind, Content(md5, d, ss[n]));
      assert Written(md5, ss) == d + b;
      hide *;
      MoreWords(|d|, |b|);
    }
  }

  lemma MoreWords(a: nat, b: nat)
    requires a % 4 == 0 && b % 4 == 0
    ensures (a + b) % 4 == 0
  {
  }

  /** One more section. */
  lemma WrittenNext(md5: seq<byte> -> seq<byte>, ss: seq<Section>, i: nat)
    requires IsDigest(md5) && AllStorable(ss) && i < |ss|
    ensures Storable(ss[i]) && AllStorable(ss[..i]) && AllStorable(ss[..i + 1])
    ensures var d := Written(md5, ss[..i]);
            && |d| % 4 == 0
            && Written(md5, ss[..i + 1])
               == d + SectionBytes(ss[i].kind, if ss[i].kind == DIGEST then md5(d) else ss[i].data)
  {
    hide SectionBytes;
    assert ss[..i + 1][..i] == ss[..i];
    WrittenLength(md5, ss[..i]);
  }

  /** Counting on in 32 bits, and up to the next whole word. */
  lemma CountMore(total: nat, n: nat)
    ensures (total % 0x1_0000_0000 + n) % 0x1_0000_0000 == (total + n) % 0x1_0000_0000
  {
  }

  lemma CountUp(total: nat)
    ensures total % 0x1_0000_0000 % 4 == total % 4
    ensures total % 4 != 0 ==>
              (total % 0x1_0000_0000 + 3) / 4 * 4 % 0x1_0000_0000 == (total + (4 - total % 4)) % 0x1_0000_0000
  {
    var q, g := total / 0x1_0000_0000, total % 0x1_0000_0000;
    LowBits(q, g);
    NextWord(g);
    CountMore(total, 4 - total % 4);
  }

  lemma LowBits(q: nat, g: nat)
    ensures (q * 0x1_0000_0000 + g) % 4 == g % 4
  {
    assert q * 0x1_0000_0000 + g == 4 * (q * 0x4000_0000) + g;
  }

  lemma NextWord(g: nat)
    ensures g % 4 != 0 ==> (g + 3) / 4 * 4 == g + (4 - g % 4)
  {
  }

  /** `MCDeployCapsuleGenerate`, up to compressing and masking: a digest section
      is given the digest of what has been written, and `t_generated` counts the
      bytes in 32 bits. */
  method Generate(md5: seq<byte> -> seq<byte>, ss: seq<Section>) returns (out: seq<byte>)
    requires IsDigest(md5) && AllStorable(ss)
    ensures out == Written(md5, ss)
  {
    hide *;
    out := [];
    var t_generated := 0;
    NothingWritten(md5, ss);
    for i := 0 to |ss|
      invariant AllStorable(ss[..i]) && out == Written(md5, ss[..i])
      invariant t_generated == |out| % 0x1_0000_0000
    {
      var s := ss[i];
      WrittenNext(md5, ss, i);
      if s.kind == DIGEST {
        out, t_generated := WriteDigest(md5, out, t_generated);
      } else {
        out, t_generated := WriteData(out, t_generated, s);
      }
    }
    assert ss[..|ss|] == ss;
  }

  lemma DigestSection(d: seq<byte>, digest: seq<byte>)
    requires |digest| == 16
    ensures d + WordBytes(DIGEST * 0x100_0000 + 16) + digest == d + SectionBytes(DIGEST, digest)
  {
    assert SectionBytes(DIGEST, digest) == WordBytes(DIGEST * 0x100_0000 + 16) + digest + Zeros(0);
  }

  lemma NothingWritten(md5: seq<byte> -> seq<byte>, ss: seq<Section>)
    requires IsDigest(md5) && AllStorable(ss)
    ensures AllStorable(ss[..0]) && Written(md5, ss[..0]) == []
  {
  }

  /** A digest section: the digest of what has been written so far. */
  method WriteDigest(md5: seq<byte> -> seq<byte>, d: seq<byte>, generated: int)
    returns (out: seq<byte>, t_generated: int)
    requires IsDigest(md5) && generated == |d| % 0x1_0000_0000
    ensures out == d + SectionBytes(DIGEST, md5(d)) && t_generated == |out| % 0x1_0000_0000
  {
    var t_digest := md5(d);
    DigestSection(d, t_digest);
    hide SectionBytes, WordBytes;
    out := d + WordBytes(DIGEST * 0x100_0000 + 16) + t_digest;
    CountMore(|d|, 20);
    t_generated := (generated + 20) % 0x1_0000_0000;
  }

  /** One or two words, as type and length need. */
  method WriteHeader(kind: int, length: int) returns (h: seq<byte>)
    requires 0 <= kind < 0x8000_0000 && 0 <= length < 0x1_0000_0000
    ensures h == HeaderBytes(kind, length)
  {
    hide WordBytes;
    if length >= 0x100_0000 || kind >= 128 {
      h := WordBytes(0x8000_0000 + kind % 0x80 * 0x100_0000 + length % 0x100_0000)
           + WordBytes(kind / 0x80 * 0x80 * 2 + length / 0x100_0000);
    } else {
      h := WordBytes(kind % 0x80 * 0x100_0000 + length % 0x100_0000);
    }
  }

  /** Zeros up to the next whole word. */
  method WritePadding(d: seq<byte>, generated: int) returns (out: seq<byte>, t_generated: int)
    requires generated == |d| % 0x1_0000_0000
    ensures out == d + Zeros((4 - |d| % 4) % 4) && t_generated == |out| % 0x1_0000_0000
  {
    hide Zeros;
    out, t_generated := d, generated;
    CountUp(|d|);
    if t_generated % 4 != 0 {
      out := out + Zeros(4 - t_generated % 4);
      t_generated := (t_generated + 3) / 4 * 4 % 0x1_0000_0000;
    } else {
      assert Zeros(0) == [];
    }
  }

  /** A section whose data is supplied. */
  method WriteData(d: seq<byte>, generated: int, s: Section) returns (out: seq<byte>, t_generated: int)
    requires Storable(s) && |d| % 4 == 0 && generated == |d| % 0x1_0000_0000
    ensures out == d + SectionBytes(s.kind, s.data) && t_generated == |out| % 0x1_0000_0000
  {
    hide HeaderBytes, Zeros, NeedsSecondWord;
    var h := WriteHeader(s.kind, |s.data|);
    t_generated := (generated + |h|) % 0x1_0000_0000;
    CountMore(|d|, |h|);
    CountMore(|d + h|, |s.data|);
    PaddingIs(|d|, |h|, |s.data|);
    t_generated := (t_generated + |s.data|) % 0x1_0000_0000;
    out, t_generated := WritePadding(d + h + s.data, t_generated);
    assert d + h + s.data + Zeros((4 - |s.data| % 4) % 4) == d + (h + s.data + Zeros((4 - |s.data| % 4) % 4));
  }

  lemma PaddingIs(before: nat, h: nat, n: nat)
    requires before % 4 == 0 && (h == 4 || h == 8)
    ensures (before + h + n) % 4 == n % 4
  {
  }

  // ---- reading it back ----------------------------------------------------------

  lemma WordAt(d: seq<byte>, w: int, rest: seq<byte>)
    requires 0 <= w < 0x1_0000_0000
    ensures Word(d + WordBytes(w) + rest, |d|) == w
  {
    WordValue(w);
    ValueOfFour(WordBytes(w));
    var s := d + WordBytes(w) + rest;
    assert s[|d|] == WordBytes(w)[0] && s[|d| + 1] == WordBytes(w)[1];
    assert s[|d| + 2] == WordBytes(w)[2] && s[|d| + 3] == WordBytes(w)[3];
  }

  /** The two words hold type and length, whichever of them needs the second. */
  lemma UnpackPacked(kind: int, length: int)
    requires 0 <= kind < 0x8000_0000 && 0 <= length < 0x1_0000_0000
    ensures !NeedsSecondWord(kind, length) ==>
              Unpack(kind % 0x80 * 0x100_0000 + length % 0x100_0000, 0) == Header(kind, length, 4)
    ensures Unpack(0x8000_0000 + kind % 0x80 * 0x100_0000 + length % 0x100_0000,
                   kind / 0x80 * 0x80 * 2 + length / 0x100_0000) == Header(kind, length, 8)
  {
    var a, b := kind % 0x80, length % 0x100_0000;
    assert (a * 0x100_0000 + b) / 0x100_0000 == a && (a * 0x100_0000 + b) % 0x100_0000 == b;
    var c, e := kind / 0x80, length / 0x100_0000;
    assert c * 0x80 * 2 == c * 0x100;
    assert (c * 0x100 + e) / 0x100 == c && (c * 0x100 + e) % 0x100 == e;
  }

  lemma OneWordBack(d: seq<byte>, w: int, rest: seq<byte>)
    requires 0 <= w < 0x8000_0000
    ensures var s := d + WordBytes(w) + rest; HasHeader(s, |d|) && HeaderAt(s, |d|) == Unpack(w, 0)
  {
    WordAt(d, w, rest);
    hide WordBytes, Word, Unpack;
  }

  lemma TwoWordsBack(d: seq<byte>, h0: int, h1: int, rest: seq<byte>)
    requires 0x8000_0000 <= h0 < 0x1_0000_0000 && 0 <= h1 < 0x1_0000_0000
    ensures var s := d + (WordBytes(h0) + WordBytes(h1)) + rest; HasHeader(s, |d|) && HeaderAt(s, |d|) == Unpack(h0, h1)
  {
    var s := d + (WordBytes(h0) + WordBytes(h1)) + rest;
    WordAt(d, h0, WordBytes(h1) + rest);
    WordAt(d + WordBytes(h0), h1, rest);
    hide WordBytes, Word, Unpack;
    assert s == d + WordBytes(h0) + (WordBytes(h1) + rest) == (d + WordBytes(h0)) + WordBytes(h1) + rest;
  }

  lemma PackedFits(kind: int, length: int)
    requires 0 <= kind < 0x8000_0000 && 0 <= length < 0x1_0000_0000
    ensures 0 <= kind % 0x80 * 0x100_0000 + length % 0x100_0000 < 0x8000_0000
    ensures 0 <= kind / 0x80 * 0x80 * 2 + length / 0x100_0000 < 0x1_0000_0000
  {
  }

  /** A header reads back as what was written, wherever it stands. */
  lemma HeaderReadsBack(d: seq<byte>, kind: int, length: int, rest: seq<byte>)
    requires 0 <= kind < 0x8000_0000 && 0 <= length < 0x1_0000_0000
    ensures var s, n := d + HeaderBytes(kind, length) + rest, |HeaderBytes(kind, length)|;
            HasHeader(s, |d|) && HeaderAt(s, |d|) == Header(kind, length, n)
  {
    UnpackPacked(kind, length);
    PackedFits(kind, length);
    hide WordBytes, Word, Unpack, HasHeader, HeaderAt;
    if NeedsSecondWord(kind, length) {
      TwoWordsBack(d, 0x8000_0000 + kind % 0x80 * 0x100_0000 + length % 0x100_0000,
        kind / 0x80 * 0x80 * 2 + length / 0x100_0000, rest);
    } else {
      OneWordBack(d, kind % 0x80 * 0x100_0000 + length % 0x100_0000, rest);
    }
  }

  lemma SectionStarts(d: seq<byte>, kind: int, data: seq<byte>, n: nat)
    requires 0 <= kind < 0x8000_0000 && n <= |data| <= PADDABLE
    ensures var s, h := d + SectionBytes(kind, data), |HeaderBytes(kind, |data|)|;
            && HasHeader(s, |d|) && HeaderAt(s, |d|) == Header(kind, |data|, h)
            && |s| == |d| + h + Padded(|data|) && s[|d| + h..|d| + h + n] == data[..n]
  {
    var h, pad := HeaderBytes(kind, |data|), Zeros((4 - |data| % 4) % 4);
    assert d + SectionBytes(kind, data) == d + h + (data + pad);
    hide *;
    HeaderReadsBack(d, kind, |data|, data + pad);
    PaddedIs(|data|);
    DataBehind(d, h, data, pad, n);
  }

  lemma DataBehind(d: seq<byte>, h: seq<byte>, data: seq<byte>, pad: seq<byte>, n: nat)
    requires n <= |data|
    ensures (d + h + (data + pad))[|d| + |h|..|d| + |h| + n] == data[..n]
  {
  }

  /** Where a section stands, it is complete, and delivers its type, its length
      and as much of its data as is wanted. */
  lemma SectionReadsBack(client: Client, d: seq<byte>, kind: int, data: seq<byte>)
    requires 0 <= kind < 0x8000_0000 && |data| <= PADDABLE
    ensures var s := d + SectionBytes(kind, data);
            && client.IsComplete(s, |d|) && IsPaddable(s, |d|) && |d| + SizeAt(s, |d|) == |s|
            && client.DeliveryAt(s, |d|)
               == Delivery(client.DigestAt(s, |d|), kind, |data|, data[..Min(client.wants(kind, |data|), |data|)])
  {
    SectionStarts(d, kind, data, Min(client.wants(kind, |data|), |data|));
    var s := d + SectionBytes(kind, data);
    hide HasHeader, HeaderAt, HeaderBytes, SectionBytes, Padded, Client.DigestAt;
    client.ReadableIs(s, |d|);
  }

  lemma PaddedIs(length: nat)
    requires length <= PADDABLE
    ensures Padded(length) == length + (4 - length % 4) % 4
  {
  }

  /** What the callback is to be given of a capsule. */
  ghost function Expected(client: Client, ss: seq<Section>): (out: seq<Delivery>)
    requires IsDigest(client.md5) && AllStorable(ss)
    ensures |out| == |ss|
  {
    if ss == [] then []
    else
      var n := |ss| - 1;
      var d := Written(client.md5, ss[..n]);
      Expected(client, ss[..n]) + [ExpectedOf(client, d, n == 0, ss[n])]
  }

  /** Of a section behind d: its type and its data, and the digest of d. */
  function ExpectedOf(client: Client, d: seq<byte>, first: bool, s: Section): Delivery {
    var content := Content(client.md5, d, s);
    Delivery(if first then Zeros(16) else client.md5(d), s.kind, |content|,
             content[..Min(client.wants(s.kind, |content|), |content|)])
  }

  lemma NextDelivers(client: Client, d: seq<byte>, out: seq<Delivery>, s: Section)
    requires IsDigest(client.md5) && Storable(s)
    requires client.Delivered(d, |d|, out) && client.AllPaddable(d, |out|)
    ensures var w := d + SectionBytes(s.kind, Content(client.md5, d, s));
            && client.Delivered(w, |w|, out + [ExpectedOf(client, d, d == [], s)])
            && client.AllPaddable(w, |out| + 1)
  {
    var content := Content(client.md5, d, s);
    assert |content| <= PADDABLE;
    var b := SectionBytes(s.kind, content);
    var w := d + b;
    SectionReadsBack(client, d, s.kind, content);
    DigestBehind(client, d, b);
    hide SectionBytes, Client.Delivered, Client.AllPaddable, Client.IsComplete, IsPaddable, SizeAt, Client.DeliveryAt,
      Client.DigestAt;
    client.DeliveredStays(d, b, |d|, out);
    client.DeliveredNext(w, |d|, out);
    client.PaddableNext(w, |d|, out);
  }

  lemma DigestBehind(client: Client, d: seq<byte>, b: seq<byte>)
    ensures client.DigestAt(d + b, |d|) == if d == [] then Zeros(16) else client.md5(d)
  {
    assert (d + b)[..|d|] == d;
    assert Zeros(16) == seq<byte>(16, _ => 0);
  }

  /** One more section written is one more delivery to be expected. */
  lemma ExpectedNext(client: Client, ss: seq<Section>)
    requires IsDigest(client.md5) && AllStorable(ss) && ss != []
    ensures var n := |ss| - 1;
            && AllStorable(ss[..n]) && Storable(ss[n])
            && var d := Written(client.md5, ss[..n]);
               && Written(client.md5, ss) == d + SectionBytes(ss[n].kind, Content(client.md5, d, ss[n]))
               && Expected(client, ss) == Expected(client, ss[..n]) + [ExpectedOf(client, d, d == [], ss[n])]
  {
    WrittenLength(client.md5, ss[..|ss| - 1]);
    hide SectionBytes, ExpectedOf, Content;
    assert Storable(ss[|ss| - 1]);
  }

  lemma NothingDelivered(client: Client)
    requires IsDigest(client.md5)
    ensures var w := Written(client.md5, []);
            client.Delivered(w, |w|, Expected(client, [])) && client.AllPaddable(w, 0)
  {
  }

  lemma {:induction false} WrittenDelivers(client: Client, ss: seq<Section>)
    requires IsDigest(client.md5) && AllStorable(ss)
    ensures var w := Written(client.md5, ss);
            client.Delivered(w, |w|, Expected(client, ss)) && client.AllPaddable(w, |ss|)
    decreases |ss|
  {
    hide *;
    if ss == [] {
      NothingDelivered(client);
    } else {
      var n := |ss| - 1;
      ExpectedNext(client, ss);
      WrittenDelivers(client, ss[..n]);
      NextDelivers(client, Written(client.md5, ss[..n]), Expected(client, ss[..n]), ss[n]);
    }
  }

  /** The law of writer and reader: a written capsule is accepted, and the
      callback gets every section with its type and its data, and the digest of
      everything before it. */
  lemma WrittenReadsBack(client: Client, ss: seq<Section>)
    requires IsDigest(client.md5) && AllStorable(ss)
    ensures var w := Written(client.md5, ss); Ends(client, w, 0) && client.OneShot(w, 0) == Expected(client, ss)
  {
    var w, out := Written(client.md5, ss), Expected(client, ss);
    WrittenDelivers(client, ss);
    hide Written, Expected, Ends, Client.OneShot, Client.FirstSections, Client.IsComplete;
    EndsFromStart(client, w, |out|);
    NothingAtEnd(client, w);
    client.DeliveredThenRest(w, |w|, out);
    NothingAfterEnd(client, w);
  }

  /** End to end: a generated capsule, cut in two anywhere, is read in pieces. */
  method GenerateThenRead(client: Client, ss: seq<Section>, cut: nat) returns (ok: bool, out: seq<Delivery>)
    requires IsDigest(client.md5) && AllStorable(ss) && cut <= |Written(client.md5, ss)|
    ensures ok && out == Expected(client, ss)
  {
    hide *;
    var w := Generate(client.md5, ss);
    WrittenReadsBack(client, ss);
    InTwo(w, cut);
    ok, out := ReadInPieces(client, [w[..cut], w[cut..]]);
  }

  lemma InTwo(w: seq<byte>, cut: nat)
    requires cut <= |w|
    ensures Concat([w[..cut], w[cut..]]) == w
  {
    assert [w[..cut], w[cut..]][..1] == [w[..cut]];
    assert Concat([w[..cut]]) == Concat([]) + w[..cut];
  }

  lemma {:induction false} ExpectedAt(client: Client, ss: seq<Section>, k: nat)
    requires IsDigest(client.md5) && AllStorable(ss) && k < |ss|
    ensures Expected(client, ss)[k] == ExpectedOf(client, Written(client.md5, ss[..k]), k == 0, ss[k])
    decreases |ss|
  {
    hide ExpectedOf, Written;
    var n := |ss| - 1;
    if k < n {
      ExpectedAt(client, ss[..n], k);
      assert ss[..n][..k] == ss[..k];
    }
  }

  /** The callback compares what a digest section holds with the digest it is
      given: they agree for every digest section but one at the very start. */
  lemma DigestsAgreeIff(client: Client, ss: seq<Section>, k: nat)
    requires IsDigest(client.md5) && AllStorable(ss) && k < |ss|
    requires ss[k].kind == 2 && client.wants(2, 16) >= 16
    ensures var e := Expected(client, ss)[k];
            && e.kind == 2 && e.length == 16
            && (e.data == e.digest <==> 0 < k || client.md5([]) == Zeros(16))
  {
    ExpectedAt(client, ss, k);
    var d := Written(client.md5, ss[..k]);
    assert client.md5(d)[..16] == client.md5(d);
  }
}
