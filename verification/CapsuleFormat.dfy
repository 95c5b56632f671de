/** The sections of a capsule, and reading them all at once. */
module CapsuleFormat {
  import opened Common

  /** A big-endian 32-bit word. */
  function Word(d: seq<byte>, at: nat): (w: int)
    requires at + 4 <= |d|
    ensures 0 <= w < 0x1_0000_0000
  {
    (d[at] as int) * 0x100_0000 + (d[at + 1] as int) * 0x1_0000 + (d[at + 2] as int) * 0x100 + d[at + 3] as int
  }

  datatype Header = Header(kind: int, length: nat, size: nat)

  /** Length and kind share the first word; the top bit announces a second. */
  function Unpack(h0: int, h1: int): (h: Header)
    requires 0 <= h0 < 0x1_0000_0000 && 0 <= h1 < 0x1_0000_0000
    ensures h.length < 0x1_0000_0000 && (h.size == 4 || h.size == 8)
  {
    var kind, length := h0 / 0x100_0000 % 0x80, h0 % 0x100_0000;
    if h0 < 0x8000_0000 then Header(kind, length, 4)
    else Header(kind + h1 / 0x100 * 0x80, length + h1 % 0x100 * 0x100_0000, 8)
  }

  /** Whether all of a header is there. */
  predicate HasHeader(d: seq<byte>, at: nat) {
    at + 4 <= |d| && (Word(d, at) >= 0x8000_0000 ==> at + 8 <= |d|)
  }

  function HeaderAt(d: seq<byte>, at: nat): (h: Header)
    requires HasHeader(d, at)
    ensures h.length < 0x1_0000_0000 && (h.size == 4 || h.size == 8)
  {
    Unpack(Word(d, at), if Word(d, at) >= 0x8000_0000 then Word(d, at + 4) else 0)
  }

  /** The header on the bytes: the first byte is the low end of the type, with the
      bit for a second word; three bytes of length follow; a second word is three
      bytes more of type, and a last one of length. */
  lemma HeaderMeans(d: seq<byte>, at: nat)
    ensures HasHeader(d, at) <==> at + 4 <= |d| && (d[at] >= 0x80 ==> at + 8 <= |d|)
    ensures HasHeader(d, at) && d[at] < 0x80 ==>
              HeaderAt(d, at) == Header(d[at] as int, Value(d[at + 1..at + 4]), 4)
    ensures HasHeader(d, at) && d[at] >= 0x80 ==>
              HeaderAt(d, at) == Header((d[at] as int) - 0x80 + 0x80 * Value(d[at + 4..at + 7]),
                                        Value(d[at + 1..at + 4]) + 0x100_0000 * d[at + 7] as int, 8)
  {
    if at + 4 <= |d| {
      WordMeans(d, at);
      hide Word, Unpack, Value;
      if at + 8 <= |d| { WordMeans(d, at + 4); }
      if HasHeader(d, at) {
        UnpackMeans(d[at] as int, Value(d[at + 1..at + 4]), if at + 8 <= |d| then Value(d[at + 4..at + 7]) else 0,
          if at + 8 <= |d| then d[at + 7] as int else 0);
      }
    }
  }

  lemma WordMeans(d: seq<byte>, at: nat)
    requires at + 4 <= |d|
    ensures Word(d, at) == (d[at] as int) * 0x100_0000 + Value(d[at + 1..at + 4])
    ensures Word(d, at) == Value(d[at..at + 3]) * 0x100 + d[at + 3] as int
    ensures Value(d[at + 1..at + 4]) < 0x100_0000 && Value(d[at..at + 3]) < 0x100_0000
  {
    ValueOfThree(d[at + 1..at + 4]);
    ValueOfThree(d[at..at + 3]);
    hide Value;
  }

  lemma UnpackMeans(a: int, b: int, c: int, e: int)
    requires 0 <= a < 256 && 0 <= b < 0x100_0000 && 0 <= c < 0x100_0000 && 0 <= e < 256
    ensures Unpack(a * 0x100_0000 + b, c * 0x100 + e)
            == if a < 0x80 then Header(a, b, 4) else Header(a - 0x80 + 0x80 * c, b + 0x100_0000 * e, 8)
    ensures a < 0x80 ==> Unpack(a * 0x100_0000 + b, 0) == Header(a, b, 4)
  {
    assert (a * 0x100_0000 + b) / 0x100_0000 == a && (a * 0x100_0000 + b) % 0x100_0000 == b;
    assert (c * 0x100 + e) / 0x100 == c && (c * 0x100 + e) % 0x100 == e;
  }

  /** The longest section that can be padded in 32 bits. */
  const PADDABLE := 0xFFFF_FFFC

  /** Sections are padded to whole words, in 32-bit arithmetic. */
  function Padded(length: nat): (p: nat)
    ensures length <= PADDABLE ==> length <= p < length + 4
    ensures PADDABLE < length < 0x1_0000_0000 ==> p == 0
  {
    (length + 3) % 0x1_0000_0000 / 4 * 4
  }

  function SizeAt(d: seq<byte>, at: nat): (n: nat)
    requires HasHeader(d, at)
    ensures 4 <= n
  {
    HeaderAt(d, at).size + Padded(HeaderAt(d, at).length)
  }

  /** The section that starts at a position can be padded. */
  predicate IsPaddable(d: seq<byte>, at: nat) {
    HasHeader(d, at) && HeaderAt(d, at).length <= PADDABLE
  }

  /** What the callback is given of a section, and has read of it. */
  datatype Delivery = Delivery(digest: seq<byte>, kind: int, length: nat, data: seq<byte>)

  /** A digest function, and how much of each kind of section is read. */
  datatype Client = Client(md5: seq<byte> -> seq<byte>, wants: (int, nat) -> nat)
  {
    function Wanted(h: Header): nat {
      if wants(h.kind, h.length) <= h.length then wants(h.kind, h.length) else h.length
    }

    /** The digest of everything before a position; none before the start. */
    function DigestAt(d: seq<byte>, at: nat): seq<byte>
      requires at <= |d|
    {
      if at == 0 then seq<byte>(16, _ => 0) else md5(d[..at])
    }

    /** What the callback gets of what it wants, with this data. */
    function Readable(d: seq<byte>, at: nat): (n: nat)
      requires HasHeader(d, at)
      ensures at + HeaderAt(d, at).size + n <= |d|
    {
      Min(Wanted(HeaderAt(d, at)), |d| - at - HeaderAt(d, at).size)
    }

    /** Whether the section that starts at a position is there to its last byte.
        One that cannot be padded is taken to be its header, and to be there if
        nothing of it is read. */
    predicate IsComplete(d: seq<byte>, at: nat) {
      HasHeader(d, at) && at + SizeAt(d, at) <= |d| && (IsPaddable(d, at) || Readable(d, at) == 0)
    }

    function DeliveryAt(d: seq<byte>, at: nat): Delivery
      requires IsComplete(d, at)
    {
      var h := HeaderAt(d, at);
      Delivery(DigestAt(d, at), h.kind, h.length, d[at + h.size..at + h.size + Readable(d, at)])
    }

    lemma ReadableIs(d: seq<byte>, at: nat)
      requires IsPaddable(d, at) && at + SizeAt(d, at) <= |d|
      ensures Readable(d, at) == Wanted(HeaderAt(d, at)) && IsComplete(d, at)
    {
      hide Padded;
    }

    /** Reading a capsule at once, from a section start on. */
    function OneShot(d: seq<byte>, at: nat): seq<Delivery>
      decreases |d| - at
    {
      if IsComplete(d, at) then [DeliveryAt(d, at)] + OneShot(d, at + SizeAt(d, at)) else []
    }

    /** The start of section k, if the k sections before it are complete. */
    ghost predicate Reached(d: seq<byte>, k: nat)
      decreases k, 0
    {
      k == 0 || (Reached(d, k - 1) && IsComplete(d, Start(d, k - 1)))
    }

    ghost function Start(d: seq<byte>, k: nat): nat
      requires Reached(d, k)
      decreases k, 1
    {
      if k == 0 then 0 else Start(d, k - 1) + SizeAt(d, Start(d, k - 1))
    }

    /** The first k sections, as they are delivered one after the other. */
    ghost function FirstSections(d: seq<byte>, k: nat): (out: seq<Delivery>)
      requires Reached(d, k)
      ensures |out| == k
    {
      if k == 0 then [] else FirstSections(d, k - 1) + [DeliveryAt(d, Start(d, k - 1))]
    }

    /** A boundary reached by whole sections, and what has been delivered then. */
    ghost predicate Delivered(d: seq<byte>, at: nat, out: seq<Delivery>) {
      Reached(d, |out|) && at == Start(d, |out|) && out == FirstSections(d, |out|)
    }

    lemma DeliveredNext(d: seq<byte>, at: nat, out: seq<Delivery>)
      requires Delivered(d, at, out) && IsComplete(d, at)
      ensures Delivered(d, at + SizeAt(d, at), out + [DeliveryAt(d, at)])
    {
      hide Client.IsComplete, SizeAt, Client.DeliveryAt;
    }

    lemma FirstStep(d: seq<byte>, k: nat)
      requires k > 0 && Reached(d, k)
      ensures Reached(d, k - 1) && IsComplete(d, Start(d, k - 1))
      ensures FirstSections(d, k) == FirstSections(d, k - 1) + [DeliveryAt(d, Start(d, k - 1))]
      ensures OneShot(d, Start(d, k - 1)) == [DeliveryAt(d, Start(d, k - 1))] + OneShot(d, Start(d, k))
    {
      hide Client.IsComplete, SizeAt, Client.DeliveryAt;
    }

    /** Delivering section by section is reading at once. */
    lemma {:induction false} SectionsThenRest(d: seq<byte>, k: nat)
      requires Reached(d, k)
      ensures FirstSections(d, k) + OneShot(d, Start(d, k)) == OneShot(d, 0)
    {
      hide *;
      if k == 0 {
        NoSections(d);
      } else {
        FirstStep(d, k);
        SectionsThenRest(d, k - 1);
        var before, x, rest := FirstSections(d, k - 1), DeliveryAt(d, Start(d, k - 1)), OneShot(d, Start(d, k));
        assert (before + [x]) + rest == before + ([x] + rest);
      }
    }

    lemma NoSections(d: seq<byte>)
      ensures Reached(d, 0) && FirstSections(d, 0) + OneShot(d, Start(d, 0)) == OneShot(d, 0)
    {
    }

    lemma DeliveredThenRest(d: seq<byte>, at: nat, out: seq<Delivery>)
      requires Delivered(d, at, out)
      ensures out + OneShot(d, at) == OneShot(d, 0)
    {
      SectionsThenRest(d, |out|);
    }

    /** The first k sections are complete, and none of them too long to be padded. */
    ghost predicate AllPaddable(d: seq<byte>, k: nat)
      decreases k
    {
      k == 0
      || (AllPaddable(d, k - 1) && Reached(d, k - 1)
          && IsComplete(d, Start(d, k - 1)) && IsPaddable(d, Start(d, k - 1)))
    }

    /** More data behind a section changes nothing about it, if it can be padded. */
    lemma SectionStays(d: seq<byte>, more: seq<byte>, at: nat)
      requires IsComplete(d, at) && IsPaddable(d, at)
      ensures IsComplete(d + more, at) && IsPaddable(d + more, at) && SizeAt(d + more, at) == SizeAt(d, at)
      ensures DeliveryAt(d + more, at) == DeliveryAt(d, at)
    {
      HeaderStays(d, more, at);
      ReadableIs(d, at);
      ReadableIs(d + more, at);
      hide HasHeader, HeaderAt, Padded;
      var h := HeaderAt(d, at);
      assert (d + more)[at + h.size..at + h.size + Wanted(h)] == d[at + h.size..at + h.size + Wanted(h)];
      assert (d + more)[..at] == d[..at];
    }

    /** Everything behind the header of a section is what it delivers, padding apart. */
    lemma HeldDelivery(d: seq<byte>, more: seq<byte>, at: nat, held: seq<byte>, digest: seq<byte>)
      requires IsPaddable(d, at) && |d| == at + SizeAt(d, at)
      requires held == d[at + HeaderAt(d, at).size..] && digest == DigestAt(d, at)
      ensures IsComplete(d + more, at) && IsPaddable(d + more, at) && SizeAt(d + more, at) == SizeAt(d, at)
      ensures var h := HeaderAt(d, at);
              Wanted(h) <= |held| && Delivery(digest, h.kind, h.length, held[..Wanted(h)]) == DeliveryAt(d + more, at)
    {
      hide HasHeader, HeaderAt, Padded, Client.DigestAt;
      ReadableIs(d, at);
      SectionStays(d, more, at);
      var h := HeaderAt(d, at);
      assert held[..Wanted(h)] == d[at + h.size..at + h.size + Wanted(h)];
    }

    static lemma HeaderStays(d: seq<byte>, more: seq<byte>, at: nat)
      requires HasHeader(d, at)
      ensures HasHeader(d + more, at) && HeaderAt(d + more, at) == HeaderAt(d, at)
    {
      assert Word(d + more, at) == Word(d, at);
    }

    lemma {:induction false} SectionsStay(d: seq<byte>, more: seq<byte>, k: nat)
      requires Reached(d, k) && AllPaddable(d, k)
      ensures Reached(d + more, k) && AllPaddable(d + more, k)
      ensures Start(d + more, k) == Start(d, k) && FirstSections(d + more, k) == FirstSections(d, k)
    {
      hide Client.IsComplete, IsPaddable, SizeAt, Client.DeliveryAt;
      if k > 0 {
        SectionsStay(d, more, k - 1);
        SectionStays(d, more, Start(d, k - 1));
      }
    }

    /** What has been delivered was there before the data behind it. */
    lemma SectionWithin(d: seq<byte>, more: seq<byte>, at: nat)
      requires IsComplete(d + more, at) && IsPaddable(d + more, at) && at + SizeAt(d + more, at) <= |d|
      ensures IsComplete(d, at) && SizeAt(d, at) == SizeAt(d + more, at)
      ensures DeliveryAt(d, at) == DeliveryAt(d + more, at)
    {
      HeaderWithin(d, more, at);
      hide HasHeader, HeaderAt, Padded, Client.DeliveryAt;
      ReadableIs(d, at);
      SectionStays(d, more, at);
    }

    static lemma HeaderWithin(d: seq<byte>, more: seq<byte>, at: nat)
      requires HasHeader(d + more, at) && at + HeaderAt(d + more, at).size <= |d|
      ensures HasHeader(d, at) && HeaderAt(d, at) == HeaderAt(d + more, at)
    {
      assert Word(d + more, at) == Word(d, at);
      HeaderStays(d, more, at);
    }

    lemma {:induction false} SectionsWithin(d: seq<byte>, more: seq<byte>, k: nat)
      requires Reached(d + more, k) && AllPaddable(d + more, k) && Start(d + more, k) <= |d|
      ensures Reached(d, k) && Start(d, k) == Start(d + more, k) && FirstSections(d, k) == FirstSections(d + more, k)
    {
      hide Client.IsComplete, IsPaddable, SizeAt, Client.DeliveryAt;
      if k > 0 {
        SectionsWithin(d, more, k - 1);
        SectionWithin(d, more, Start(d, k - 1));
      }
    }

    lemma DeliveredWithin(d: seq<byte>, more: seq<byte>, at: nat, out: seq<Delivery>)
      requires Delivered(d + more, at, out) && AllPaddable(d + more, |out|) && at <= |d|
      ensures Delivered(d, at, out)
    {
      SectionsWithin(d, more, |out|);
    }

    lemma DeliveredStays(d: seq<byte>, more: seq<byte>, at: nat, out: seq<Delivery>)
      requires Delivered(d, at, out) && AllPaddable(d, |out|)
      ensures Delivered(d + more, at, out) && AllPaddable(d + more, |out|)
    {
      SectionsStay(d, more, |out|);
    }

    lemma PaddableNext(d: seq<byte>, at: nat, out: seq<Delivery>)
      requires Delivered(d, at, out) && AllPaddable(d, |out|) && IsComplete(d, at) && IsPaddable(d, at)
      ensures AllPaddable(d, |out| + 1)
    {
    }
  }
}
