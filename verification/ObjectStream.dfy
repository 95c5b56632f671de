/** The buffered streams that objects are pickled to and from: unsigned numbers
    in network byte order, through a buffer of 16384 bytes. */
module ObjectStream {

  type Bytes = seq<bv8>

  const BUFFER_SIZE := 16384

  function U16(v: bv16): (s: Bytes)
    ensures |s| == 2
  {
    [(v >> 8) as bv8, (v & 0xff) as bv8]
  }

  function U32(v: bv32): (s: Bytes)
    ensures |s| == 4
  {
    [(v >> 24) as bv8, ((v >> 16) & 0xff) as bv8, ((v >> 8) & 0xff) as bv8, (v & 0xff) as bv8]
  }

  function GetU16(s: Bytes): bv16
    requires |s| == 2
  {
    (s[0] as bv16 << 8) | s[1] as bv16
  }

  function GetU32(s: Bytes): bv32
    requires |s| == 4
  {
    (s[0] as bv32 << 24) | (s[1] as bv32 << 16) | (s[2] as bv32 << 8) | s[3] as bv32
  }

  lemma U16RoundTrip(v: bv16)
    ensures GetU16(U16(v)) == v
  {
  }

  lemma U32RoundTrip(v: bv32)
    ensures GetU32(U32(v)) == v
  {
  }

  /** The word a byte string of up to four bytes stands for, most significant byte
      first: every byte counts 256 times the one behind it. */
  function BigEndian(s: Bytes): bv32 {
    if s == [] then 0 else BigEndian(s[..|s| - 1]) * 256 + s[|s| - 1] as bv32
  }

  lemma BigEndianNext(s: Bytes)
    ensures BigEndian([]) == 0
    ensures s != [] ==> BigEndian(s) == BigEndian(s[..|s| - 1]) * 256 + s[|s| - 1] as bv32
  {
  }

  lemma BigEndianOfTwo(s: Bytes)
    requires |s| == 2
    ensures BigEndian(s) == s[0] as bv32 * 256 + s[1] as bv32
  {
    BigEndianNext(s);
    BigEndianNext(s[..1]);
    hide BigEndian;
    assert s[..1][..0] == [];
    OnePlace(s[0]);
  }

  lemma OnePlace(a: bv8)
    ensures (0 as bv32) * 256 + a as bv32 == a as bv32
  {
  }

  lemma BigEndianOfFour(s: Bytes)
    requires |s| == 4
    ensures BigEndian(s) == s[0] as bv32 * 0x100_0000 + s[1] as bv32 * 0x1_0000 + s[2] as bv32 * 256 + s[3] as bv32
  {
    BigEndianNext(s);
    BigEndianNext(s[..3]);
    BigEndianOfTwo(s[..2]);
    hide BigEndian;
    assert s[..3][..2] == s[..2];
    FourPlaces(s[0], s[1], s[2], s[3]);
  }

  lemma FourPlaces(a: bv8, b: bv8, c: bv8, d: bv8)
    ensures ((a as bv32 * 256 + b as bv32) * 256 + c as bv32) * 256 + d as bv32
            == a as bv32 * 0x100_0000 + b as bv32 * 0x1_0000 + c as bv32 * 256 + d as bv32
  {
  }

  function HalfWord(s: Bytes): bv16
    requires |s| == 2
  {
    s[0] as bv16 * 256 + s[1] as bv16
  }

  /** Both directions are network byte order. */
  lemma U16Order(v: bv16, s: Bytes)
    requires |s| == 2
    ensures HalfWord(U16(v)) == v && GetU16(s) == HalfWord(s)
  {
  }

  lemma U32Order(v: bv32, s: Bytes)
    requires |s| == 4
    ensures BigEndian(U32(v)) == v && GetU32(s) == BigEndian(s)
  {
    BigEndianOfFour(U32(v));
    BigEndianOfFour(s);
    hide BigEndian;
  }

  /** The number a `uint16_t` holds, and the `uint16_t` for a number: by hexadecimal digits. */
  function Number(v: bv16): (n: nat)
    ensures n < 0x1_0000
  {
    Digits((v >> 12) as bv4 as nat, ((v >> 8) & 15) as bv4 as nat, ((v >> 4) & 15) as bv4 as nat,
      (v & 15) as bv4 as nat)
  }

  function Digits(a: nat, b: nat, c: nat, d: nat): (n: nat)
    requires a < 16 && b < 16 && c < 16 && d < 16
    ensures n < 0x1_0000
  {
    a * 0x1000 + b * 0x100 + c * 0x10 + d
  }

  function Word(n: nat): bv16
    requires n < 0x1_0000
  {
    Join((n / 16 / 16 / 16) as bv4, (n / 16 / 16 % 16) as bv4, (n / 16 % 16) as bv4, (n % 16) as bv4)
  }

  function Join(a: bv4, b: bv4, c: bv4, d: bv4): bv16 {
    (a as bv16 << 12) | (b as bv16 << 8) | (c as bv16 << 4) | d as bv16
  }

  lemma JoinSplits(a: bv4, b: bv4, c: bv4, d: bv4)
    ensures var v := Join(a, b, c, d);
            (v >> 12) as bv4 == a && ((v >> 8) & 15) as bv4 == b && ((v >> 4) & 15) as bv4 == c && (v & 15) as bv4 == d
  {
  }

  lemma EightBits(a: bv4, b: bv4)
    ensures (a as bv8 * 16 + b as bv8) as nat == a as nat * 16 + b as nat
  {
  }

  lemma SixteenBits(a: bv8, b: bv8)
    ensures (a as bv16 * 256 + b as bv16) as nat == a as nat * 256 + b as nat
  {
  }

  lemma DigitsJoined(v: bv16)
    ensures var a, b, c, d := (v >> 12) as bv4, ((v >> 8) & 15) as bv4, ((v >> 4) & 15) as bv4, (v & 15) as bv4;
            v == (a as bv8 * 16 + b as bv8) as bv16 * 256 + (c as bv8 * 16 + d as bv8) as bv16
  {
  }

  lemma DigitsNumber(a: bv4, b: bv4, c: bv4, d: bv4)
    ensures ((a as bv8 * 16 + b as bv8) as bv16 * 256 + (c as bv8 * 16 + d as bv8) as bv16) as nat
            == a as nat * 0x1000 + b as nat * 0x100 + c as nat * 0x10 + d as nat
  {
    EightBits(a, b);
    EightBits(c, d);
    SixteenBits(a as bv8 * 16 + b as bv8, c as bv8 * 16 + d as bv8);
  }

  lemma Nibbles(v: bv16) returns (a: bv4, b: bv4, c: bv4, d: bv4)
    ensures v == (a as bv8 * 16 + b as bv8) as bv16 * 256 + (c as bv8 * 16 + d as bv8) as bv16
    ensures Number(v) == a as nat * 0x1000 + b as nat * 0x100 + c as nat * 0x10 + d as nat
  {
    a, b, c, d := (v >> 12) as bv4, ((v >> 8) & 15) as bv4, ((v >> 4) & 15) as bv4, (v & 15) as bv4;
    DigitsJoined(v);
    hide Number;
    NumberDigits(v, a, b, c, d);
  }

  lemma NumberDigits(v: bv16, a: bv4, b: bv4, c: bv4, d: bv4)
    requires a == (v >> 12) as bv4 && b == ((v >> 8) & 15) as bv4 && c == ((v >> 4) & 15) as bv4 && d == (v & 15) as bv4
    ensures Number(v) == a as nat * 0x1000 + b as nat * 0x100 + c as nat * 0x10 + d as nat
  {
  }

  /** The number is the one the bits stand for. */
  lemma NumberIs(v: bv16)
    ensures Number(v) == v as nat
  {
    hide *;
    var a, b, c, d := Nibbles(v);
    DigitsNumber(a, b, c, d);
  }

  lemma DigitKept(n: nat)
    requires n < 16
    ensures (n as bv4) as nat == n
  {
  }

  lemma DigitsOf(n: nat)
    requires n < 0x1_0000
    ensures Digits(n / 16 / 16 / 16, n / 16 / 16 % 16, n / 16 % 16, n % 16) == n
  {
  }

  lemma WordHolds(n: nat)
    requires n < 0x1_0000
    ensures Number(Word(n)) == n
  {
    hide Join, Digits;
    var a, b, c, d := n / 16 / 16 / 16, n / 16 / 16 % 16, n / 16 % 16, n % 16;
    JoinSplits(a as bv4, b as bv4, c as bv4, d as bv4);
    DigitKept(a);
    DigitKept(b);
    DigitKept(c);
    DigitKept(d);
    DigitsOf(n);
  }

  lemma Regroup(all: Bytes, a: Bytes, b: Bytes, c: Bytes)
    requires all == a + (b + c)
    ensures all == (a + b) + c
  {
  }

  /** `MCObjectOutputStream`: bytes gather in a buffer that is written out when full. */
  class ObjectOutputStream {
    var written: Bytes
    const buffer: array<bv8>
    var frontier: nat

    ghost predicate Valid()
      reads this
    {
      buffer.Length == BUFFER_SIZE && frontier <= BUFFER_SIZE
    }

    ghost function Contents(): Bytes
      requires Valid()
      reads this, buffer
    {
      written + buffer[..frontier]
    }

    constructor ()
      ensures Valid() && fresh(buffer) && Contents() == []
    {
      written := [];
      buffer := new bv8[BUFFER_SIZE];
      frontier := 0;
    }

    method Flush()
      requires Valid()
      modifies this
      ensures Valid() && frontier == 0 && Contents() == written == old(Contents())
    {
      written := written + buffer[..frontier];
      frontier := 0;
    }

    method Write(s: Bytes)
      requires Valid()
      modifies this, buffer
      ensures Valid() && Contents() == old(Contents()) + s
    {
      hide Contents;
      ghost var before := Contents();
      assert before + [] == before && s[..0] == [];
      var i := 0;
      while i < |s|
        invariant 0 <= i <= |s| && Valid()
        invariant Contents() == before + s[..i]
      {
        if frontier == BUFFER_SIZE {
          Flush();
        }
        var amount := if BUFFER_SIZE - frontier < |s| - i then BUFFER_SIZE - frontier else |s| - i;
        Copy(s[i..i + amount]);
        assert s[..i + amount] == s[..i] + s[i..i + amount];
        i := i + amount;
      }
      assert s[..i] == s;
    }

    /** One `memcpy` to the frontier. */
    method Copy(s: Bytes)
      requires Valid() && frontier + |s| <= BUFFER_SIZE
      modifies this`frontier, buffer
      ensures Valid() && Contents() == old(Contents()) + s
    {
      ghost var before := buffer[..frontier];
      forall k | 0 <= k < |s| {
        buffer[frontier + k] := s[k];
      }
      frontier := frontier + |s|;
      assert buffer[..frontier] == before + s;
    }

    method WriteU8(v: bv8)
      requires Valid()
      modifies this, buffer
      ensures Valid() && Contents() == old(Contents()) + [v]
    {
      Write([v]);
    }

    method WriteU16(v: bv16)
      requires Valid()
      modifies this, buffer
      ensures Valid() && Contents() == old(Contents()) + U16(v)
    {
      Write(U16(v));
    }

    method WriteU32(v: bv32)
      requires Valid()
      modifies this, buffer
      ensures Valid() && Contents() == old(Contents()) + U32(v)
    {
      Write(U32(v));
    }
  }

  /** `MCObjectInputStream`: `source` is the declared data the handle still holds. */
  class ObjectInputStream {
    var source: Bytes
    const buffer: array<bv8>
    var frontier: nat
    var limit: nat

    ghost predicate Valid()
      reads this
    {
      buffer.Length == BUFFER_SIZE && frontier <= limit <= BUFFER_SIZE
    }

    /** What is still to be read. */
    ghost function Rest(): Bytes
      requires Valid()
      reads this, buffer
    {
      buffer[frontier..limit] + source
    }

    constructor (s: Bytes)
      ensures Valid() && fresh(buffer) && Rest() == s
    {
      source := s;
      buffer := new bv8[BUFFER_SIZE];
      frontier, limit := 0, 0;
    }

    /** Refills the empty buffer; fails at the end of the data. */
    method Fill() returns (ok: bool)
      requires Valid() && frontier == limit
      modifies this, buffer
      ensures Valid() && Rest() == old(Rest())
      ensures ok <==> Rest() != []
      ensures ok ==> frontier < limit
    {
      if source == [] {
        return false;
      }
      var available := if |source| < BUFFER_SIZE then |source| else BUFFER_SIZE;
      forall k | 0 <= k < available {
        buffer[k] := source[k];
      }
      frontier, limit := 0, available;
      assert buffer[..available] == source[..available];
      assert source == source[..available] + source[available..];
      source := source[available..];
      return true;
    }

    /** Reading `amount` bytes, whatever the buffer holds when it starts; the
        source passes no buffer to skip them. A read past the end uses up the data. */
    method Read(amount: nat) returns (ok: bool, s: Bytes)
      requires Valid()
      modifies this, buffer
      ensures Valid()
      ensures ok <==> amount <= |old(Rest())|
      ensures ok ==> s == old(Rest())[..amount] && Rest() == old(Rest())[amount..]
      ensures !ok ==> Rest() == []
    {
      hide Rest;
      s := [];
      ghost var all := Rest();
      var left: nat := amount;
      while left > 0
        invariant Valid() && |s| + left == amount
        invariant all == s + Rest()
      {
        if limit == frontier {
          ok := Fill();
          if !ok {
            return;
          }
        }
        var available := if limit - frontier < left then limit - frontier else left;
        var part := Take(available);
        Regroup(all, s, part, Rest());
        s := s + part;
        left := left - available;
      }
      assert all[..amount] == s && all[amount..] == Rest();
      ok := true;
    }

    /** One `memcpy` from the frontier. */
    method Take(available: nat) returns (s: Bytes)
      requires Valid() && frontier + available <= limit
      modifies this`frontier
      ensures Valid() && |s| == available && old(Rest()) == s + Rest()
    {
      s := buffer[frontier..frontier + available];
      ghost var before := buffer[frontier..limit];
      frontier := frontier + available;
      assert before == s + buffer[frontier..limit];
      Regroup(old(Rest()), [], s, Rest());
    }

    method ReadU8() returns (ok: bool, v: bv8)
      requires Valid()
      modifies this, buffer
      ensures Valid()
      ensures ok <==> 1 <= |old(Rest())|
      ensures ok ==> v == old(Rest())[0] && Rest() == old(Rest())[1..]
      ensures !ok ==> Rest() == []
    {
      var s;
      ok, s := Read(1);
      v := if ok then s[0] else 0;
    }

    method ReadU16() returns (ok: bool, v: bv16)
      requires Valid()
      modifies this, buffer
      ensures Valid()
      ensures ok <==> 2 <= |old(Rest())|
      ensures ok ==> v == GetU16(old(Rest())[..2]) && Rest() == old(Rest())[2..]
      ensures !ok ==> Rest() == []
    {
      var s;
      ok, s := Read(2);
      v := if ok then GetU16(s) else 0;
    }

    method ReadU32() returns (ok: bool, v: bv32)
      requires Valid()
      modifies this, buffer
      ensures Valid()
      ensures ok <==> 4 <= |old(Rest())|
      ensures ok ==> v == GetU32(old(Rest())[..4]) && Rest() == old(Rest())[4..]
      ensures !ok ==> Rest() == []
    {
      var s;
      ok, s := Read(4);
      v := if ok then GetU32(s) else 0;
    }
  }
}
