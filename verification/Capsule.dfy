/** `MCCapsule`: the section parser, fed piece by piece. */
module Capsule {
  import opened Common
  import opened CapsuleFormat

  /** The largest section that is buffered before all data is there. */
  const LIMIT := 1024 * 1024

  /** What may have been buffered of the section at a boundary: some of its
      first word, of its header, or of the section if it is not a long one. */
  ghost predicate Buffered(d: seq<byte>, at: nat) {
    at <= |d| &&
    (|d| <= at + 4 || (Word(d, at) >= 0x8000_0000 && |d| <= at + 8) || (IsShort(d, at) && |d| <= at + SizeAt(d, at)))
  }

  predicate IsShort(d: seq<byte>, at: nat) {
    HasHeader(d, at) && HeaderAt(d, at).length <= LIMIT
  }

  /** A section that blocks parsing until all data is there. */
  predicate IsLong(d: seq<byte>, at: nat) {
    HasHeader(d, at) && HeaderAt(d, at).length > LIMIT
  }

  /** The data is whole sections to the end. */
  predicate Ends(client: Client, d: seq<byte>, at: nat)
    decreases |d| - at
  {
    if client.IsComplete(d, at) then Ends(client, d, at + SizeAt(d, at)) else at == |d|
  }

  class Capsule {
    const client: Client
    ghost var input: seq<byte>      // all data filled so far, decompressed
    ghost var boundary: nat         // where the section being parsed starts
    ghost var blocked_at: nat       // where the section starts that has blocked parsing
    var buckets: seq<byte>          // the data not yet read
    var buckets_complete: bool
    var ready: nat                  // how much of the input can be decompressed by now
    var blocked: bool
    var output_buffer: array<byte>
    var output_frontier: nat
    var digested: seq<byte>         // what the digest stream has been given
    var last_digest: seq<byte>
    var stream_length: nat
    var stream_offset: nat
    var deliveries: seq<Delivery>   // what the callback has been given

    /** What is read is what can be decompressed by now; in the end that is all. */
    ghost predicate InReach()
      reads `input, `digested, `ready, `buckets_complete
    {
      |digested| <= ready <= |input| && (buckets_complete ==> ready == |input|)
    }

    /** Everything read is in the digest, everything else still in the buckets. */
    ghost predicate Flows()
      reads this, output_buffer
    {
      && input == digested + buckets && output_frontier <= output_buffer.Length && InReach()
      && client.Delivered(input, boundary, deliveries) && boundary <= |digested|
      && last_digest == client.DigestAt(input, boundary)
    }

    /** The output buffer holds what has been read of the section at the boundary. */
    ghost predicate Holding()
      reads this, output_buffer
    {
      && Flows()
      && |digested| == boundary + output_frontier
      && output_buffer[..output_frontier] == digested[boundary..]
    }

    /** Only a long section has ever blocked parsing. */
    ghost predicate BlockedWell()
      reads `blocked, `blocked_at, `input
    {
      blocked ==> IsLong(input, blocked_at)
    }

    /** Before all data is there, only sections that can be padded are delivered. */
    ghost predicate Settled()
      reads `input, `buckets_complete, `deliveries
    {
      buckets_complete || client.AllPaddable(input, |deliveries|)
    }

    /** The state between calls: no more is held than the section may need, and
        never more than a short section with its header. */
    ghost predicate Valid()
      reads this, output_buffer
    {
      Holding() && Buffered(digested, boundary) && BlockedWell() && Settled() && output_frontier <= 8 + LIMIT
    }

    /** Parsing has not moved on. */
    twostate predicate SameSection()
      reads this
    {
      && input == old(input) && boundary == old(boundary) && deliveries == old(deliveries)
      && buckets_complete == old(buckets_complete) && blocked == old(blocked) && blocked_at == old(blocked_at)
      && digested + buckets == old(digested + buckets) && old(digested) <= digested && ready == old(ready)
    }

    /** `MCCapsuleOpen` */
    constructor (client: Client)
      ensures Valid() && input == [] && deliveries == [] && !buckets_complete && !blocked && this.client == client
      ensures fresh(output_buffer)
    {
      this.client := client;
      input, boundary, blocked_at, buckets, buckets_complete, blocked, ready := [], 0, 0, [], false, false, 0;
      output_buffer := new byte[4096];
      output_frontier := 0;
      digested, last_digest := [], seq<byte>(16, _ => 0);
      stream_length, stream_offset, deliveries := 0, 0, [];
    }

    /** `MCCapsuleFillCommon`.  How far the data can be decompressed then is up to
        the compression. */
    method Fill(data: seq<byte>, finished: bool, decompressible: nat)
      requires Valid() && client.AllPaddable(input, |deliveries|)
      requires ready <= decompressible <= |input| + |data| && (finished ==> decompressible == |input| + |data|)
      modifies this
      ensures Valid() && input == old(input) + data && buckets_complete == finished
      ensures deliveries == old(deliveries) && blocked == old(blocked) && boundary == old(boundary)
      ensures ready == decompressible
      ensures output_buffer == old(output_buffer)
    {
      hide Client.Delivered, Client.AllPaddable, Client.DigestAt, Buffered;
      client.DeliveredStays(input, data, boundary, deliveries);
      LongStays(data);
      assert digested + (buckets + data) == digested + buckets + data;
      DigestStays(data);
      buckets := buckets + data;
      input := input + data;
      buckets_complete := finished;
      ready := decompressible;
    }

    lemma LongStays(data: seq<byte>)
      ensures IsLong(input, blocked_at) ==> IsLong(input + data, blocked_at)
    {
      if HasHeader(input, blocked_at) { Client.HeaderStays(input, data, blocked_at); }
    }

    lemma DigestStays(data: seq<byte>)
      requires boundary <= |input|
      ensures client.DigestAt(input + data, boundary) == client.DigestAt(input, boundary)
    {
      assert (input + data)[..boundary] == input[..boundary];
    }

    /** `MCCapsuleRead`: as much of a request as can be had.  Before all data is
        there that may be less than the buckets hold. */
    method Read(n: nat) returns (s: seq<byte>)
      requires InReach() && input == digested + buckets
      modifies `buckets, `digested
      ensures |s| == Min(n, ready - |old(digested)|)
      ensures s + buckets == old(buckets) && digested == old(digested) + s
      ensures input == digested + buckets && InReach()
    {
      var r := Min(n, ready - |digested|);
      BytesRead(digested, buckets[..r], buckets[r..]);
      s := buckets[..r];
      buckets := buckets[r..];
      digested := digested + s;
    }

    /** Copy bytes into the output buffer. */
    method Store(at: nat, s: seq<byte>)
      requires at + |s| <= output_buffer.Length
      modifies output_buffer
      ensures output_buffer[..at + |s|] == old(output_buffer[..at]) + s
    {
      for i := 0 to |s|
        invariant output_buffer[..at] == old(output_buffer[..at])
        invariant output_buffer[at..at + i] == s[..i]
      {
        output_buffer[at + i] := s[i];
      }
      assert output_buffer[..at + |s|] == output_buffer[..at] + output_buffer[at..at + |s|];
    }

    /** Make room for a number of bytes, in steps of 4096. */
    method Reserve(amount: nat)
      requires Holding()
      modifies this
      ensures Holding() && SameSection() && amount <= output_buffer.Length
      ensures output_frontier == old(output_frontier) && digested == old(digested) && buckets == old(buckets)
      ensures output_buffer == old(output_buffer) || fresh(output_buffer)
    {
      hide Client.Delivered, Client.DigestAt;
      if amount > output_buffer.Length {
        RoundUp(amount);
        output_buffer := Reallocate(output_buffer, output_frontier, (amount + 4095) / 4096 * 4096);
      }
    }

    /** Read into the room behind what the output buffer holds. */
    method ReadMore(n: nat)
      requires Holding() && output_frontier + n <= output_buffer.Length
      modifies `buckets, `digested, `output_frontier, output_buffer
      ensures Holding() && SameSection()
      ensures old(output_frontier) <= output_frontier <= old(output_frontier) + n
      ensures output_frontier < old(output_frontier) + n ==> |digested| == ready
    {
      hide Client.Delivered, Client.DigestAt;
      var s := Read(n);
      ReadOn(old(digested), s, buckets, boundary);
      Append(s);
    }

    /** `MCCapsuleEnsure`: try to have a number of bytes in the output buffer. */
    method Ensure(amount: nat)
      requires Holding()
      modifies this, output_buffer
      ensures Holding() && SameSection()
      ensures output_buffer == old(output_buffer) || fresh(output_buffer)
      ensures old(output_frontier) <= output_frontier <= Max(old(output_frontier), amount)
      ensures output_frontier < amount ==> |digested| == ready
    {
      hide Holding;
      if amount <= output_frontier {
        return;
      }
      Reserve(amount);
      ReadMore(amount - output_frontier);
    }

    /** Put what has just been read behind what the output buffer holds. */
    method Append(s: seq<byte>)
      requires Flows() && output_frontier + |s| <= output_buffer.Length
      requires |digested| == boundary + output_frontier + |s|
      requires digested[boundary..] == output_buffer[..output_frontier] + s
      modifies `output_frontier, output_buffer
      ensures Holding() && output_frontier == old(output_frontier) + |s|
    {
      hide Client.Delivered, Client.DigestAt;
      Store(output_frontier, s);
      output_frontier := output_frontier + |s|;
    }

    /** The word at an offset of the output buffer. */
    method BufferWord(at: nat) returns (w: int)
      requires at + 4 <= output_frontier <= output_buffer.Length
      ensures w == Word(output_buffer[..output_frontier], at)
    {
      w := (output_buffer[at] as int) * 0x100_0000 + (output_buffer[at + 1] as int) * 0x1_0000
           + (output_buffer[at + 2] as int) * 0x100 + output_buffer[at + 3] as int;
    }

    /** What the words of the output buffer are in the data. */
    lemma HeldWord(at: nat)
      requires Holding() && at + 4 <= output_frontier
      ensures boundary + at + 4 <= |digested| && output_frontier <= output_buffer.Length
      ensures Word(output_buffer[..output_frontier], at) == Word(digested, boundary + at)
    {
      hide Client.Delivered, Client.DigestAt;
    }

    lemma HeldAmount()
      requires Holding()
      ensures |digested| == boundary + output_frontier && input == digested + buckets
    {
    }

    lemma HeldFlows()
      requires Holding()
      ensures input == digested + buckets && output_frontier <= output_buffer.Length && boundary <= |digested|
      ensures client.Delivered(input, boundary, deliveries) && InReach()
    {
    }

    lemma StillBuffered(d: seq<byte>, amount: nat)
      requires Holding() && BlockedWell() && Settled()
      requires Buffered(d, boundary) && d <= digested && |digested| <= Max(|d|, boundary + amount)
      requires amount <= 4
               || (boundary + 4 <= |d| && Word(d, boundary) >= 0x8000_0000 && amount <= 8)
               || (IsShort(d, boundary) && amount <= SizeAt(d, boundary))
      ensures Valid()
    {
      BufferedGrows(d, digested, boundary, amount);
      BufferedBound(digested, boundary);
      HeldAmount();
      hide Holding, Buffered, BlockedWell, Settled;
    }

    /** Have some bytes of the header in the output buffer, if they are there. */
    method FetchBytes(amount: nat)
      requires Valid()
      requires amount <= 4 || (boundary + 4 <= |digested| && Word(digested, boundary) >= 0x8000_0000 && amount <= 8)
      modifies this, output_buffer
      ensures Valid() && Holding() && SameSection() && |digested| == boundary + output_frontier
      ensures output_buffer == old(output_buffer) || fresh(output_buffer)
      ensures output_frontier < amount ==> |digested| == ready
    {
      hide Holding, Buffered, HasHeader, Word, BlockedWell, Settled;
      ValidMeans();
      HeldAmount();
      Ensure(amount);
      HeldAmount();
      StillBuffered(old(digested), amount);
    }

    /** Have the header of the next section in the output buffer, if it is there. */
    method FetchHeader() returns (found: bool, h: Header)
      requires Valid()
      modifies this, output_buffer
      ensures Valid() && SameSection()
      ensures output_buffer == old(output_buffer) || fresh(output_buffer)
      ensures found ==> HasHeader(digested, boundary) && h == HeaderAt(digested, boundary)
      ensures !found ==> !HasHeader(digested, boundary)
      ensures !found ==> |digested| == ready
    {
      hide Valid, Holding, HasHeader, Word;
      h := Header(0, 0, 4);
      FetchBytes(4);
      if output_frontier < 4 {
        HeaderAbsent(digested, boundary);
        return false, h;
      }
      HeldWord(0);
      var h0 := BufferWord(0);
      var h1 := 0;
      if h0 >= 0x8000_0000 {
        ghost var d := digested;
        FetchBytes(8);
        WordStays(d, digested, boundary);
        if output_frontier < 8 {
          HeaderAbsent(digested, boundary);
          return false, h;
        }
        HeldWord(4);
        h1 := BufferWord(4);
      }
      h := Unpack(h0, h1);
      HeaderPresent(digested, boundary);
      found := true;
    }

    lemma ValidMeans()
      requires Valid()
      ensures Holding() && Buffered(digested, boundary) && BlockedWell() && Settled()
    {
    }

    /** Have the whole section in the output buffer, if it is there. */
    method BufferSection(h: Header) returns (found: bool)
      requires Valid() && HasHeader(digested, boundary) && h == HeaderAt(digested, boundary) && h.length <= LIMIT
      modifies this, output_buffer
      ensures Valid() && SameSection()
      ensures output_buffer == old(output_buffer) || fresh(output_buffer)
      ensures HasHeader(digested, boundary) && h == HeaderAt(digested, boundary)
      ensures |digested| <= boundary + SizeAt(digested, boundary)
      ensures found <==> |digested| == boundary + SizeAt(digested, boundary)
      ensures !found ==> |digested| == ready
    {
      hide Holding, HasHeader, Word;
      ValidMeans();
      HeldAmount();
      var required := (h.size + h.length + 3) / 4 * 4;
      PaddedSize(h);
      ghost var d := digested;
      Ensure(required);
      HeldAmount();
      StillBuffered(d, required);
      HeaderKept(d, digested, boundary);
      found := output_frontier >= required;
    }

    /** The end of a section, on either path: keep the digest of everything up
        to here, and start over with an empty output buffer. */
    method FinishSection()
      requires input == digested + buckets && output_frontier <= output_buffer.Length && InReach()
      requires boundary <= |digested| && client.IsComplete(input, boundary)
      requires |digested| == boundary + SizeAt(input, boundary)
      requires deliveries != [] && client.Delivered(input, boundary, deliveries[..|deliveries| - 1])
      requires deliveries[|deliveries| - 1] == client.DeliveryAt(input, boundary) && BlockedWell() && Settled()
      modifies `last_digest, `output_frontier, `boundary
      ensures Valid() && boundary == old(boundary + SizeAt(input, boundary))
    {
      hide Client.IsComplete, SizeAt, Client.DeliveryAt, Client.Delivered;
      client.DeliveredNext(input, boundary, deliveries[..|deliveries| - 1]);
      assert deliveries == deliveries[..|deliveries| - 1] + [deliveries[|deliveries| - 1]];
      assert input[..|digested|] == digested;
      last_digest := client.md5(digested);
      output_frontier := 0;
      boundary := |digested|;
    }

    /** A section is over and has been delivered. */
    twostate predicate Advanced()
      reads this
    {
      && input == old(input) && buckets_complete == old(buckets_complete) && blocked == old(blocked)
      && ready == old(ready) && client.IsComplete(input, old(boundary))
      && boundary == old(boundary) + SizeAt(input, old(boundary))
      && deliveries == old(deliveries) + [client.DeliveryAt(input, old(boundary))]
    }

    /** The callback gets a stream over the buffered section. */
    method DeliverBuffered(h: Header)
      requires Valid() && IsShort(digested, boundary) && h == HeaderAt(digested, boundary)
      requires |digested| == boundary + SizeAt(digested, boundary) && !buckets_complete
      modifies this
      ensures Valid() && Advanced() && output_buffer == old(output_buffer)
    {
      hide Client.IsComplete, SizeAt, HasHeader, HeaderAt, Client.DeliveryAt, Client.Delivered, Client.DigestAt,
        Holding, Buffered, Flows, BlockedWell, Client.AllPaddable, IsPaddable;
      ValidMeans();
      HeldFlows();
      SectionHeld(h);
      client.PaddableNext(input, boundary, deliveries);
      var data := output_buffer[h.size..h.size + client.Wanted(h)];
      deliveries := deliveries + [Delivery(last_digest, h.kind, h.length, data)];
      assert deliveries[..|deliveries| - 1] == old(deliveries);
      FinishSection();
    }

    /** A fully buffered section, as the callback sees it. */
    lemma SectionHeld(h: Header)
      requires Holding() && IsShort(digested, boundary) && h == HeaderAt(digested, boundary)
      requires |digested| == boundary + SizeAt(digested, boundary)
      ensures client.IsComplete(input, boundary) && IsPaddable(input, boundary)
      ensures SizeAt(input, boundary) == SizeAt(digested, boundary)
      ensures h.size + client.Wanted(h) <= output_frontier <= output_buffer.Length
      ensures Delivery(last_digest, h.kind, h.length, output_buffer[h.size..h.size + client.Wanted(h)])
               == client.DeliveryAt(input, boundary)
    {
      hide Holding, Flows, HasHeader, HeaderAt, Client.IsComplete, Client.DigestAt, Client.DeliveryAt, Client.Wanted;
      HeldDigest();
      HeldAmount();
      HeldFrom(h.size);
      var held := output_buffer[h.size..output_frontier];
      client.HeldDelivery(digested, buckets, boundary, held, last_digest);
      assert output_buffer[h.size..h.size + client.Wanted(h)] == held[..client.Wanted(h)];
    }

    lemma HeldDigest()
      requires Holding()
      ensures input == digested + buckets && boundary <= |digested|
      ensures last_digest == client.DigestAt(digested, boundary)
    {
      assert input[..boundary] == digested[..boundary];
    }

    /** The state while the callback reads a section straight from the buckets:
        what was buffered of it is still in the output buffer. */
    ghost predicate Streaming(hdr: nat)
      reads this, output_buffer
    {
      && input == digested + buckets && output_frontier <= output_buffer.Length && InReach()
      && |digested| == boundary + hdr + Max(output_frontier, stream_offset)
      && output_buffer[..output_frontier] == digested[boundary + hdr..boundary + hdr + output_frontier]
    }

    /** `MCCapsuleStreamRead`: the next bytes, as many as wanted and there, as long
        as the read stays inside its section.  One that asks for more gets what
        lingers in the output buffer, and then up to what was left of the section. */
    method StreamRead(size: nat, ghost hdr: nat) returns (s: seq<byte>)
      requires Streaming(hdr) && buckets_complete && stream_offset <= stream_length
      modifies `buckets, `digested, `stream_offset
      ensures Streaming(hdr) && stream_offset == old(stream_offset) + |s|
      ensures var pos := boundary + hdr + old(stream_offset);
              && pos <= |input|
              && |s| == Share(size, stream_length - old(stream_offset), output_frontier - old(stream_offset),
                              |input| - pos)
              && pos + |s| <= |input| && s == input[pos..pos + |s|]
    {
      hide *;
      StreamBounds(hdr);
      ghost var pos := boundary + hdr + stream_offset;
      ShareBounds(size, stream_length - stream_offset, output_frontier - stream_offset, |input| - pos);
      if size == 0 {
        assert input[pos..pos] == [];
        return [];
      }
      var available := stream_length - stream_offset;
      s := Lingering(size, hdr);
      var chunk := ReadBehind(Min(available, size - |s|), |s|, hdr);
      TwoPieces(input, pos, pos + |s|, s, chunk);
      s := s + chunk;
    }

    /** A read that stays inside its section. */
    method ReadInside(size: nat, ghost hdr: nat) returns (s: seq<byte>)
      requires Streaming(hdr) && buckets_complete && stream_offset + size <= stream_length
      modifies `buckets, `digested, `stream_offset
      ensures Streaming(hdr) && stream_offset == old(stream_offset) + |s|
      ensures var pos := boundary + hdr + old(stream_offset);
              pos <= |input| && |s| == Min(size, |input| - pos) && s == input[pos..pos + |s|]
    {
      hide *;
      StreamBounds(hdr);
      ghost var pos := boundary + hdr + stream_offset;
      ShareIs(size, stream_length - stream_offset, output_frontier - stream_offset, |input| - pos);
      s := StreamRead(size, hdr);
    }

    /** Bytes left in the output buffer from buffering are used up first. */
    method Lingering(size: nat, ghost hdr: nat) returns (s: seq<byte>)
      requires Streaming(hdr)
      ensures |s| == Min(size, Max(0, output_frontier - stream_offset))
      ensures var pos := boundary + hdr + stream_offset;
               && pos + |s| <= |digested| <= |input|
               && s == input[pos..pos + |s|]
    {
      StreamBounds(hdr);
      s := [];
      if stream_offset < output_frontier {
        var amount := Min(size, output_frontier - stream_offset);
        HeldBytes(hdr, amount);
        s := output_buffer[stream_offset..stream_offset + amount];
      }
    }

    /** The rest comes from the buckets, right behind them. */
    method ReadBehind(n: nat, held: nat, ghost hdr: nat) returns (chunk: seq<byte>)
      requires Streaming(hdr) && (n == 0 || held == Max(0, output_frontier - stream_offset))
      requires held <= Max(0, output_frontier - stream_offset)
      modifies `buckets, `digested, `stream_offset
      ensures Streaming(hdr) && stream_offset == old(stream_offset) + held + |chunk| && |chunk| <= n
      ensures var mid := boundary + hdr + old(stream_offset) + held;
              mid + |chunk| <= |input| && chunk == input[mid..mid + |chunk|]
      ensures var mid := boundary + hdr + old(stream_offset) + held;
              buckets_complete ==> |chunk| == Min(n, |input| - mid)
    {
      hide Streaming;
      StreamBounds(hdr);
      chunk := Read(n);
      BytesRead(old(digested), chunk, buckets);
      stream_offset := stream_offset + held + |chunk|;
      StreamGoesOn(hdr, old(digested), chunk, held, held + |chunk|);
    }

    lemma StreamBounds(hdr: nat)
      requires Streaming(hdr)
      ensures boundary + hdr + stream_offset <= |digested| <= |input| && input == digested + buckets && InReach()
      ensures boundary + hdr + output_frontier <= |digested|
      ensures |digested| == boundary + hdr + Max(output_frontier, stream_offset)
               && output_frontier <= output_buffer.Length
      ensures output_buffer[..output_frontier] == digested[boundary + hdr..boundary + hdr + output_frontier]
    {
    }

    /** Reading on keeps the stream's state. */
    lemma StreamGoesOn(hdr: nat, d: seq<byte>, chunk: seq<byte>, held: nat, read: nat)
      requires output_frontier <= output_buffer.Length && InReach()
      requires input == digested + buckets && digested == d + chunk
      requires read == held + |chunk| <= stream_offset
      requires |d| == boundary + hdr + Max(output_frontier, stream_offset - read)
      requires output_buffer[..output_frontier] == d[boundary + hdr..boundary + hdr + output_frontier]
      requires held == 0 || stream_offset - read + held <= output_frontier
      requires chunk == [] || held == Max(0, output_frontier - (stream_offset - read))
      ensures Streaming(hdr)
    {
      assert digested[boundary + hdr..boundary + hdr + output_frontier]
             == d[boundary + hdr..boundary + hdr + output_frontier];
    }

    lemma HeldBytes(hdr: nat, amount: nat)
      requires Streaming(hdr) && stream_offset + amount <= output_frontier
      ensures output_frontier <= output_buffer.Length
      ensures var pos := boundary + hdr + stream_offset;
              pos + amount <= |digested| <= |input|
                && output_buffer[stream_offset..stream_offset + amount] == input[pos..pos + amount]
    {
      var b, pos := boundary + hdr, boundary + hdr + stream_offset;
      var held := output_buffer[..output_frontier];
      assert held[stream_offset..stream_offset + amount] == output_buffer[stream_offset..stream_offset + amount];
      SliceOfSlice(digested, b, b + output_frontier, stream_offset, stream_offset + amount);
      SliceOfPrefix(digested, buckets, pos, pos + amount);
    }

    /** Read bytes behind the output buffer and drop them. */
    method SkipChunk(amount: nat, ghost hdr: nat) returns (ok: bool)
      requires Streaming(hdr) && buckets_complete && output_frontier <= stream_offset
      modifies `buckets, `digested, `stream_offset
      ensures ok <==> boundary + hdr + old(stream_offset) + amount <= |input|
      ensures ok ==> Streaming(hdr) && stream_offset == old(stream_offset) + amount
    {
      hide Streaming, Client.Delivered;
      StreamBounds(hdr);
      var s := Read(amount);
      BytesRead(old(digested), s, buckets);
      ok := |s| == amount;
      if ok {
        stream_offset := stream_offset + amount;
        StreamGoesOn(hdr, old(digested), s, 0, amount);
      }
    }

    /** `MCCapsuleStreamSeekSet`: forward only, reading 4096 bytes at a time. */
    method SeekSet(p: nat, ghost hdr: nat) returns (ok: bool)
      requires Streaming(hdr) && buckets_complete
      modifies `buckets, `digested, `stream_offset
      ensures ok <==>
                || p == old(stream_offset)
                || (old(stream_offset) < p <= stream_length && boundary + hdr + p <= |input|)
      ensures ok ==> Streaming(hdr) && stream_offset == p
    {
      hide Streaming, Client.Delivered;
      StreamBounds(hdr);
      if p < stream_offset {
        return false;
      }
      if p == stream_offset {
        return true;
      }
      if p > stream_length {
        return false;
      }
      var skip := p - stream_offset;
      if stream_offset < output_frontier {
        var amount := Min(skip, output_frontier - stream_offset);
        skip := skip - amount;
        stream_offset := stream_offset + amount;
        assert digested + [] == digested;
        StreamGoesOn(hdr, digested, [], amount, amount);
      }
      while skip > 0
        invariant 0 <= skip && stream_offset + skip == p
        invariant Streaming(hdr) && (skip == 0 || output_frontier <= stream_offset)
      {
        var amount := Min(skip, 4096);
        ok := SkipChunk(amount, hdr);
        if !ok {
          return;
        }
        skip := skip - amount;
      }
      StreamBounds(hdr);
      ok := true;
    }

    /** A callback that reads as much of its section as it wants, in pieces of
        its own choosing. */
    method Callback(h: Header) returns (data: seq<byte>)
      requires Streaming(h.size) && buckets_complete && stream_offset == 0 && stream_length == h.length
      modifies `buckets, `digested, `stream_offset
      ensures Streaming(h.size) && |data| == stream_offset <= h.length
      ensures var from := boundary + h.size;
              from <= |input| && |data| == Min(client.Wanted(h), |input| - from) && data == input[from..from + |data|]
    {
      hide Streaming, Client.Delivered;
      StreamBounds(h.size);
      ghost var from := boundary + h.size;
      data := [];
      var want := client.Wanted(h);
      while |data| < want
        invariant Streaming(h.size) && |data| == stream_offset <= want <= h.length
        invariant from + |data| <= |input| && data == input[from..from + |data|]
        decreases want - |data|
      {
        var size: nat :| 0 < size <= want - |data|;
        var s := ReadInside(size, h.size);
        TwoPieces(input, from, from + |data|, data, s);
        data := data + s;
        if |s| < size {
          break;
        }
      }
    }

    /** `MCMemoryMove` to the front of the output buffer. */
    method MoveDown(from: nat, n: nat)
      requires from + n <= output_buffer.Length
      modifies output_buffer
      ensures output_buffer[..n] == old(output_buffer[from..from + n])
    {
      for i := 0 to n
        invariant output_buffer[..i] == old(output_buffer[from..from + i])
        invariant forall k :: i <= k < output_buffer.Length ==> output_buffer[k] == old(output_buffer[k])
      {
        output_buffer[i] := output_buffer[i + from];
      }
    }

    /** Move what follows the header to the front of the output buffer. */
    method DropHeader(hdr: nat)
      requires Holding() && hdr <= output_frontier
      modifies `output_frontier, output_buffer, `stream_offset
      ensures Streaming(hdr) && stream_offset == 0 && output_frontier == old(output_frontier) - hdr
    {
      hide Client.Delivered, Client.DigestAt, Holding;
      HeldAmount();
      HeldFlows();
      HeldFrom(hdr);
      MoveDown(hdr, output_frontier - hdr);
      output_frontier := output_frontier - hdr;
      stream_offset := 0;
    }

    lemma HeldFrom(hdr: nat)
      requires Holding() && hdr <= output_frontier
      ensures output_frontier <= output_buffer.Length && boundary + output_frontier == |digested|
      ensures output_buffer[hdr..output_frontier] == digested[boundary + hdr..boundary + output_frontier]
    {
      hide Client.Delivered, Client.DigestAt;
      assert output_buffer[..output_frontier][hdr..] == output_buffer[hdr..output_frontier];
      assert digested[boundary..][hdr..] == digested[boundary + hdr..];
    }

    method SetStreamLength(n: nat, ghost hdr: nat)
      requires Streaming(hdr)
      modifies `stream_length
      ensures Streaming(hdr) && stream_length == n
    {
      stream_length := n;
    }

    method Record(x: Delivery, ghost hdr: nat)
      requires Streaming(hdr)
      modifies `deliveries
      ensures Streaming(hdr) && deliveries == old(deliveries) + [x]
    {
      deliveries := deliveries + [x];
    }

    /** What the header says of the section, and how much of it is buffered. */
    lemma HeaderHeld(h: Header)
      requires Holding() && Buffered(digested, boundary) && HasHeader(digested, boundary)
               && h == HeaderAt(digested, boundary)
      ensures HasHeader(input, boundary) && HeaderAt(input, boundary) == h
      ensures h.size <= output_frontier <= h.size + Padded(h.length)
      ensures SizeAt(input, boundary) == h.size + Padded(h.length)
      ensures client.IsComplete(input, boundary) <==>
                && boundary + h.size + Padded(h.length) <= |input|
                && (h.length <= PADDABLE || Min(client.Wanted(h), |input| - boundary - h.size) == 0)
      ensures last_digest == client.DigestAt(input, boundary)
    {
      Client.HeaderStays(digested, buckets, boundary);
      hide Client.Delivered, Client.DigestAt, Word;
    }

    lemma DirectDelivery(h: Header, data: seq<byte>)
      requires client.IsComplete(input, boundary) && HeaderAt(input, boundary) == h
               && last_digest == client.DigestAt(input, boundary)
      requires var from := boundary + h.size;
               from <= |input| && |data| == Min(client.Wanted(h), |input| - from) && data == input[from..from + |data|]
      ensures Delivery(last_digest, h.kind, h.length, data) == client.DeliveryAt(input, boundary)
    {
      hide Client.DigestAt, Word;
    }

    /** The callback gets a stream that reads straight from the buckets. */
    method StreamSection(h: Header)
      requires Holding() && h.size <= output_frontier && buckets_complete
      modifies this, output_buffer
      ensures Streaming(h.size) && stream_offset <= h.length && output_frontier == old(output_frontier) - h.size
      ensures input == old(input) && boundary == old(boundary) && last_digest == old(last_digest)
      ensures buckets_complete && blocked == old(blocked) && output_buffer == old(output_buffer)
      ensures ready == old(ready)
      ensures blocked_at == old(blocked_at)
      ensures deliveries != [] && deliveries[..|deliveries| - 1] == old(deliveries)
      ensures var x, from := deliveries[|deliveries| - 1], boundary + h.size;
              && from <= |input| && |x.data| == Min(client.Wanted(h), |input| - from) == stream_offset
              && x == Delivery(last_digest, h.kind, h.length, input[from..from + |x.data|])
    {
      hide Client.Delivered, Client.DigestAt, Holding, Flows, Streaming, Client.Wanted;
      DropHeader(h.size);
      SetStreamLength(h.length, h.size);
      var data := Callback(h);
      Record(Delivery(last_digest, h.kind, h.length, data), h.size);
    }

    /** The stream is moved to the end of the section's padding.  A length that
        cannot be padded in 32 bits is padded to nothing: then this succeeds
        just when the callback has read nothing, whatever data there is. */
    method SkipPadding(h: Header) returns (ok: bool)
      requires Streaming(h.size) && buckets_complete && stream_offset <= h.length < 0x1_0000_0000
      requires output_frontier <= Padded(h.length)
      modifies `stream_length, `stream_offset, `buckets, `digested
      ensures ok <==> if h.length <= PADDABLE then boundary + h.size + Padded(h.length) <= |input|
                      else old(stream_offset) == 0
      ensures ok ==> input == digested + buckets && output_frontier <= output_buffer.Length && InReach()
                     && |digested| == boundary + h.size + Padded(h.length)
    {
      hide Streaming, Client.Delivered, Padded;
      StreamBounds(h.size);
      SetStreamLength(Padded(h.length), h.size);
      ok := SeekSet(stream_length, h.size);
      if ok {
        StreamBounds(h.size);
      }
    }

    /** On the direct path a section is delivered as it is read. */
    method DeliverDirect(h: Header) returns (ok: bool)
      requires Valid() && buckets_complete && HasHeader(digested, boundary) && h == HeaderAt(digested, boundary)
      modifies this, output_buffer
      ensures ok <==> client.IsComplete(input, old(boundary))
      ensures ok ==> Valid() && Advanced()
      ensures input == old(input) && buckets_complete && output_buffer == old(output_buffer)
      ensures blocked == old(blocked) && ready == old(ready)
    {
      hide Client.IsComplete, SizeAt, HasHeader, HeaderAt, Client.DeliveryAt, Client.Delivered, Client.DigestAt,
        Holding, Buffered, Flows, Streaming, Client.Wanted, Padded, BlockedWell, Client.AllPaddable;
      ValidMeans();
      HeldFlows();
      HeaderHeld(h);
      StreamSection(h);
      ok := SkipPadding(h);
      if ok {
        DirectDelivery(h, deliveries[|deliveries| - 1].data);
        FinishSection();
      }
    }

    method Block()
      requires Valid() && IsLong(digested, boundary)
      modifies `blocked, `blocked_at
      ensures Valid() && blocked && blocked_at == boundary
    {
      HeldAmount();
      Client.HeaderStays(digested, buckets, boundary);
      hide Flows, Buffered;
      blocked, blocked_at := true, boundary;
    }

    /** Deliver the section whose header has been read, if it can be. */
    method Deliver(h: Header) returns (done: bool, ok: bool)
      requires Valid() && HasHeader(digested, boundary) && h == HeaderAt(digested, boundary)
      modifies this, output_buffer
      ensures input == old(input) && buckets_complete == old(buckets_complete)
      ensures output_buffer == old(output_buffer) || fresh(output_buffer)
      ensures !buckets_complete ==> ok
      ensures buckets_complete ==> ok == done && (ok <==> client.IsComplete(input, old(boundary)))
      ensures ok ==> Valid()
      ensures ok && !done ==> boundary == old(boundary) && deliveries == old(deliveries)
      ensures blocked == (old(blocked) || (!buckets_complete && h.length > LIMIT))
      ensures !buckets_complete && h.length > LIMIT ==>
                !done && blocked_at == boundary && digested == old(digested) && IsLong(digested, boundary)
      ensures ready == old(ready)
      ensures ok && !done && h.length <= LIMIT ==>
                IsShort(digested, boundary) && |digested| == ready && |digested| < boundary + SizeAt(digested, boundary)
      ensures ok && done ==>
                && client.IsComplete(input, old(boundary))
                && boundary == old(boundary) + SizeAt(input, old(boundary))
                && deliveries == old(deliveries) + [client.DeliveryAt(input, old(boundary))]
    {
      hide Client.IsComplete, SizeAt, HasHeader, HeaderAt, Client.DeliveryAt, Client.Delivered, Valid;
      ok := true;
      if !buckets_complete {
        if h.length > LIMIT {
          Block();
          return false, true;
        }
        done := BufferSection(h);
        if done {
          DeliverBuffered(h);
        }
      } else {
        ok := DeliverDirect(h);
        done := ok;
      }
    }

    /** `MCCapsuleProcess`: deliver as many sections as can be had. */
    method Process() returns (ok: bool)
      requires Valid()
      modifies this, output_buffer
      ensures input == old(input) && buckets_complete == old(buckets_complete)
      ensures output_buffer == old(output_buffer) || fresh(output_buffer)
      ensures !buckets_complete ==> ok
      ensures ok ==> Valid() && old(deliveries) <= deliveries
      ensures buckets_complete ==> (ok <==> Ends(client, input, old(boundary)))
      ensures buckets_complete && ok ==> boundary == |input|
      ensures buckets_complete || old(blocked) ==> blocked == old(blocked)
      ensures !buckets_complete && old(blocked) ==>
                boundary == old(boundary) && deliveries == old(deliveries) && digested == old(digested)
      ensures ready == old(ready)
      ensures !buckets_complete && !old(blocked) ==>
                (blocked <==> HasHeader(digested, boundary) && HeaderAt(digested, boundary).length > 1048576)
      ensures !buckets_complete && !old(blocked) && blocked ==> blocked_at == boundary
      ensures !buckets_complete && !blocked ==> deliveries == client.OneShot(input[..ready], 0)
    {
      hide Client.IsComplete, SizeAt, HasHeader, HeaderAt, Client.DeliveryAt, Client.Delivered, Valid, Ends;
      if !buckets_complete && blocked {
        return true;
      }
      ghost var at0 := boundary;
      ValidWithin();
      while true
        invariant Valid() && input == old(input) && buckets_complete == old(buckets_complete)
        invariant output_buffer == old(output_buffer) || fresh(output_buffer)
        invariant old(deliveries) <= deliveries && boundary <= |input|
        invariant ready == old(ready) && if buckets_complete then blocked == old(blocked) else !blocked
        invariant buckets_complete ==> (Ends(client, input, boundary) <==> Ends(client, input, at0))
        decreases |input| - boundary
      {
        var found, h := FetchHeader();
        if !found {
          if buckets_complete { NothingLeft(); } else { AllReady(); }
          break;
        }
        ghost var at := boundary;
        HeaderInInput();
        var done;
        done, ok := Deliver(h);
        EndsStep(client, input, at);
        if !ok {
          return false;
        }
        if !done {
          if !blocked { AllReady(); }
          break;
        }
        ValidWithin();
      }
      if buckets_complete && output_frontier != 0 {
        return false;
      }
      ok := true;
    }

    /** Everything that can be decompressed has been read, and does not hold the
        next section: what it holds has been delivered. */
    lemma AllReady()
      requires Valid() && !buckets_complete && |digested| == ready
      requires HasHeader(digested, boundary) ==> |digested| < boundary + SizeAt(digested, boundary)
      ensures deliveries == client.OneShot(input[..ready], 0)
    {
      HeldAmount();
      HeldFlows();
      SettledMeans();
      assert input[..ready] == digested;
      hide Valid, Client.Delivered, Client.AllPaddable;
      client.DeliveredWithin(digested, buckets, boundary, deliveries);
      client.DeliveredThenRest(digested, boundary, deliveries);
    }

    lemma SettledMeans()
      requires Valid() && !buckets_complete
      ensures Holding() && client.AllPaddable(input, |deliveries|)
    {
    }

    /** All data is read and there is not even a header left. */
    lemma NothingLeft()
      requires Valid() && buckets_complete && |digested| == ready && !HasHeader(digested, boundary)
      ensures output_frontier == |input| - boundary && (Ends(client, input, boundary) <==> output_frontier == 0)
    {
      assert digested + [] == digested;
      hide Client.Delivered, Client.DigestAt;
    }

    lemma ValidWithin()
      requires Valid()
      ensures boundary <= |input|
    {
    }

    lemma HeaderInInput()
      requires Valid() && HasHeader(digested, boundary)
      ensures HasHeader(input, boundary) && HeaderAt(input, boundary) == HeaderAt(digested, boundary)
    {
      Client.HeaderStays(digested, buckets, boundary);
    }
  }

  lemma EndsStep(client: Client, d: seq<byte>, at: nat)
    ensures client.IsComplete(d, at) ==>
             && at + SizeAt(d, at) <= |d| && at < at + SizeAt(d, at)
             && Ends(client, d, at) == Ends(client, d, at + SizeAt(d, at))
    ensures !client.IsComplete(d, at) ==> Ends(client, d, at) == (at == |d|)
    ensures HasHeader(d, at) ==> at < |d|
  {
  }

  /** Padding in 32 bits is padding to whole words exactly for lengths that it
      does not overflow. */
  lemma PaddedFitsIff(length: nat)
    requires length < 0x1_0000_0000
    ensures Padded(length) == (length + 3) / 4 * 4 <==> length <= PADDABLE
    ensures PADDABLE < length ==> Padded(length) == 0
  {
  }

  /** A read is shared between what lingers in the buffer and what is behind it. */
  function Share(size: int, available: int, lingering: int, room: int): int {
    var held := Min(size, Max(0, lingering));
    held + Min(Min(available, size - held), room - held)
  }

  lemma ShareBounds(size: nat, available: int, lingering: int, room: int)
    requires 0 <= available && lingering <= room && 0 <= room
    ensures var held := Min(size, Max(0, lingering));
            && 0 <= held <= Max(0, lingering) && (held == 0 || held <= lingering) && held <= room
            && 0 <= Min(available, size - held)
            && held + Min(Min(available, size - held), room - held) == Share(size, available, lingering, room)
            && (Min(available, size - held) == 0 || held == Max(0, lingering))
    ensures size == 0 ==> Share(size, available, lingering, room) == 0
  {
  }

  /** Inside the section, a read is cut short by the end of the data only; a read
      of all and more gets as many bytes too many as linger, if they are there. */
  lemma ShareIs(size: nat, available: int, lingering: int, room: int)
    requires 0 <= available && lingering <= room && 0 <= room
    ensures size <= available ==> Share(size, available, lingering, room) == Min(size, room)
    ensures 0 <= lingering && available + lingering <= size ==>
              Share(size, available, lingering, room) == Min(available + lingering, room)
  {
  }

  lemma SliceOfSlice(d: seq<byte>, lo: nat, hi: nat, i: nat, j: nat)
    requires i <= j && lo + j <= hi <= |d|
    ensures d[lo..hi][i..j] == d[lo + i..lo + j]
  {
    var p, q := d[lo..hi][i..j], d[lo + i..lo + j];
    assert |p| == |q| && forall k :: 0 <= k < |p| ==> p[k] == q[k];
  }

  lemma SliceOfPrefix(d: seq<byte>, more: seq<byte>, i: nat, j: nat)
    requires i <= j <= |d|
    ensures (d + more)[i..j] == d[i..j]
  {
  }

  lemma TwoPieces(d: seq<byte>, from: nat, mid: nat, a: seq<byte>, b: seq<byte>)
    requires from <= mid <= mid + |b| <= |d| && a == d[from..mid] && b == d[mid..mid + |b|]
    ensures a + b == d[from..mid + |b|]
  {
  }

  /** What is read next stands behind what has been digested. */
  lemma BytesRead(d: seq<byte>, s: seq<byte>, rest: seq<byte>)
    ensures (d + s) + rest == d + (s + rest) && (d + (s + rest))[|d|..|d| + |s|] == s
  {
  }

  lemma HeaderAbsent(d: seq<byte>, at: nat)
    ensures |d| < at + 4 ==> !HasHeader(d, at)
    ensures at + 4 <= |d| < at + 8 && Word(d, at) >= 0x8000_0000 ==> !HasHeader(d, at)
  {
  }

  lemma HeaderPresent(d: seq<byte>, at: nat)
    requires at + 4 <= |d| && (Word(d, at) >= 0x8000_0000 ==> at + 8 <= |d|)
    ensures HasHeader(d, at) && HeaderAt(d, at)
                                == Unpack(Word(d, at), if Word(d, at) >= 0x8000_0000 then Word(d, at + 4) else 0)
  {
  }

  lemma WordStays(d: seq<byte>, e: seq<byte>, at: nat)
    requires d <= e && at + 4 <= |d|
    ensures Word(e, at) == Word(d, at)
  {
  }

  lemma HeaderKept(d: seq<byte>, e: seq<byte>, at: nat)
    requires d <= e && HasHeader(d, at)
    ensures HasHeader(e, at) && HeaderAt(e, at) == HeaderAt(d, at) && SizeAt(e, at) == SizeAt(d, at)
  {
    Client.HeaderStays(d, e[|d|..], at);
    assert e == d + e[|d|..];
  }

  /** Padding header and payload together is padding the payload. */
  lemma PaddedSize(h: Header)
    requires (h.size == 4 || h.size == 8) && h.length <= LIMIT
    ensures (h.size + h.length + 3) / 4 * 4 == h.size + Padded(h.length)
  {
  }

  /** Bytes move from the buckets to the digest, and past the boundary. */
  lemma ReadOn(d: seq<byte>, s: seq<byte>, rest: seq<byte>, at: nat)
    requires at <= |d|
    ensures (d + s) + rest == d + (s + rest) && (d + s)[at..] == d[at..] + s && d <= d + s
  {
  }

  lemma RoundUp(amount: nat)
    ensures amount <= (amount + 4095) / 4096 * 4096
  {
  }

  method Reallocate(b: array<byte>, used: nat, size: nat) returns (bigger: array<byte>)
    requires used <= b.Length && used <= size
    ensures fresh(bigger) && bigger.Length == size && bigger[..used] == b[..used]
  {
    bigger := new byte[size];
    for i := 0 to used
      invariant bigger[..i] == b[..i]
    {
      bigger[i] := b[i];
    }
  }

  lemma BufferedBound(d: seq<byte>, at: nat)
    requires Buffered(d, at)
    ensures |d| <= at + 8 + LIMIT
  {
    hide Word;
  }

  /** Asking for a word, for a header, or for a section buffers no more than that. */
  lemma BufferedGrows(d: seq<byte>, e: seq<byte>, at: nat, amount: nat)
    requires Buffered(d, at) && d <= e && |e| <= Max(|d|, at + amount)
    requires amount <= 4
             || (at + 4 <= |d| && Word(d, at) >= 0x8000_0000 && amount <= 8)
             || (IsShort(d, at) && amount <= SizeAt(d, at))
    ensures Buffered(e, at)
  {
    var more := e[|d|..];
    assert e == d + more;
    if at + 4 <= |d| { assert Word(e, at) == Word(d, at); }
    if HasHeader(d, at) { Client.HeaderStays(d, more, at); }
  }

  function Concat(pieces: seq<seq<byte>>): seq<byte> {
    if pieces == [] then [] else Concat(pieces[..|pieces| - 1]) + pieces[|pieces| - 1]
  }

  /** At a boundary, the rest of the data is whole sections exactly when all is. */
  lemma {:induction false} EndsFromStart(client: Client, d: seq<byte>, k: nat)
    requires client.Reached(d, k)
    ensures Ends(client, d, client.Start(d, k)) <==> Ends(client, d, 0)
  {
    hide Client.IsComplete, HasHeader, HeaderAt, SizeAt, Client.FirstSections;
    if k > 0 {
      EndsFromStart(client, d, k - 1);
      client.FirstStep(d, k);
    }
  }

  /** A capsule that is the header of a section of 4 GB less a byte, and nothing
      else, is accepted: such a section counts as its header alone. */
  lemma HeaderAloneAccepted(client: Client)
    ensures var d: seq<byte> := [0x80, 0xFF, 0xFF, 0xFF, 0, 0, 0, 0xFF];
            HasHeader(d, 0) && HeaderAt(d, 0).length == 0xFFFF_FFFF && Ends(client, d, 0)
  {
    var d: seq<byte> := [0x80, 0xFF, 0xFF, 0xFF, 0, 0, 0, 0xFF];
    assert Word(d, 0) == 0x80FF_FFFF && Word(d, 4) == 0xFF;
    assert HeaderAt(d, 0) == Header(0, 0xFFFF_FFFF, 8);
    hide Word;
    assert SizeAt(d, 0) == 8 && client.IsComplete(d, 0);
    EndsStep(client, d, 0);
    NothingAtEnd(client, d);
  }

  lemma NothingAtEnd(client: Client, d: seq<byte>)
    ensures Ends(client, d, |d|)
  {
  }

  lemma NothingAfterEnd(client: Client, d: seq<byte>)
    ensures client.OneShot(d, |d|) == []
  {
  }

  /** A capsule cut into pieces in any way, with a call to process after any of
      them: it is accepted exactly if it is whole sections to the end, and then
      the callback is given what reading it at once gives, digests included. */
  method ReadInPieces(client: Client, pieces: seq<seq<byte>>) returns (ok: bool, out: seq<Delivery>)
    requires pieces != []
    ensures ok <==> Ends(client, Concat(pieces), 0)
    ensures ok ==> out == client.OneShot(Concat(pieces), 0)
  {
    hide Ends, Client.Delivered, Client.OneShot;
    var capsule := new Capsule(client);
    ok := true;
    for i := 0 to |pieces| - 1
      invariant capsule.Valid() && capsule.client == client && !capsule.buckets_complete
      invariant capsule.input == Concat(pieces[..i]) && fresh(capsule) && fresh(capsule.output_buffer)
    {
      assert pieces[..i + 1][..i] == pieces[..i];
      var decompressible: nat :| capsule.ready <= decompressible <= |capsule.digested + capsule.buckets| + |pieces[i]|;
      capsule.Fill(pieces[i], false, decompressible);
      var process: bool := *;
      if process {
        ok := capsule.Process();
      }
    }
    var n := |pieces| - 1;
    assert pieces[..n + 1] == pieces;
    capsule.Fill(pieces[n], true, |capsule.digested + capsule.buckets| + |pieces[n]|);
    ghost var at, before := capsule.boundary, capsule.deliveries;
    AtBoundary(capsule);
    ok := capsule.Process();
    out := capsule.deliveries;
    if ok { AllDelivered(capsule); }
  }

  lemma AtBoundary(capsule: Capsule)
    requires capsule.Valid()
    ensures Ends(capsule.client, capsule.input, capsule.boundary) <==> Ends(capsule.client, capsule.input, 0)
  {
    hide Ends;
    EndsFromStart(capsule.client, capsule.input, |capsule.deliveries|);
  }

  lemma AllDelivered(capsule: Capsule)
    requires capsule.Valid() && capsule.boundary == |capsule.input|
    ensures capsule.deliveries == capsule.client.OneShot(capsule.input, 0)
  {
    hide Client.OneShot;
    capsule.client.DeliveredThenRest(capsule.input, capsule.boundary, capsule.deliveries);
    NothingAfterEnd(capsule.client, capsule.input);
  }

  lemma LastDigest(client: Client, d: seq<byte>, k: nat)
    requires k > 0 && client.Reached(d, k)
    ensures client.Reached(d, k - 1) && client.Start(d, k - 1) <= |d|
    ensures client.FirstSections(d, k)[k - 1].digest
            == if k == 1 then seq<byte>(16, _ => 0) else client.md5(d[..client.Start(d, k - 1)])
  {
    hide HasHeader, HeaderAt, Client.FirstSections, Client.OneShot;
    client.FirstStep(d, k);
  }

  lemma FormerSections(client: Client, d: seq<byte>, k: nat, j: nat)
    requires client.Reached(d, k) && j + 1 < k
    ensures client.Reached(d, k - 1) && client.FirstSections(d, k)[j] == client.FirstSections(d, k - 1)[j]
  {
    hide Client.IsComplete, SizeAt, Client.DeliveryAt, Client.FirstSections, Client.OneShot;
    client.FirstStep(d, k);
  }

  /** The digest passed with a section after the first is that of exactly the
      bytes of the sections before it. */
  lemma {:induction false} DigestOfPreceding(client: Client, d: seq<byte>, k: nat, j: nat)
    requires client.Reached(d, k) && j < k
    ensures client.Reached(d, j) && client.Start(d, j) <= |d|
    ensures client.FirstSections(d, k)[j].digest
            == if j == 0 then seq<byte>(16, _ => 0) else client.md5(d[..client.Start(d, j)])
  {
    hide *;
    if j < k - 1 {
      FormerSections(client, d, k, j);
      DigestOfPreceding(client, d, k - 1, j);
    } else {
      LastDigest(client, d, k);
    }
  }
}
