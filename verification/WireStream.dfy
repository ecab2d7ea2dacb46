/** The connection's message reader and packet writer over a byte stream. */
module WireStream {
  import opened Wire
  import opened Packet

  /** What reading a message off a stream that will deliver `rest` and then close amounts to. */
  function ReadFrom(rest: Bytes, seen: Option<Expect>, limit: nat): (r: Result<(Byte, Bytes), FrameError>)
    decreases |rest|
  {
    if |rest| < HEADER_LEN then Err(ConnectionClosed)
    else
      match DecodeHeader(rest[..HEADER_LEN])
      case Err(e) => Err(e)
      case Ok(h) =>
        if seen.Some? && h.packetType != seen.value.packetType then
          Err(MismatchedPacketType(seen.value.packetType, h.packetType))
        else if seen.Some? && h.packetId != seen.value.packetId then
          Err(UnexpectedPacketId(seen.value.packetId, h.packetId))
        else if h.length > limit then Err(PacketTooLong(h.length))
        else if |rest| < h.length then Err(ConnectionClosed)
        else if h.status == END_OF_MESSAGE then Ok((h.packetType, rest[HEADER_LEN..h.length]))
        else Prefixed(rest[HEADER_LEN..h.length], ReadFrom(rest[h.length..], Following(h), limit))
  }

  function Prefixed(chunk: Bytes, r: Result<(Byte, Bytes), FrameError>): Result<(Byte, Bytes), FrameError> {
    match r
    case Ok(m) => Ok((m.0, chunk + m.1))
    case Err(e) => Err(e)
  }

  /** Every header the buffer decoder would look at announces at most `limit` bytes. */
  predicate Fits(rest: Bytes, seen: Option<Expect>, limit: nat)
    decreases |rest|
  {
    if |rest| < HEADER_LEN || DecodeHeader(rest[..HEADER_LEN]).Err? then true
    else
      var h := DecodeHeader(rest[..HEADER_LEN]).value;
      if !Matches(h, seen) then true
      else h.length <= limit && (h.length <= |rest| && h.status != END_OF_MESSAGE ==> Fits(rest[h.length..], Following(h), limit))
  }

  function AsRead(d: Decoded): Result<(Byte, Bytes), FrameError> {
    match d
    case NotYet => Err(ConnectionClosed)
    case Message(t, p, _) => Ok((t, p))
    case Bad(e) => Err(e)
  }

  /** The stream reader and the buffer decoder agree whenever every packet fits the negotiated size. */
  lemma {:induction false} ReaderRefinesDecoder(rest: Bytes, seen: Option<Expect>, limit: nat)
    requires Fits(rest, seen, limit)
    ensures ReadFrom(rest, seen, limit) == AsRead(DecodeFrom(rest, seen))
    decreases |rest|
  {
    if |rest| >= HEADER_LEN && DecodeHeader(rest[..HEADER_LEN]).Ok? {
      var h := DecodeHeader(rest[..HEADER_LEN]).value;
      if Matches(h, seen) && h.length <= |rest| && h.status != END_OF_MESSAGE {
        ReaderRefinesDecoder(rest[h.length..], Following(h), limit);
      }
    }
  }

  /** And when some packet is too long, the reader reports one, however much of the message is there. */
  lemma {:induction false} ReaderRejectsLongPackets(rest: Bytes, seen: Option<Expect>, limit: nat)
    ensures (exists n :: ReadFrom(rest, seen, limit) == Err(PacketTooLong(n))) <==> !Fits(rest, seen, limit)
    decreases |rest|
  {
    if |rest| >= HEADER_LEN && DecodeHeader(rest[..HEADER_LEN]).Ok? {
      var h := DecodeHeader(rest[..HEADER_LEN]).value;
      if Matches(h, seen) {
        if h.length > limit {
          assert ReadFrom(rest, seen, limit) == Err(PacketTooLong(h.length));
        } else if h.length <= |rest| && h.status != END_OF_MESSAGE {
          var chunk, later := rest[HEADER_LEN..h.length], ReadFrom(rest[h.length..], Following(h), limit);
          assert ReadFrom(rest, seen, limit) == Prefixed(chunk, later);
          ReaderRejectsLongPackets(rest[h.length..], Following(h), limit);
          forall n | later == Err(PacketTooLong(n)) ensures ReadFrom(rest, seen, limit) == Err(PacketTooLong(n)) {}
        }
      }
    }
  }

  function Concat(parts: seq<Bytes>): Bytes {
    if |parts| == 0 then [] else Concat(parts[..|parts| - 1]) + parts[|parts| - 1]
  }

  /** A byte string that is one packet, header included. */
  predicate WholePacket(b: Bytes) {
    && |b| >= HEADER_LEN
    && DecodeHeader(b[..HEADER_LEN]).Ok?
    && DecodeHeader(b[..HEADER_LEN]).value.length == |b|
  }

  /** A byte string made of whole packets and nothing else. */
  predicate WholePackets(b: Bytes)
    decreases |b|
  {
    |b| == 0
    || (&& |b| >= HEADER_LEN
        && DecodeHeader(b[..HEADER_LEN]).Ok?
        && DecodeHeader(b[..HEADER_LEN]).value.length <= |b|
        && WholePackets(b[DecodeHeader(b[..HEADER_LEN]).value.length..]))
  }

  lemma {:induction false} WireBytesAreWholePackets(fs: seq<Frame>)
    requires forall f <- fs :: f.header.length == HEADER_LEN + |f.payload|
    ensures WholePackets(WireBytes(fs))
  {
    if |fs| > 0 {
      var b := WireBytes(fs);
      HeaderRoundTrip(fs[0].header);
      assert b[..HEADER_LEN] == EncodeHeader(fs[0].header);
      assert b[fs[0].header.length..] == WireBytes(fs[1..]);
      WireBytesAreWholePackets(fs[1..]);
    }
  }

  lemma {:induction false} MessageLengths(fs: seq<Frame>, seen: Option<Expect>)
    requires IsMessage(fs, seen)
    ensures forall f <- fs :: f.header.length == HEADER_LEN + |f.payload|
  {
    if |fs| > 1 {
      MessageLengths(fs[1..], Following(fs[0].header));
      assert fs == [fs[0]] + fs[1..];
    }
  }

  /** A connected stream: bytes the peer will still deliver, bytes sent so far, negotiated packet size. */
  class Stream {
    var incoming: Bytes
    var sent: Bytes
    var packetSize: nat

    constructor (incoming: Bytes, packetSize: nat)
      ensures this.incoming == incoming && this.sent == [] && this.packetSize == packetSize
    {
      this.incoming, this.sent, this.packetSize := incoming, [], packetSize;
    }

    method ReadExact(n: nat) returns (r: Result<Bytes, FrameError>)
      modifies this`incoming
      ensures n <= |old(incoming)| ==> r == Ok(old(incoming)[..n]) && incoming == old(incoming)[n..]
      ensures n > |old(incoming)| ==> r == Err(ConnectionClosed) && incoming == []
    {
      if n <= |incoming| {
        r := Ok(incoming[..n]);
        incoming := incoming[n..];
      } else {
        r := Err(ConnectionClosed);
        incoming := [];
      }
    }

    method ReadMessage() returns (r: Result<(Byte, Bytes), FrameError>)
      modifies this`incoming
      ensures r == ReadFrom(old(incoming), None, packetSize)
      ensures r.Ok? ==> exists n: nat ::
                  && n <= |old(incoming)| && incoming == old(incoming)[n..]
                  && DecodeFrom(old(incoming), None) == Message(r.value.0, r.value.1, n)
    {
      hide DecodeHeader, DecodeFrom;
      var seen: Option<Expect> := None;
      var payload: Bytes := [];
      ghost var all := incoming;
      ghost var used: nat := 0;
      PrefixedNothing(ReadFrom(incoming, seen, packetSize));
      NothingBefore(DecodeFrom(incoming, seen));
      while true
        invariant used <= |all| && incoming == all[used..]
        invariant DecodeFrom(all, None) == DecodeFrom(incoming, seen).After(payload, used)
        invariant ReadFrom(all, None, packetSize) == Prefixed(payload, ReadFrom(incoming, seen, packetSize))
        decreases |incoming|
      {
        ghost var rest := incoming;
        var headerBytes := ReadExact(HEADER_LEN);
        if headerBytes.Err? {
          return Err(headerBytes.error);
        }
        var decoded := DecodeHeader(headerBytes.value);
        if decoded.Err? {
          return Err(decoded.error);
        }
        var header := decoded.value;
        if seen.Some? && header.packetType != seen.value.packetType {
          return Err(MismatchedPacketType(seen.value.packetType, header.packetType));
        }
        if seen.Some? && header.packetId != seen.value.packetId {
          return Err(UnexpectedPacketId(seen.value.packetId, header.packetId));
        }
        if header.length > packetSize {
          return Err(PacketTooLong(header.length));
        }
        var chunk := ReadExact(header.length - HEADER_LEN);
        if chunk.Err? {
          return Err(chunk.error);
        }
        assert chunk.value == rest[HEADER_LEN..header.length];
        assert incoming == rest[header.length..];
        DecodeOnePacket(rest, seen, header);
        AfterAfter(DecodeFrom(incoming, Following(header)), payload, used, chunk.value, header.length);
        PrefixedPrefixed(payload, chunk.value, ReadFrom(incoming, Following(header), packetSize));
        assert all[used..][header.length..] == all[used + header.length..];
        used := used + header.length;
        payload := payload + chunk.value;
        seen := Following(header);
        if header.status == END_OF_MESSAGE {
          return Ok((header.packetType, payload));
        }
      }
    }

    /** Writes an encoded message packet by packet; `slices` are the writes made. */
    method WriteAll(bytes: Bytes) returns (r: Option<FrameError>, slices: seq<Bytes>)
      modifies this`sent
      ensures r.None? <==> WholePackets(bytes)
      ensures r.None? ==> Concat(slices) == bytes
      ensures sent == old(sent) + Concat(slices) && Concat(slices) <= bytes
      ensures forall s <- slices :: WholePacket(s)
    {
      hide DecodeHeader, WholePacket, WholePackets;
      var offset := 0;
      slices := [];
      assert bytes[0..] == bytes;
      NothingLeft();
      while offset < |bytes|
        invariant offset <= |bytes|
        invariant Concat(slices) == bytes[..offset]
        invariant sent == old(sent) + Concat(slices)
        invariant forall s <- slices :: WholePacket(s)
        invariant WholePackets(bytes) <==> WholePackets(bytes[offset..])
      {
        var packet := PacketSlice(bytes, offset);
        if packet.Err? {
          return Some(packet.error), slices;
        }
        var s := packet.value;
        OnePacketOn(bytes, offset, s);
        sent := sent + s;
        Assoc(old(sent), Concat(slices), s);
        assert (slices + [s])[..|slices|] == slices;
        slices := slices + [s];
        offset := offset + |s|;
      }
      assert bytes[..offset] == bytes && bytes[offset..] == [];
      return None, slices;
    }
  }

  lemma NothingLeft()
    ensures WholePackets([])
  {
  }

  lemma OnePacketOn(bytes: Bytes, offset: nat, s: Bytes)
    requires offset <= |bytes| && WholePacket(s) && s <= bytes[offset..]
    ensures |s| >= HEADER_LEN && offset + |s| <= |bytes|
    ensures bytes[..offset] + s == bytes[..offset + |s|]
    ensures WholePackets(bytes[offset..]) <==> WholePackets(bytes[offset + |s|..])
  {
    hide DecodeHeader;
    assert bytes[offset..][|s|..] == bytes[offset + |s|..];
    assert bytes[offset..][..HEADER_LEN] == s[..HEADER_LEN];
  }

  lemma NothingBefore(d: Decoded)
    ensures d.After([], 0) == d
  {
    if d.Message? {
      assert [] + d.payload == d.payload;
    }
  }

  /** One acceptable packet, as the buffer decoder takes it. */
  lemma DecodeOnePacket(rest: Bytes, seen: Option<Expect>, h: Header)
    requires HEADER_LEN <= |rest| && DecodeHeader(rest[..HEADER_LEN]) == Ok(h)
    requires Matches(h, seen) && h.length <= |rest|
    ensures DecodeFrom(rest, seen) ==
            if h.status == END_OF_MESSAGE then Message(h.packetType, rest[HEADER_LEN..h.length], h.length)
            else DecodeFrom(rest[h.length..], Following(h)).After(rest[HEADER_LEN..h.length], h.length)
  {
    hide DecodeHeader;
  }

  lemma PrefixedNothing(r: Result<(Byte, Bytes), FrameError>)
    ensures Prefixed([], r) == r
  {
    if r.Ok? {
      assert [] + r.value.1 == r.value.1;
    }
  }

  lemma PrefixedPrefixed(a: Bytes, b: Bytes, r: Result<(Byte, Bytes), FrameError>)
    ensures Prefixed(a, Prefixed(b, r)) == Prefixed(a + b, r)
  {
    if r.Ok? {
      assert a + (b + r.value.1) == a + b + r.value.1;
    }
  }

  /** The packet that starts at `offset`: exists exactly when a whole packet lies there. */
  function PacketSlice(bytes: Bytes, offset: nat): (r: Result<Bytes, FrameError>)
    requires offset <= |bytes|
    ensures r.Ok? ==> WholePacket(r.value) && r.value <= bytes[offset..]
    ensures r.Err? ==> (offset < |bytes| ==> !WholePackets(bytes[offset..]))
  {
    var rest := bytes[offset..];
    if |rest| < HEADER_LEN then Err(EndedInsideHeader)
    else
      match DecodeHeader(rest[..HEADER_LEN])
      case Err(e) => Err(e)
      case Ok(h) =>
        if |rest| < h.length then Err(EndedInsidePacket)
        else
          assert rest[..h.length][..HEADER_LEN] == rest[..HEADER_LEN];
          Ok(rest[..h.length])
  }

  /** Everything `EncodeMessage` produces can be sent, and the peer decodes what was sent. */
  lemma EncodedMessagesAreSendable(packetType: Byte, payload: Bytes, packetSize: nat)
    requires HEADER_LEN < packetSize <= MAX_PACKET_LEN
    ensures var out := WireBytes(Split(packetType, payload, packetSize - HEADER_LEN, 1));
            && WholePackets(out)
            && ReadFrom(out, None, packetSize) == Ok((packetType, payload))
  {
    var fs := Split(packetType, payload, packetSize - HEADER_LEN, 1);
    SplitIsMessage(packetType, payload, packetSize - HEADER_LEN, 1, None);
    MessageLengths(fs, None);
    WireBytesAreWholePackets(fs);
    MessageFits(fs, None, packetSize);
    ReaderRefinesDecoder(WireBytes(fs), None, packetSize);
    FramingRoundTrip(packetType, payload, packetSize, []);
    assert WireBytes(fs) + [] == WireBytes(fs);
  }

  lemma {:induction false} MessageFits(fs: seq<Frame>, seen: Option<Expect>, limit: nat)
    requires IsMessage(fs, seen)
    requires forall f <- fs :: f.header.length <= limit
    ensures Fits(WireBytes(fs), seen, limit)
    decreases |fs|
  {
    var b := WireBytes(fs);
    HeaderRoundTrip(fs[0].header);
    assert b[..HEADER_LEN] == EncodeHeader(fs[0].header);
    assert b[fs[0].header.length..] == WireBytes(fs[1..]);
    if |fs| > 1 {
      MessageFits(fs[1..], Following(fs[0].header), limit);
    }
  }
}
