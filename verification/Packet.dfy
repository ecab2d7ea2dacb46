/** TDS packet headers, message framing and deframing (section 2.2.3.1 of [MS-TDS]). */
module Packet {
  import opened Wire

  const HEADER_LEN: nat := 8
  const MAX_PACKET_LEN: nat := 65535

  const SQL_BATCH: Byte := 0x01
  const RPC: Byte := 0x03
  const TABULAR_RESULT: Byte := 0x04
  const PRE_LOGIN: Byte := 0x12

  const NORMAL: Byte := 0x00
  const END_OF_MESSAGE: Byte := 0x01

  datatype Header = Header(
    packetType: Byte, status: Byte, length: U16, serverProcessId: U16, packetId: Byte, window: Byte)

  datatype FrameError =
    | WrongLength(actual: nat)
    | InvalidPacketLength(length: U16)
    | InvalidMaxPacketSize(size: nat)
    | MismatchedPacketType(expectedType: Byte, actualType: Byte)
    | UnexpectedPacketId(expectedId: Byte, actualId: Byte)
    | PacketTooLong(length: U16)       // longer than the negotiated packet size
    | ConnectionClosed
    | EndedInsideHeader
    | EndedInsidePacket

  function NextId(id: Byte): Byte { (id as int + 1) % 256 }

  function EncodeHeader(h: Header): (b: Bytes)
    ensures |b| == HEADER_LEN
  {
    [h.packetType, h.status] + BigEndian16(h.length) + BigEndian16(h.serverProcessId) + [h.packetId, h.window]
  }

  function BigEndianWord(hi: Byte, lo: Byte): U16 { Word(lo, hi) }

  function DecodeHeader(b: Bytes): (r: Result<Header, FrameError>)
    ensures r.Ok? ==> r.value.length >= HEADER_LEN
  {
    if |b| != HEADER_LEN then Err(WrongLength(|b|))
    else
      var length := BigEndianWord(b[2], b[3]);
      if length < HEADER_LEN then Err(InvalidPacketLength(length))
      else Ok(Header(b[0], b[1], length, BigEndianWord(b[4], b[5]), b[6], b[7]))
  }

  /** Header codec: decoding inverts encoding on every legal header, and only legal headers decode. */
  lemma HeaderRoundTrip(h: Header)
    ensures DecodeHeader(EncodeHeader(h)) == if h.length < HEADER_LEN then Err(InvalidPacketLength(h.length)) else Ok(h)
  {
  }

  lemma HeaderDecodeInjective(b: Bytes)
    requires DecodeHeader(b).Ok?
    ensures EncodeHeader(DecodeHeader(b).value) == b
  {
    var h := DecodeHeader(b).value;
    assert BigEndian16(h.length) == [b[2], b[3]];
    assert BigEndian16(h.serverProcessId) == [b[4], b[5]];
  }

  // ---- messages as lists of packets ----

  datatype Frame = Frame(header: Header, payload: Bytes)

  /** What a later packet of a message has to carry. */
  datatype Expect = Expect(packetType: Byte, packetId: Byte)

  function FrameBytes(f: Frame): (b: Bytes)
    ensures |b| == HEADER_LEN + |f.payload|
  {
    EncodeHeader(f.header) + f.payload
  }

  function WireBytes(fs: seq<Frame>): Bytes {
    if |fs| == 0 then [] else FrameBytes(fs[0]) + WireBytes(fs[1..])
  }

  function Payloads(fs: seq<Frame>): Bytes {
    if |fs| == 0 then [] else fs[0].payload + Payloads(fs[1..])
  }

  predicate Matches(h: Header, seen: Option<Expect>) {
    seen.Some? ==> h.packetType == seen.value.packetType && h.packetId == seen.value.packetId
  }

  function Following(h: Header): Option<Expect> { Some(Expect(h.packetType, NextId(h.packetId))) }

  /** One complete message: same type throughout, ids contiguous modulo 256, only the last packet final. */
  predicate IsMessage(fs: seq<Frame>, seen: Option<Expect>) {
    && |fs| > 0
    && fs[0].header.length == HEADER_LEN + |fs[0].payload|
    && Matches(fs[0].header, seen)
    && (fs[0].header.status == END_OF_MESSAGE <==> |fs| == 1)
    && (|fs| > 1 ==> IsMessage(fs[1..], Following(fs[0].header)))
  }

  // ---- encoding ----

  function ClientHeader(packetType: Byte, status: Byte, length: U16, id: Byte): Header {
    Header(packetType, status, length, 0, id, 0)
  }

  /** The packets of a client message: full ones first, ids counting up and wrapping, the last one final. */
  function Split(packetType: Byte, payload: Bytes, room: nat, id: Byte): (fs: seq<Frame>)
    requires 0 < room <= MAX_PACKET_LEN - HEADER_LEN
    ensures |fs| > 0
    decreases |payload|
  {
    if |payload| <= room then
      [Frame(ClientHeader(packetType, END_OF_MESSAGE, HEADER_LEN + |payload|, id), payload)]
    else
      [Frame(ClientHeader(packetType, NORMAL, HEADER_LEN + room, id), payload[..room])]
      + Split(packetType, payload[room..], room, NextId(id))
  }

  lemma {:induction false} SplitIsMessage(packetType: Byte, payload: Bytes, room: nat, id: Byte, seen: Option<Expect>)
    requires 0 < room <= MAX_PACKET_LEN - HEADER_LEN
    requires seen.Some? ==> seen.value == Expect(packetType, id)
    ensures var fs := Split(packetType, payload, room, id);
            IsMessage(fs, seen) && Payloads(fs) == payload && fs[0].header.packetType == packetType
    ensures forall f <- Split(packetType, payload, room, id) :: f.header.length <= HEADER_LEN + room
    decreases |payload|
  {
    var fs := Split(packetType, payload, room, id);
    if |payload| > room {
      var later := Split(packetType, payload[room..], room, NextId(id));
      SplitIsMessage(packetType, payload[room..], room, NextId(id), Some(Expect(packetType, NextId(id))));
      assert fs[1..] == later;
      assert payload == payload[..room] + payload[room..];
    }
  }

  lemma IdsAdd(id: Byte, k: nat)
    requires k > 0
    ensures (NextId(id) as int + (k - 1)) % 256 == (id as int + k) % 256
  {
  }

  lemma StretchOfRest(payload: Bytes, room: nat, k: nat, to: nat)
    requires k > 0 && room <= |payload|
    ensures (k - 1) * room + room == k * room
    ensures (k - 1) * room <= to <= |payload| - room ==> payload[room..][(k - 1) * room..to] == payload[k * room..to + room]
  {
    assert (k - 1) * room + room == k * room;
  }

  /** Packet `k` of a client message, byte for byte: the `k`-th stretch of the payload behind a header with the message's
      type, the final status on the last packet only, its own length, and the id `k` further on, wrapping at 256. */
  lemma {:induction false} SplitPacket(packetType: Byte, payload: Bytes, room: nat, id: Byte, k: nat)
    requires 0 < room <= MAX_PACKET_LEN - HEADER_LEN && k < |Split(packetType, payload, room, id)|
    ensures k * room <= |payload|
    ensures var fs := Split(packetType, payload, room, id);
            var last := k == |fs| - 1;
            var from := k * room;
            var to := if last then |payload| else from + room;
            && 0 <= from <= to <= |payload| && to - from <= room && fs[k].payload == payload[from..to]
            && fs[k].header.packetType == packetType && fs[k].header.status == (if last then 1 else 0)
            && fs[k].header.length == 8 + (to - from) && fs[k].header.packetId == (id as int + k) % 256
            && fs[k].header.serverProcessId == 0 && fs[k].header.window == 0
    decreases |payload|
  {
    if k > 0 {
      var later := Split(packetType, payload[room..], room, NextId(id));
      assert Split(packetType, payload, room, id)[1..] == later;
      SplitPacket(packetType, payload[room..], room, NextId(id), k - 1);
      IdsAdd(id, k);
      StretchOfRest(payload, room, k, if k == |later| then |payload| - room else (k - 1) * room + room);
    }
  }

  /** In every well-formed message packet `k` has the first one's type and its id plus `k`, wrapping at 256; only the
      last packet is final. */
  lemma {:induction false} MessagePacket(fs: seq<Frame>, seen: Option<Expect>, k: nat)
    requires IsMessage(fs, seen) && k < |fs|
    ensures fs[k].header.packetType == fs[0].header.packetType
    ensures fs[k].header.packetId == (fs[0].header.packetId as int + k) % 256
    ensures fs[k].header.status == 1 <==> k == |fs| - 1
    ensures fs[k].header.length == 8 + |fs[k].payload|
    decreases |fs|
  {
    if k > 0 {
      MessagePacket(fs[1..], Following(fs[0].header), k - 1);
      IdsAdd(fs[0].header.packetId, k);
    }
  }

  /** Number of packets `EncodeMessage` reserves room for: the rounded-up quotient, at least one. */
  function PacketCount(len: nat, room: nat): nat
    requires room > 0
  {
    if len == 0 then 1 else (len + room - 1) / room
  }

  lemma PacketCountStep(len: nat, room: nat)
    requires room > 0
    ensures len <= room ==> PacketCount(len, room) == 1
    ensures len > room ==> PacketCount(len, room) == 1 + PacketCount(len - room, room)
  {
    if 0 < len <= room {
      QuotientUnique(len + room - 1, room, 1, len - 1);
    } else if len > room {
      var a := len - 1;
      QuotientUnique(a + room, room, a / room + 1, a % room);
    }
  }

  lemma SplitHead(packetType: Byte, rest: Bytes, room: nat, id: Byte)
    requires 0 < room <= MAX_PACKET_LEN - HEADER_LEN
    ensures var todo := Split(packetType, rest, room, id);
            var chunk := rest[..if |rest| <= room then |rest| else room];
            var status := if |rest| <= room then END_OF_MESSAGE else NORMAL;
            && WireBytes(todo) ==
                 EncodeHeader(ClientHeader(packetType, status, HEADER_LEN + |chunk|, id)) + chunk + WireBytes(todo[1..])
            && todo[1..] == if |rest| <= room then [] else Split(packetType, rest[room..], room, NextId(id))
  {
    hide EncodeHeader;
    var todo := Split(packetType, rest, room, id);
    if |rest| <= room {
      assert rest[..|rest|] == rest;
      assert todo[1..] == [];
    } else {
      assert todo[1..] == Split(packetType, rest[room..], room, NextId(id));
    }
  }

  method EncodeMessage(packetType: Byte, payload: Bytes, packetSize: nat) returns (r: Result<Bytes, FrameError>)
    ensures packetSize <= HEADER_LEN || packetSize > MAX_PACKET_LEN ==> r == Err(InvalidMaxPacketSize(packetSize))
    ensures HEADER_LEN < packetSize <= MAX_PACKET_LEN ==>
              r == Ok(WireBytes(Split(packetType, payload, packetSize - HEADER_LEN, 1)))
  {
    hide EncodeHeader, PacketCount;
    if packetSize <= HEADER_LEN || packetSize > MAX_PACKET_LEN {
      return Err(InvalidMaxPacketSize(packetSize));
    }
    var room := packetSize - HEADER_LEN;
    var totalLen := |payload| + PacketCount(|payload|, room) * HEADER_LEN;
    var out: Bytes := [];
    var id: Byte := 1;
    ghost var all := Split(packetType, payload, room, 1);
    if |payload| == 0 {
      out := EncodeHeader(ClientHeader(packetType, END_OF_MESSAGE, HEADER_LEN, id));
      assert all[1..] == [];
      assert WireBytes(all) == out;
      return Ok(out);
    }
    var rest := payload;
    ghost var todo := all;
    while |rest| > 0
      invariant todo == if |rest| > 0 then Split(packetType, rest, room, id) else []
      invariant WireBytes(all) == out + WireBytes(todo)
      invariant |rest| > 0 ==> |out| + |rest| + PacketCount(|rest|, room) * HEADER_LEN == totalLen
      decreases |rest|
    {
      var chunk := rest[..if |rest| <= room then |rest| else room];
      PacketCountStep(|rest|, room);
      var isLast := |out| + HEADER_LEN + |chunk| == totalLen;
      var status := if isLast then END_OF_MESSAGE else NORMAL;
      var header := ClientHeader(packetType, status, HEADER_LEN + |chunk|, id);
      SplitHead(packetType, rest, room, id);
      assert WireBytes(all) == out + EncodeHeader(header) + chunk + WireBytes(todo[1..]);
      out := out + EncodeHeader(header) + chunk;
      todo := todo[1..];
      rest := rest[|chunk|..];
      id := NextId(id);
    }
    assert out + WireBytes([]) == out;
    return Ok(out);
  }

  // ---- decoding a buffer ----

  datatype Decoded =
    | NotYet
    | Message(packetType: Byte, payload: Bytes, consumed: nat)
    | Bad(error: FrameError)
  {
    /** The outcome once a packet with this payload and length in front has been consumed too. */
    function After(chunk: Bytes, length: nat): Decoded {
      match this
      case Message(t, p, n) => Message(t, chunk + p, length + n)
      case other => other
    }
  }

  function DecodeFrom(rest: Bytes, seen: Option<Expect>): Decoded
    decreases |rest|
  {
    if |rest| < HEADER_LEN then NotYet
    else
      match DecodeHeader(rest[..HEADER_LEN])
      case Err(e) => Bad(e)
      case Ok(h) =>
        if seen.Some? && h.packetType != seen.value.packetType then
          Bad(MismatchedPacketType(seen.value.packetType, h.packetType))
        else if seen.Some? && h.packetId != seen.value.packetId then
          Bad(UnexpectedPacketId(seen.value.packetId, h.packetId))
        else if |rest| < h.length then NotYet
        else if h.status == END_OF_MESSAGE then Message(h.packetType, rest[HEADER_LEN..h.length], h.length)
        else DecodeFrom(rest[h.length..], Following(h)).After(rest[HEADER_LEN..h.length], h.length)
  }

  lemma AfterAfter(d: Decoded, a: Bytes, m: nat, b: Bytes, n: nat)
    ensures d.After(b, n).After(a, m) == d.After(a + b, m + n)
  {
    if d.Message? {
      assert a + (b + d.payload) == a + b + d.payload;
    }
  }

  /** The driver's buffer decoder: a loop over packets with a running offset. */
  method TryDecodeMessage(input: Bytes) returns (d: Decoded)
    ensures d == DecodeFrom(input, None)
  {
    hide DecodeHeader;
    var offset := 0;
    var seen: Option<Expect> := None;
    var payload: Bytes := [];
    while true
      invariant offset <= |input|
      invariant DecodeFrom(input, None) == DecodeFrom(input[offset..], seen).After(payload, offset)
      decreases |input| - offset
    {
      var rest := input[offset..];
      if |input| < offset + HEADER_LEN {
        return NotYet;
      }
      var decoded := DecodeHeader(rest[..HEADER_LEN]);
      if decoded.Err? {
        return Bad(decoded.error);
      }
      var header := decoded.value;
      if seen.Some? && header.packetType != seen.value.packetType {
        return Bad(MismatchedPacketType(seen.value.packetType, header.packetType));
      }
      if seen.Some? && header.packetId != seen.value.packetId {
        return Bad(UnexpectedPacketId(seen.value.packetId, header.packetId));
      }
      if |input| < offset + header.length {
        return NotYet;
      }
      var chunk := input[offset + HEADER_LEN..offset + header.length];
      assert chunk == rest[HEADER_LEN..header.length];
      assert input[offset + header.length..] == rest[header.length..];
      AfterAfter(DecodeFrom(rest[header.length..], Following(header)), payload, offset, chunk, header.length);
      payload := payload + chunk;
      offset := offset + header.length;
      seen := Following(header);
      if header.status == END_OF_MESSAGE {
        return Message(header.packetType, payload, offset);
      }
    }
  }

  /** Once decided, the outcome never changes when more bytes arrive. */
  lemma {:induction false} DecodeStable(input: Bytes, seen: Option<Expect>, more: Bytes)
    requires !DecodeFrom(input, seen).NotYet?
    ensures DecodeFrom(input + more, seen) == DecodeFrom(input, seen)
    decreases |input|
  {
    var all := input + more;
    assert all[..HEADER_LEN] == input[..HEADER_LEN];
    var decoded := DecodeHeader(input[..HEADER_LEN]);
    if decoded.Ok? && Matches(decoded.value, seen) {
      var h := decoded.value;
      assert all[HEADER_LEN..h.length] == input[HEADER_LEN..h.length];
      assert all[h.length..] == input[h.length..] + more;
      if h.status != END_OF_MESSAGE {
        DecodeStable(input[h.length..], Following(h), more);
      }
    }
  }

  /** One packet in front of anything decodes to its own payload followed by what decodes after it. */
  lemma DecodeOneFrame(f: Frame, seen: Option<Expect>, rest: Bytes)
    requires f.header.length == HEADER_LEN + |f.payload| && Matches(f.header, seen)
    ensures DecodeFrom(FrameBytes(f) + rest, seen) ==
            if f.header.status == END_OF_MESSAGE then Message(f.header.packetType, f.payload, f.header.length)
            else DecodeFrom(rest, Following(f.header)).After(f.payload, f.header.length)
  {
    var all := FrameBytes(f) + rest;
    HeaderRoundTrip(f.header);
    assert all[..HEADER_LEN] == EncodeHeader(f.header);
    assert all[HEADER_LEN..f.header.length] == f.payload;
    assert all[f.header.length..] == rest;
  }

  /** A second packet is refused exactly for another type or for any id but the next one, the type first. */
  lemma SecondPacketChecked(first: Frame, second: Frame, tail: Bytes)
    requires first.header.length == HEADER_LEN + |first.payload| && first.header.status != 1
    requires second.header.length == HEADER_LEN + |second.payload|
    ensures var d := DecodeFrom(FrameBytes(first) + (FrameBytes(second) + tail), None);
            var expected := (first.header.packetId as int + 1) % 256;
            if second.header.packetType != first.header.packetType then
              d == Bad(MismatchedPacketType(first.header.packetType, second.header.packetType))
            else if second.header.packetId != expected then
              d == Bad(UnexpectedPacketId(expected, second.header.packetId))
            else second.header.status == 1 ==>
              d == Message(first.header.packetType, first.payload + second.payload,
                           first.header.length as int + second.header.length)
  {
    DecodeOneFrame(first, None, FrameBytes(second) + tail);
    var all := FrameBytes(second) + tail;
    HeaderRoundTrip(second.header);
    assert all[..HEADER_LEN] == EncodeHeader(second.header);
    if Matches(second.header, Following(first.header)) && second.header.status == END_OF_MESSAGE {
      DecodeOneFrame(second, Following(first.header), tail);
    }
  }

  /** Every message decodes to its type and payload and consumes exactly its own bytes. */
  lemma {:induction false} MessageDecodes(fs: seq<Frame>, seen: Option<Expect>, tail: Bytes)
    requires IsMessage(fs, seen)
    ensures DecodeFrom(WireBytes(fs) + tail, seen) == Message(fs[0].header.packetType, Payloads(fs), |WireBytes(fs)|)
    decreases |fs|
  {
    var f, later := fs[0], fs[1..];
    assert WireBytes(fs) + tail == FrameBytes(f) + (WireBytes(later) + tail);
    DecodeOneFrame(f, seen, WireBytes(later) + tail);
    if |fs| == 1 {
      assert later == [];
    } else {
      MessageDecodes(later, Following(f.header), tail);
    }
  }

  /** Every proper prefix of a message is an unfinished one. */
  lemma {:induction false} MessagePrefixNotYet(fs: seq<Frame>, seen: Option<Expect>, k: nat)
    requires IsMessage(fs, seen) && k < |WireBytes(fs)|
    ensures DecodeFrom(WireBytes(fs)[..k], seen) == NotYet
    decreases |fs|
  {
    var f, later := fs[0], fs[1..];
    var part := WireBytes(fs)[..k];
    if |fs| == 1 { assert later == []; }
    if HEADER_LEN <= k < f.header.length {
      HeaderRoundTrip(f.header);
      assert part[..HEADER_LEN] == EncodeHeader(f.header);
    } else if f.header.length <= k {
      var m := k - f.header.length;
      assert part == FrameBytes(f) + WireBytes(later)[..m];
      DecodeOneFrame(f, seen, WireBytes(later)[..m]);
      MessagePrefixNotYet(later, Following(f.header), m);
    }
  }

  /** The packets a successful decode went through. */
  function FramesOf(rest: Bytes, seen: Option<Expect>): (fs: seq<Frame>)
    requires DecodeFrom(rest, seen).Message?
    decreases |rest|
  {
    var h := DecodeHeader(rest[..HEADER_LEN]).value;
    var f := Frame(h, rest[HEADER_LEN..h.length]);
    if h.status == END_OF_MESSAGE then [f] else [f] + FramesOf(rest[h.length..], Following(h))
  }

  lemma {:induction false} DecodedIsMessage(rest: Bytes, seen: Option<Expect>)
    requires DecodeFrom(rest, seen).Message?
    ensures var d, fs := DecodeFrom(rest, seen), FramesOf(rest, seen);
            && IsMessage(fs, seen)
            && d == Message(fs[0].header.packetType, Payloads(fs), |WireBytes(fs)|)
            && WireBytes(fs) <= rest
    decreases |rest|
  {
    var h := DecodeHeader(rest[..HEADER_LEN]).value;
    HeaderDecodeInjective(rest[..HEADER_LEN]);
    var f := Frame(h, rest[HEADER_LEN..h.length]);
    var fs := FramesOf(rest, seen);
    assert FrameBytes(f) == rest[..h.length];
    assert rest == FrameBytes(f) + rest[h.length..];
    if h.status == END_OF_MESSAGE {
      assert WireBytes(fs) == FrameBytes(f) + WireBytes([]);
      assert Payloads(fs) == f.payload + Payloads([]);
    } else {
      DecodedIsMessage(rest[h.length..], Following(h));
      assert fs[1..] == FramesOf(rest[h.length..], Following(h));
    }
  }

  /** The decoder accepts exactly the inputs that start with a well-formed message. */
  lemma DecodeCharacterised(input: Bytes, packetType: Byte, payload: Bytes, consumed: nat)
    ensures DecodeFrom(input, None) == Message(packetType, payload, consumed) <==>
            exists fs: seq<Frame> :: && IsMessage(fs, None) && WireBytes(fs) <= input
                         && packetType == fs[0].header.packetType && payload == Payloads(fs)
                         && consumed == |WireBytes(fs)|
  {
    hide DecodeHeader, DecodeFrom, WireBytes, Payloads;
    if DecodeFrom(input, None) == Message(packetType, payload, consumed) {
      DecodedIsMessage(input, None);
      var fs := FramesOf(input, None);
      assert IsMessage(fs, None) && WireBytes(fs) <= input;
    }
    forall fs: seq<Frame> | IsMessage(fs, None) && WireBytes(fs) <= input
      ensures DecodeFrom(input, None) == Message(fs[0].header.packetType, Payloads(fs), |WireBytes(fs)|)
    {
      MessageDecodes(fs, None, input[|WireBytes(fs)|..]);
      assert input == WireBytes(fs) + input[|WireBytes(fs)|..];
    }
  }

  /** Framing round trip for every payload, packet size and suffix, past 255 packets too. */
  lemma FramingRoundTrip(packetType: Byte, payload: Bytes, packetSize: nat, tail: Bytes)
    requires HEADER_LEN < packetSize <= MAX_PACKET_LEN
    ensures var out := WireBytes(Split(packetType, payload, packetSize - HEADER_LEN, 1));
            && DecodeFrom(out + tail, None) == Message(packetType, payload, |out|)
            && forall k: nat | k < |out| :: DecodeFrom(out[..k], None) == NotYet
  {
    var fs := Split(packetType, payload, packetSize - HEADER_LEN, 1);
    SplitIsMessage(packetType, payload, packetSize - HEADER_LEN, 1, None);
    MessageDecodes(fs, None, tail);
    forall k: nat | k < |WireBytes(fs)| ensures DecodeFrom(WireBytes(fs)[..k], None) == NotYet {
      MessagePrefixNotYet(fs, None, k);
    }
  }
}
