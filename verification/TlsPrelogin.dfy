/** The stream that carries TLS handshake bytes inside PRELOGIN packets. */
module TlsPrelogin {
  import opened Wire
  import opened Packet

  // ---- the deframer as an automaton over single bytes ----

  /** Header bytes gathered so far, payload bytes still owed, payload seen, and whether a header was refused. */
  datatype Deframer = Deframer(header: Bytes, remaining: nat, payload: Bytes, bad: bool)

  const START: Deframer := Deframer([], 0, [], false)

  predicate Accepted(header: Bytes) {
    DecodeHeader(header).Ok? && DecodeHeader(header).value.packetType == PRE_LOGIN
  }

  function Resolve(s: Deframer, header: Bytes): Deframer
    requires |header| == HEADER_LEN
  {
    if Accepted(header) then
      s.(header := [], remaining := DecodeHeader(header).value.length - HEADER_LEN)
    else
      s.(header := header, bad := true)
  }

  function Feed(s: Deframer, b: Byte): Deframer {
    if s.bad || |s.header| >= HEADER_LEN then s
    else if s.remaining > 0 then s.(remaining := s.remaining - 1, payload := s.payload + [b])
    else if |s.header| + 1 < HEADER_LEN then s.(header := s.header + [b])
    else Resolve(s, s.header + [b])
  }

  function FeedAll(s: Deframer, bytes: Bytes): Deframer
    decreases |bytes|
  {
    if |bytes| == 0 then s else FeedAll(Feed(s, bytes[0]), bytes[1..])
  }

  lemma {:induction false} FeedAllAppend(s: Deframer, a: Bytes, b: Bytes)
    ensures FeedAll(s, a + b) == FeedAll(FeedAll(s, a), b)
    decreases |a|
  {
    if |a| == 0 {
      assert a + b == b;
    } else {
      assert (a + b)[1..] == a[1..] + b;
      FeedAllAppend(Feed(s, a[0]), a[1..], b);
    }
  }

  lemma {:induction false} FeedPayload(s: Deframer, bytes: Bytes)
    requires !s.bad && s.header == [] && |bytes| <= s.remaining
    ensures FeedAll(s, bytes) == s.(remaining := s.remaining - |bytes|, payload := s.payload + bytes)
    decreases |bytes|
  {
    if |bytes| == 0 {
      assert s.payload + bytes == s.payload;
    } else {
      FeedPayload(Feed(s, bytes[0]), bytes[1..]);
      assert s.payload + [bytes[0]] + bytes[1..] == s.payload + bytes;
    }
  }

  lemma {:induction false} FeedHeader(s: Deframer, bytes: Bytes)
    requires !s.bad && s.remaining == 0 && |s.header| + |bytes| <= HEADER_LEN && |s.header| < HEADER_LEN
    ensures FeedAll(s, bytes) ==
            if |s.header| + |bytes| < HEADER_LEN then s.(header := s.header + bytes)
            else Resolve(s, s.header + bytes)
    decreases |bytes|
  {
    if |bytes| == 0 {
      assert s.header + bytes == s.header;
    } else {
      assert s.header + [bytes[0]] + bytes[1..] == s.header + bytes;
      if |bytes| == 1 {
        assert FeedAll(s, bytes) == Feed(s, bytes[0]);
      } else {
        FeedHeader(Feed(s, bytes[0]), bytes[1..]);
      }
    }
  }

  lemma ResolveForgetsHeader(s: Deframer, header: Bytes)
    requires |header| == HEADER_LEN
    ensures Resolve(s, header) == Resolve(s.(header := []), header)
  {
  }

  lemma SuffixGrows(whole: Bytes, suffix: Bytes, bytes: Bytes)
    requires |suffix| <= |whole| && suffix == whole[|whole| - |suffix|..]
    ensures (whole + bytes)[|whole + bytes| - |suffix + bytes|..] == suffix + bytes
  {
  }

  /** Header bytes read on top of those already gathered, in terms of the whole raw stream. */
  lemma HeaderBytesArrive(framed: Bytes, gathered: Bytes, delivered: Bytes, bytes: Bytes)
    requires FeedAll(START, framed) == Deframer(gathered, 0, delivered, false)
    requires |gathered| < HEADER_LEN && |gathered| + |bytes| <= HEADER_LEN
    ensures FeedAll(START, framed + bytes) ==
            if |gathered + bytes| < HEADER_LEN then Deframer(gathered + bytes, 0, delivered, false)
            else Resolve(Deframer([], 0, delivered, false), gathered + bytes)
  {
    var s := Deframer(gathered, 0, delivered, false);
    FeedAllAppend(START, framed, bytes);
    FeedHeader(s, bytes);
    if |gathered + bytes| == HEADER_LEN {
      ResolveForgetsHeader(s, gathered + bytes);
    }
  }

  predicate PreloginFrames(fs: seq<Frame>) {
    forall f <- fs :: f.header.packetType == PRE_LOGIN && f.header.length == HEADER_LEN + |f.payload|
  }

  lemma FeedFrame(s: Deframer, f: Frame)
    requires PreloginFrames([f]) && !s.bad && s.header == [] && s.remaining == 0
    ensures FeedAll(s, FrameBytes(f)) == s.(payload := s.payload + f.payload)
  {
    hide FeedAll, Feed, EncodeHeader, DecodeHeader;
    HeaderRoundTrip(f.header);
    FeedHeader(s, EncodeHeader(f.header));
    assert [] + EncodeHeader(f.header) == EncodeHeader(f.header);
    FeedPayload(s.(remaining := |f.payload|), f.payload);
    FeedAllAppend(s, EncodeHeader(f.header), f.payload);
  }

  /** Feeding whole PRELOGIN packets yields exactly the bytes they carry, whatever their ids and status bits. */
  lemma {:induction false} FeedFrames(s: Deframer, fs: seq<Frame>)
    requires PreloginFrames(fs) && !s.bad && s.header == [] && s.remaining == 0
    ensures FeedAll(s, WireBytes(fs)) == s.(payload := s.payload + Payloads(fs))
    decreases |fs|
  {
    hide FrameBytes;
    if |fs| == 0 {
      assert s.payload + Payloads(fs) == s.payload;
    } else {
      var f := fs[0];
      FeedFrame(s, f);
      FeedAllAppend(s, FrameBytes(f), WireBytes(fs[1..]));
      FeedFrames(s.(payload := s.payload + f.payload), fs[1..]);
      Assoc(s.payload, f.payload, Payloads(fs[1..]));
    }
  }

  lemma {:induction false} FeedMonotone(s: Deframer, bytes: Bytes)
    ensures s.payload <= FeedAll(s, bytes).payload
    ensures s.bad ==> FeedAll(s, bytes).bad
    decreases |bytes|
  {
    if |bytes| > 0 {
      FeedMonotone(Feed(s, bytes[0]), bytes[1..]);
    }
  }

  /** After any part of a packet stream: nothing refused, and a prefix of the payload has been seen,
      the whole of it once every raw byte is in. */
  lemma PartialDeframing(fs: seq<Frame>, k: nat)
    requires PreloginFrames(fs) && k <= |WireBytes(fs)|
    ensures !FeedAll(START, WireBytes(fs)[..k]).bad
    ensures FeedAll(START, WireBytes(fs)[..k]).payload <= Payloads(fs)
    ensures k == |WireBytes(fs)| ==> FeedAll(START, WireBytes(fs)[..k]).payload == Payloads(fs)
  {
    var raw := WireBytes(fs);
    FeedFrames(START, fs);
    assert [] + Payloads(fs) == Payloads(fs);
    assert raw == raw[..k] + raw[k..];
    FeedAllAppend(START, raw[..k], raw[k..]);
    FeedMonotone(FeedAll(START, raw[..k]), raw[k..]);
  }

  // ---- the polled transport underneath ----

  datatype Poll<+T> = Pending | Ready(value: T) | Failed

  /** A transport that may answer Pending (finitely often to reads), cut reads and writes short, or fail, as it
      likes at every poll. */
  class Transport {
    var incoming: Bytes
    var patience: nat            // Pending answers it may still give to a read
    var sent: Bytes
    ghost var readFailures: nat
    ghost var writeStalls: nat   // write polls that made no progress

    constructor (incoming: Bytes, patience: nat)
      ensures this.incoming == incoming && this.patience == patience && sent == [] && readFailures == writeStalls == 0
    {
      this.incoming, this.patience, sent, readFailures, writeStalls := incoming, patience, [], 0, 0;
    }

    /** Reads nothing only when the buffer has no room or the peer has closed. */
    method PollRead(capacity: nat) returns (p: Poll<Bytes>)
      modifies this`incoming, this`patience, this`readFailures
      ensures if p.Pending? then patience < old(patience) else patience == old(patience)
      ensures p.Ready? ==> |p.value| <= capacity && old(incoming) == p.value + incoming
      ensures p.Ready? && p.value == [] ==> capacity == 0 || incoming == []
      ensures !p.Ready? ==> incoming == old(incoming)
      ensures readFailures == old(readFailures) + if p.Failed? then 1 else 0
    {
      if patience > 0 {
        if * {
          patience := patience - 1;
          return Pending;
        }
      }
      if * {
        readFailures := readFailures + 1;
        return Failed;
      }
      var most := if capacity <= |incoming| then capacity else |incoming|;
      var n: nat :| n <= most && (n == 0 ==> most == 0);
      p := Ready(incoming[..n]);
      assert incoming == incoming[..n] + incoming[n..];
      incoming := incoming[n..];
    }

    method PollWrite(buf: Bytes) returns (p: Poll<nat>)
      modifies this`sent, this`writeStalls
      ensures p.Ready? ==> p.value <= |buf| && sent == old(sent) + buf[..p.value]
      ensures !p.Ready? ==> sent == old(sent)
      ensures writeStalls == old(writeStalls) + if p.Ready? && p.value > 0 then 0 else 1
    {
      if * {
        writeStalls := writeStalls + 1;
        return Pending;
      } else if * {
        writeStalls := writeStalls + 1;
        return Failed;
      }
      var n: nat :| n <= |buf|;
      sent := sent + buf[..n];
      if n == 0 {
        writeStalls := writeStalls + 1;
      }
      return Ready(n);
    }

    method PollFlush() returns (p: Poll<()>)
    {
      if * { return Pending; } else if * { return Failed; } else { return Ready(()); }
    }
  }

  const HANDSHAKE_PACKET_SIZE: nat := 4096

  /** The packets a flush wraps pending handshake bytes in. */
  function Wrapped(payload: Bytes): Bytes {
    WireBytes(Split(PRE_LOGIN, payload, HANDSHAKE_PACKET_SIZE - HEADER_LEN, 1))
  }

  method CopyInto(a: array<Byte>, at: nat, bytes: Bytes)
    requires at + |bytes| <= a.Length
    modifies a
    ensures a[..at + |bytes|] == old(a[..at]) + bytes
  {
    forall i | 0 <= i < |bytes| {
      a[at + i] := bytes[i];
    }
  }

  lemma PartSent(before: Bytes, sentNow: Bytes, rest: Bytes)
    ensures before <= before + sentNow && (before + sentNow)[|before|..] == sentNow <= sentNow + rest
    ensures before + sentNow == before + (sentNow + rest) <==> rest == []
    ensures sentNow + [] == sentNow && [] + rest == rest && before + [] == before
  {
    assert |before + (sentNow + rest)| == |before| + |sentNow| + |rest|;
  }

  lemma PartWritten(before: Bytes, sentNow: Bytes, buf: Bytes, n: nat)
    requires n <= |buf|
    ensures sentNow + buf == sentNow + buf[..n] + ([] + buf[n..])
    ensures before + sentNow + buf[..n] == before + (sentNow + buf[..n])
    ensures n == 0 ==> before + sentNow + buf[..n] == before + sentNow
    ensures n == |buf| ==> sentNow + buf == sentNow + buf[..n] + []
  {
  }

  lemma TakenInTwoSteps(before: Bytes, mid: Bytes, more: Bytes, input: Bytes, left: Bytes, rest: Bytes)
    requires before <= mid && input == mid[|before|..] + left && left == more + rest
    ensures before <= mid + more && input == (mid + more)[|before|..] + rest
    ensures more == [] ==> mid + more == mid
  {
    assert (mid + more)[|before|..] == mid[|before|..] + more;
  }

  class TlsPreloginStream {
    const transport: Transport
    var handshake: bool
    var headerBuf: array<Byte>
    var headerPos: nat
    var readRemaining: nat
    var writeBuf: Bytes
    ghost var framed: Bytes      // raw bytes taken from the transport while deframing
    ghost var delivered: Bytes   // bytes handed to the TLS layer while deframing

    /** The fields are the automaton's state after exactly the raw bytes taken so far. */
    ghost predicate Valid()
      reads this, headerBuf
    {
      && headerBuf.Length == HEADER_LEN && headerPos <= HEADER_LEN
      && FeedAll(START, framed) == Deframer(headerBuf[..headerPos], readRemaining, delivered, headerPos == HEADER_LEN)
         && (readRemaining > 0 ==> headerPos == 0)
      && (headerPos == HEADER_LEN ==> !Accepted(headerBuf[..]))
      && headerPos <= |framed| && headerBuf[..headerPos] == framed[|framed| - headerPos..]
    }

    constructor (transport: Transport)
      ensures Valid() && fresh(headerBuf) && this.transport == transport
      ensures !handshake && writeBuf == [] && framed == [] && delivered == []
    {
      this.transport := transport;
      handshake, headerPos, readRemaining, writeBuf := false, 0, 0, [];
      headerBuf := new Byte[HEADER_LEN](_ => 0);
      framed, delivered := [], [];
    }

    method StartHandshake()
      requires Valid()
      modifies this`handshake
      ensures Valid() && handshake
    {
      handshake := true;
    }

    method FinishHandshake()
      requires Valid()
      modifies this`handshake
      ensures Valid() && !handshake
    {
      handshake := false;
    }

    /** Gathers one packet header, over as many polls as the transport needs. */
    method PollHeader() returns (p: Poll<()>)
      requires Valid() && readRemaining == 0
      modifies this`headerPos, this`readRemaining, this`framed, headerBuf,
               transport`incoming, transport`patience, transport`readFailures
      ensures Valid() && headerBuf == old(headerBuf)
      ensures old(framed) <= framed && old(transport.incoming) == framed[|old(framed)|..] + transport.incoming
      ensures if p.Pending? then transport.patience < old(transport.patience) else transport.patience == old(transport.patience)
      ensures transport.readFailures >= old(transport.readFailures)
      ensures p.Ready? ==> |framed| > |old(framed)|
      ensures p.Ready? ==>
                && headerPos == 0 && |framed| >= HEADER_LEN
                && DecodeHeader(framed[|framed| - HEADER_LEN..]).Ok?
                && DecodeHeader(framed[|framed| - HEADER_LEN..]).value.length == HEADER_LEN + readRemaining
                && transport.readFailures == old(transport.readFailures)
      ensures !p.Ready? ==> readRemaining == 0
      ensures p.Pending? ==> headerPos < HEADER_LEN
      ensures p.Failed? ==>
                || transport.readFailures > old(transport.readFailures)
                || transport.incoming == []
                || FeedAll(START, framed).bad
    {
      hide FeedAll, DecodeHeader;
      ghost var taken: Bytes := [];
      ghost var gathered := Deframer([], 0, delivered, false);
      while headerPos < HEADER_LEN
        invariant headerBuf.Length == HEADER_LEN && headerPos <= HEADER_LEN && readRemaining == 0
        invariant headerBuf == old(headerBuf) && transport.patience == old(transport.patience)
        invariant headerPos == old(headerPos) + |taken|
        invariant transport.readFailures == old(transport.readFailures)
        invariant framed == old(framed) + taken && old(transport.incoming) == taken + transport.incoming
        invariant headerPos < HEADER_LEN ==> Valid()
        invariant headerPos == HEADER_LEN ==> FeedAll(START, framed) == Resolve(gathered, headerBuf[..])
        invariant headerPos <= |framed| && headerBuf[..headerPos] == framed[|framed| - headerPos..]
        decreases HEADER_LEN - headerPos
      {
        var read := transport.PollRead(HEADER_LEN - headerPos);
        if !read.Ready? {
          return if read.Pending? then Pending else Failed;
        }
        if read.value == [] {
          return Failed;
        }
        assert old(transport.incoming) == taken + read.value + transport.incoming;
        assert old(framed) + taken + read.value == old(framed) + (taken + read.value);
        StoreHeader(read.value);
        taken := taken + read.value;
      }
      assert headerBuf[..HEADER_LEN] == headerBuf[..];
      var header := DecodeHeader(headerBuf[..]);
      if header.Err? || header.value.packetType != PRE_LOGIN {
        return Failed;
      }
      readRemaining := header.value.length - HEADER_LEN;
      headerPos := 0;
      assert headerBuf[..0] == [] && framed[|framed|..] == [];
      return Ready(());
    }

    /** Copies freshly read header bytes behind those already gathered. */
    method StoreHeader(bytes: Bytes)
      requires Valid() && readRemaining == 0 && headerPos + |bytes| <= HEADER_LEN && headerPos < HEADER_LEN
      modifies this`headerPos, this`framed, headerBuf
      ensures headerPos == old(headerPos) + |bytes| && framed == old(framed) + bytes
      ensures headerPos <= |framed| && headerBuf[..headerPos] == framed[|framed| - headerPos..]
      ensures headerPos < HEADER_LEN ==> Valid()
      ensures headerPos == HEADER_LEN ==>
                FeedAll(START, framed) == Resolve(Deframer([], 0, delivered, false), headerBuf[..])
    {
      hide FeedAll, Resolve;
      ghost var gathered := headerBuf[..headerPos];
      HeaderBytesArrive(framed, gathered, delivered, bytes);
      SuffixGrows(framed, gathered, bytes);
      CopyInto(headerBuf, headerPos, bytes);
      framed := framed + bytes;
      headerPos := headerPos + |bytes|;
      assert headerBuf[..headerPos] == gathered + bytes;
      if headerPos == HEADER_LEN {
        assert headerBuf[..headerPos] == headerBuf[..];
      }
    }

    /** One poll of the reader. Valid() on both sides says that, however the transport cut the bytes,
        what has been delivered is the payload of the raw bytes taken, no more and no less. */
    method PollRead(capacity: nat) returns (p: Poll<Bytes>)
      requires Valid()
      modifies this`headerPos, this`readRemaining, this`framed, this`delivered, headerBuf,
               transport`incoming, transport`patience, transport`readFailures
      ensures Valid() && headerBuf == old(headerBuf)
      ensures if p.Pending? then transport.patience < old(transport.patience) else transport.patience == old(transport.patience)
      ensures transport.readFailures >= old(transport.readFailures)
      ensures handshake && capacity > 0 && p.Ready? ==> |framed| > |old(framed)|
      ensures p.Ready? ==> |p.value| <= capacity
      ensures !handshake ==>
                framed == old(framed) && delivered == old(delivered)
                && old(transport.incoming) == (if p.Ready? then p.value else []) + transport.incoming
      ensures handshake ==>
                && old(framed) <= framed
                && old(transport.incoming) == framed[|old(framed)|..] + transport.incoming
                && delivered == old(delivered) + if p.Ready? then p.value else []
      // An empty answer (which the TLS layer takes for end of file) comes only from a packet without payload.
      ensures handshake && capacity > 0 && p == Ready([]) ==>
                && |framed| >= HEADER_LEN
                && DecodeHeader(framed[|framed| - HEADER_LEN..]).Ok?
                && DecodeHeader(framed[|framed| - HEADER_LEN..]).value.length == HEADER_LEN
      // It never gets past a refused header.
      ensures handshake && capacity > 0 && !p.Failed? ==> !FeedAll(START, framed).bad
      // It fails only on a transport failure, an early close, or a header that is not a legal PRELOGIN one.
      ensures handshake && p.Failed? ==>
                || transport.readFailures > old(transport.readFailures)
                || transport.incoming == []
                || FeedAll(START, framed).bad
    {
      hide FeedAll, DecodeHeader, Accepted;
      if !handshake {
        p := transport.PollRead(capacity);
        return;
      }
      if capacity == 0 {
        return Ready([]);
      }
      if readRemaining == 0 {
        var header := PollHeader();
        if !header.Ready? {
          return if header.Pending? then Pending else Failed;
        }
      }
      ghost var mid, left := framed, transport.incoming;
      p := PollPayload(if readRemaining <= capacity then readRemaining else capacity);
      TakenInTwoSteps(old(framed), mid, if p.Ready? then p.value else [], old(transport.incoming), left, transport.incoming);
    }

    /** Passes on payload bytes of the packet whose header is already in. */
    method PollPayload(maxRead: nat) returns (p: Poll<Bytes>)
      requires Valid() && maxRead <= readRemaining && headerPos == 0 && (maxRead == 0 ==> readRemaining == 0)
      modifies this`readRemaining, this`framed, this`delivered,
               transport`incoming, transport`patience, transport`readFailures
      ensures Valid()
      ensures if p.Pending? then transport.patience < old(transport.patience) else transport.patience == old(transport.patience)
      ensures p.Ready? ==> |p.value| <= maxRead && (p.value == [] ==> maxRead == 0)
      ensures framed == old(framed) + if p.Ready? then p.value else []
      ensures delivered == old(delivered) + if p.Ready? then p.value else []
      ensures old(transport.incoming) == (if p.Ready? then p.value else []) + transport.incoming
      ensures p.Failed? ==> transport.readFailures > old(transport.readFailures) || transport.incoming == []
      ensures transport.readFailures >= old(transport.readFailures)
    {
      var read := transport.PollRead(maxRead);
      if !read.Ready? {
        return if read.Pending? then Pending else Failed;
      }
      if read.value == [] && readRemaining > 0 {
        return Failed;
      }
      FeedPayload(FeedAll(START, framed), read.value);
      FeedAllAppend(START, framed, read.value);
      framed := framed + read.value;
      delivered := delivered + read.value;
      readRemaining := readRemaining - |read.value|;
      return Ready(read.value);
    }

    /** During the handshake writes are only buffered. */
    method PollWrite(buf: Bytes) returns (p: Poll<nat>)
      requires Valid()
      modifies this`writeBuf, transport`sent, transport`writeStalls
      ensures Valid()
      ensures handshake ==> p == Ready(|buf|) && writeBuf == old(writeBuf) + buf
                            && transport.sent == old(transport.sent)
      ensures !handshake ==> writeBuf == old(writeBuf)
                             && transport.sent == old(transport.sent) + if p.Ready? && p.value <= |buf| then buf[..p.value] else []
    {
      if !handshake {
        p := transport.PollWrite(buf);
        return;
      }
      writeBuf := writeBuf + buf;
      return Ready(|buf|);
    }

    /** A flush sends the framing of everything written since the last one exactly when no write poll stalls.
        After a stall the unsent rest is gone: the buffer is empty and only a proper prefix went out. */
    method PollFlush() returns (p: Poll<()>)
      requires Valid()
      modifies this`writeBuf, transport`sent, transport`writeStalls
      ensures Valid()
      ensures !handshake || old(writeBuf) == [] ==> writeBuf == old(writeBuf) && transport.sent == old(transport.sent)
      ensures handshake ==> writeBuf == []
      ensures handshake && old(writeBuf) != [] ==>
                && old(transport.sent) <= transport.sent
                && transport.sent[|old(transport.sent)|..] <= Wrapped(old(writeBuf))
                && (transport.sent == old(transport.sent) + Wrapped(old(writeBuf))
                    <==> transport.writeStalls == old(transport.writeStalls))
                && (p.Ready? ==> transport.writeStalls == old(transport.writeStalls))
    {
      hide WireBytes, Split, FeedAll, Accepted;
      if handshake && writeBuf != [] {
        var payload := writeBuf;
        writeBuf := [];
        var framing := EncodeMessage(PRE_LOGIN, payload, HANDSHAKE_PACKET_SIZE);
        writeBuf := framing.value;
        ghost var before, sentNow: Bytes := transport.sent, [];
        PartSent(before, sentNow, writeBuf);
        while writeBuf != []
          invariant transport.sent == before + sentNow
          invariant Wrapped(payload) == sentNow + writeBuf
          invariant transport.writeStalls == old(transport.writeStalls)
          decreases |writeBuf|
        {
          var buf := writeBuf;
          writeBuf := [];
          PartSent(before, sentNow, buf);
          var written := transport.PollWrite(buf);
          if !written.Ready? {
            return if written.Pending? then Pending else Failed;
          }
          PartWritten(before, sentNow, buf, written.value);
          if written.value == 0 {
            return Failed;
          }
          sentNow := sentNow + buf[..written.value];
          if written.value < |buf| {
            writeBuf := writeBuf + buf[written.value..];
          }
        }
        PartSent(before, sentNow, []);
      }
      p := transport.PollFlush();
    }
  }

  /** What a stall-free flush sends gives the peer's deframer, and its message decoder, the bytes back. */
  lemma WrappedReachesPeer(payload: Bytes, tail: Bytes)
    ensures Wrapped(payload) == WireBytes(Split(0x12, payload, 4096 - 8, 1))
    ensures FeedAll(START, Wrapped(payload)) == START.(payload := payload)
    ensures DecodeFrom(Wrapped(payload) + tail, None) == Message(PRE_LOGIN, payload, |Wrapped(payload)|)
  {
    var room := HANDSHAKE_PACKET_SIZE - HEADER_LEN;
    SplitIsMessage(PRE_LOGIN, payload, room, 1, None);
    MessageIsPrelogin(Split(PRE_LOGIN, payload, room, 1), None);
    FeedFrames(START, Split(PRE_LOGIN, payload, room, 1));
    assert [] + payload == payload;
    FramingRoundTrip(PRE_LOGIN, payload, HANDSHAKE_PACKET_SIZE, tail);
  }

  lemma {:induction false} MessageIsPrelogin(fs: seq<Frame>, seen: Option<Expect>)
    requires IsMessage(fs, seen) && fs[0].header.packetType == PRE_LOGIN
    ensures PreloginFrames(fs)
    decreases |fs|
  {
    if |fs| > 1 {
      MessageIsPrelogin(fs[1..], Following(fs[0].header));
      assert fs == [fs[0]] + fs[1..];
    }
  }

  /** After a stall the peer is left with an unfinished message. */
  lemma StalledFlushLeavesPeerWaiting(payload: Bytes, k: nat)
    requires k < |Wrapped(payload)|
    ensures DecodeFrom(Wrapped(payload)[..k], None) == NotYet
  {
    FramingRoundTrip(PRE_LOGIN, payload, HANDSHAKE_PACKET_SIZE, []);
  }

  lemma UnfinishedDeframing(fs: seq<Frame>, framed: Bytes, incoming: Bytes)
    requires PreloginFrames(fs) && framed + incoming == WireBytes(fs)
    ensures !FeedAll(START, framed).bad && FeedAll(START, framed).payload <= Payloads(fs)
    ensures incoming == [] ==> FeedAll(START, framed).payload == Payloads(fs)
  {
    hide FeedAll, WireBytes, Payloads, PreloginFrames;
    PartialDeframing(fs, |framed|);
    assert WireBytes(fs)[..|framed|] == framed;
  }

  /** Polling on delivers the whole payload of any packet stream, whatever its ids and however the transport cuts
      it and holds it up, unless the transport itself fails. */
  method ReadExpected(s: TlsPreloginStream, capacity: nat, expected: nat, ghost fs: seq<Frame>)
    returns (out: Bytes, failed: bool)
    requires s.Valid() && s.handshake && capacity > 0 && s.framed == [] && s.delivered == []
    requires PreloginFrames(fs) && s.transport.incoming == WireBytes(fs) && expected == |Payloads(fs)|
    modifies s`headerPos, s`readRemaining, s`framed, s`delivered, s.headerBuf,
             s.transport`incoming, s.transport`patience, s.transport`readFailures
    ensures s.Valid() && out <= Payloads(fs)
    ensures failed ==> s.transport.readFailures > old(s.transport.readFailures)
    ensures !failed ==> out == Payloads(fs)
  {
    hide FeedAll, WireBytes, Payloads, PreloginFrames, DecodeHeader;
    out := [];
    ghost var total := WireBytes(fs);
    assert [] + total == total;
    while |out| < expected
      invariant s.Valid() && s.handshake && s.headerBuf == old(s.headerBuf)
      invariant out == s.delivered && s.framed + s.transport.incoming == total
      invariant out <= Payloads(fs)
      invariant s.transport.readFailures >= old(s.transport.readFailures)
      decreases |s.transport.incoming| + s.transport.patience
    {
      ghost var framed, incoming := s.framed, s.transport.incoming;
      var p := s.PollRead(capacity);
      TakenFromTotal(framed, s.framed, incoming, s.transport.incoming);
      UnfinishedDeframing(fs, s.framed, s.transport.incoming);
      if p.Failed? {
        return out, true;
      }
      if p.Ready? {
        out := out + p.value;
      }
    }
    return out, false;
  }

  lemma TakenFromTotal(before: Bytes, after: Bytes, input: Bytes, rest: Bytes)
    requires before <= after && input == after[|before|..] + rest
    ensures before + input == after + rest && |input| == |after| - |before| + |rest|
  {
    assert after == before + after[|before|..];
  }

  lemma {:induction false} FeedRefused(s: Deframer, bytes: Bytes)
    requires s.bad
    ensures FeedAll(s, bytes) == s
    decreases |bytes|
  {
    if |bytes| > 0 {
      FeedRefused(s, bytes[1..]);
    }
  }

  /** Between packets the next eight bytes are a header. It is refused exactly if its type is not 0x12 or its length,
      big-endian in the third and fourth byte, is below eight; nothing behind a refused header is ever delivered,
      and an accepted one announces its payload. */
  lemma HeaderRefusedIff(s: Deframer, header: Bytes, later: Bytes)
    requires !s.bad && s.header == [] && s.remaining == 0 && |header| == 8
    ensures var length, after := 256 * header[2] as int + header[3] as int, FeedAll(s, header);
            && (after.bad <==> header[0] != 0x12 || length < 8)
            && after.payload == s.payload
            && (after.bad ==> FeedAll(s, header + later).bad && FeedAll(s, header + later).payload == s.payload)
            && (!after.bad ==> after.remaining == length - 8)
  {
    assert DecodeHeader(header).Ok? ==> DecodeHeader(header).value.length == 256 * header[2] as int + header[3] as int;
    hide FeedAll, Feed;
    FeedHeader(s, header);
    assert [] + header == header;
    FeedAllAppend(s, header, later);
    if FeedAll(s, header).bad {
      FeedRefused(FeedAll(s, header), later);
    }
  }
}
