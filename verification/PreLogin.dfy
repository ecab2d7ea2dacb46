/** The PRELOGIN option table (section 2.2.6.5 of [MS-TDS]). */
module PreLogin {
  import opened Wire
  import opened Packet

  datatype Token = Version | Encryption | Instance | ThreadId | Mars | Terminator

  datatype PreLoginOption = PreLoginOption(token: Token, data: Bytes)

  datatype PreLoginError =
    | UnknownToken(code: Byte)
    | InvalidEncrypt(code: Byte)
    | MissingTerminator
    | TruncatedOptionTable
    | TerminatorOption
    | OptionOutOfBounds(offset: nat, length: nat)
    | MessageTooLarge
    | MissingEncryption

  const TERMINATOR: Byte := 0xff
  const ENTRY: nat := 5

  function TokenCode(t: Token): Byte {
    match t
    case Version => 0x00
    case Encryption => 0x01
    case Instance => 0x02
    case ThreadId => 0x03
    case Mars => 0x04
    case Terminator => 0xff
  }

  function TokenOf(code: Byte): Option<Token> {
    match code
    case 0x00 => Some(Version)
    case 0x01 => Some(Encryption)
    case 0x02 => Some(Instance)
    case 0x03 => Some(ThreadId)
    case 0x04 => Some(Mars)
    case 0xff => Some(Terminator)
    case _ => None
  }

  function TotalData(options: seq<PreLoginOption>): nat {
    if |options| == 0 then 0 else TotalData(options[..|options| - 1]) + |options[|options| - 1].data|
  }

  function TableLength(options: seq<PreLoginOption>): nat { ENTRY * |options| + 1 }

  /** Where the data of option `i` starts. */
  function OffsetOf(options: seq<PreLoginOption>, i: nat): nat
    requires i <= |options|
  {
    TableLength(options) + TotalData(options[..i])
  }

  function Data(options: seq<PreLoginOption>): (d: Bytes)
    ensures |d| == TotalData(options)
  {
    if |options| == 0 then [] else Data(options[..|options| - 1]) + options[|options| - 1].data
  }

  /** Token, offset and length of option `i`, both numbers big-endian. */
  function Entry(options: seq<PreLoginOption>, i: nat): (b: Bytes)
    requires i < |options| && OffsetOf(options, |options|) <= 0xffff
    ensures |b| == ENTRY
  {
    TotalMonotone(options, i);
    [TokenCode(options[i].token)] + BigEndian16(OffsetOf(options, i)) + BigEndian16(|options[i].data|)
  }

  function Table(options: seq<PreLoginOption>, n: nat): (b: Bytes)
    requires n <= |options| && OffsetOf(options, |options|) <= 0xffff
    ensures |b| == ENTRY * n
  {
    if n == 0 then [] else Table(options, n - 1) + Entry(options, n - 1)
  }

  function OptionMessage(options: seq<PreLoginOption>): (b: Bytes)
    requires OffsetOf(options, |options|) <= 0xffff
    ensures |b| == OffsetOf(options, |options|)
  {
    assert options[..|options|] == options;
    Table(options, |options|) + [TERMINATOR] + Data(options)
  }

  lemma {:induction false} TotalMonotone(options: seq<PreLoginOption>, i: nat)
    requires i < |options|
    ensures TotalData(options[..i]) + |options[i].data| == TotalData(options[..i + 1])
    ensures TotalData(options[..i + 1]) <= TotalData(options) == TotalData(options[..|options|])
    decreases |options|
  {
    assert options[..|options|] == options;
    assert options[..i + 1][..i] == options[..i];
    if i + 1 < |options| {
      var shorter := options[..|options| - 1];
      TotalMonotone(shorter, i);
      assert shorter[..i] == options[..i] && shorter[..i + 1] == options[..i + 1];
    }
  }

  predicate Regular(options: seq<PreLoginOption>) {
    forall o <- options :: !o.token.Terminator?
  }

  /** What assembling these options gives. */
  function Assembled(options: seq<PreLoginOption>): Result<Bytes, PreLoginError> {
    if OffsetOf(options, |options|) > 0xffff then Err(MessageTooLarge)
    else if !Regular(options) then Err(TerminatorOption)
    else Ok(OptionMessage(options))
  }

  lemma NothingYet(options: seq<PreLoginOption>)
    ensures TotalData(options[..0]) == 0 && options[..|options|] == options
  {
  }

  method AssembleOptions(options: seq<PreLoginOption>) returns (r: Result<Bytes, PreLoginError>)
    ensures r == Assembled(options)
  {
    hide BigEndian16, TokenCode, TotalData;
    NothingYet(options);
    var tableLen := TableLength(options);
    assert options[..|options|] == options;
    if tableLen > 0xffff {
      return Err(MessageTooLarge);
    }
    var offset := tableLen;
    var payloadLen := 0;
    var k := 0;
    while k < |options|
      invariant k <= |options| && payloadLen == TotalData(options[..k])
    {
      TotalMonotone(options, k);
      payloadLen := payloadLen + |options[k].data|;
      k := k + 1;
    }
    if tableLen + payloadLen > 0xffff {
      return Err(MessageTooLarge);
    }
    var out: Bytes := [];
    var i := 0;
    while i < |options|
      invariant i <= |options| && Regular(options[..i])
      invariant offset == OffsetOf(options, i) && out == Table(options, i)
    {
      assert options[i] in options;
      TotalMonotone(options, i);
      if options[i].token.Terminator? {
        return Err(TerminatorOption);
      }
      var len := |options[i].data|;
      out := out + ([TokenCode(options[i].token)] + BigEndian16(offset) + BigEndian16(len));
      offset := offset + len;
      i := i + 1;
    }
    out := out + [TERMINATOR];
    ghost var table := out;
    i := 0;
    while i < |options|
      invariant i <= |options| && out == table + Data(options[..i])
    {
      assert options[..i + 1][..i] == options[..i];
      Assoc(table, Data(options[..i]), options[i].data);
      out := out + options[i].data;
      i := i + 1;
    }
    return Ok(out);
  }

  // ---- parsing ----

  /** Position of the first terminator byte, if any. */
  function FirstTerminator(input: Bytes, from: nat): (r: Option<nat>)
    requires from <= |input|
    ensures r.Some? ==> from <= r.value < |input| && input[r.value] == TERMINATOR
    ensures r.Some? ==> forall i | from <= i < r.value :: input[i] != TERMINATOR
    ensures r.None? ==> forall i | from <= i < |input| :: input[i] != TERMINATOR
    decreases |input| - from
  {
    if from == |input| then None
    else if input[from] == TERMINATOR then Some(from)
    else FirstTerminator(input, from + 1)
  }

  function ParseEntry(input: Bytes, at: nat): Result<PreLoginOption, PreLoginError>
    requires at + ENTRY <= |input|
  {
    var token := TokenOf(input[at]);
    var offset, len := BigEndianWord(input[at + 1], input[at + 2]), BigEndianWord(input[at + 3], input[at + 4]);
    if token.None? then Err(UnknownToken(input[at]))
    else if offset + len > |input| then Err(OptionOutOfBounds(offset, len))
    else Ok(PreLoginOption(token.value, input[offset..offset + len]))
  }

  /** The entries from `at` up to the terminator. */
  function ParseEntries(input: Bytes, at: nat, terminator: nat): Result<seq<PreLoginOption>, PreLoginError>
    requires terminator <= |input| && at <= terminator && (terminator - at) % ENTRY == 0
    decreases terminator - at
  {
    if at == terminator then Ok([])
    else
      var first := ParseEntry(input, at);
      if first.Err? then Err(first.error)
      else
        var later := ParseEntries(input, at + ENTRY, terminator);
        if later.Err? then later else Ok([first.value] + later.value)
  }

  function Parsed(input: Bytes): Result<seq<PreLoginOption>, PreLoginError> {
    var terminator := FirstTerminator(input, 0);
    if terminator.None? then Err(MissingTerminator)
    else if terminator.value % ENTRY != 0 then Err(TruncatedOptionTable)
    else ParseEntries(input, 0, terminator.value)
  }

  method FindTerminator(input: Bytes) returns (r: Option<nat>)
    ensures r == FirstTerminator(input, 0)
  {
    var i := 0;
    while i < |input|
      invariant i <= |input| && FirstTerminator(input, 0) == FirstTerminator(input, i)
    {
      if input[i] == TERMINATOR {
        return Some(i);
      }
      i := i + 1;
    }
    return None;
  }

  method ParseOptions(input: Bytes) returns (r: Result<seq<PreLoginOption>, PreLoginError>)
    ensures r == Parsed(input)
  {
    hide ParseEntry;
    var terminator := FindTerminator(input);
    if terminator.None? {
      return Err(MissingTerminator);
    }
    if terminator.value % ENTRY != 0 {
      return Err(TruncatedOptionTable);
    }
    var options: seq<PreLoginOption> := [];
    var at := 0;
    BehindStep([], [], ParseEntries(input, 0, terminator.value));
    while at < terminator.value
      invariant at <= terminator.value && (terminator.value - at) % ENTRY == 0
      invariant ParseEntries(input, 0, terminator.value) == Behind(options, ParseEntries(input, at, terminator.value))
      decreases terminator.value - at
    {
      var option := ParseEntry(input, at);
      if option.Err? {
        return Err(option.error);
      }
      BehindStep(options, [option.value], ParseEntries(input, at + ENTRY, terminator.value));
      options := options + [option.value];
      at := at + ENTRY;
    }
    assert options + [] == options;
    return Ok(options);
  }

  // ---- the round trip and its exact condition ----

  /** No byte of any offset or length in the table is the terminator byte. */
  predicate ClearOfTerminators(options: seq<PreLoginOption>)
    requires OffsetOf(options, |options|) <= 0xffff
  {
    forall i, j | 0 <= i < |options| && 1 <= j < ENTRY :: Entry(options, i)[j] != TERMINATOR
  }

  lemma {:induction false} TableAt(options: seq<PreLoginOption>, n: nat, i: nat, j: nat)
    requires n <= |options| && OffsetOf(options, |options|) <= 0xffff && i < n && j < ENTRY
    ensures ENTRY * i + j < ENTRY * n
    ensures Table(options, n)[ENTRY * i + j] == Entry(options, i)[j]
    decreases n
  {
    hide Entry;
    if i < n - 1 {
      TableAt(options, n - 1, i, j);
    }
  }

  lemma {:induction false} DataAt(options: seq<PreLoginOption>, i: nat)
    requires i < |options|
    ensures TotalData(options[..i]) + |options[i].data| <= |Data(options)|
    ensures Data(options)[TotalData(options[..i])..TotalData(options[..i]) + |options[i].data|] == options[i].data
    decreases |options|
  {
    var shorter := options[..|options| - 1];
    TotalMonotone(options, i);
    if i < |options| - 1 {
      DataAt(shorter, i);
      assert shorter[..i] == options[..i];
    }
  }

  lemma MessageTable(options: seq<PreLoginOption>, i: nat, j: nat)
    requires i < |options| && j < ENTRY && OffsetOf(options, |options|) <= 0xffff
    ensures ENTRY * i + j < ENTRY * |options|
    ensures OptionMessage(options)[ENTRY * i + j] == Entry(options, i)[j]
  {
    hide Entry, Table, Data;
    TableAt(options, |options|, i, j);
  }

  lemma MessageData(options: seq<PreLoginOption>, i: nat)
    requires i < |options| && OffsetOf(options, |options|) <= 0xffff
    ensures OffsetOf(options, i) + |options[i].data| <= |OptionMessage(options)|
    ensures OptionMessage(options)[OffsetOf(options, i)..OffsetOf(options, i) + |options[i].data|] == options[i].data
  {
    hide Entry, Table;
    assert options[..|options|] == options;
    DataAt(options, i);
    var from, table := TotalData(options[..i]), Table(options, |options|) + [TERMINATOR];
    assert OptionMessage(options)[|table| + from..|table| + from + |options[i].data|]
           == Data(options)[from..from + |options[i].data|];
  }

  lemma TokenRoundTrip(t: Token)
    ensures TokenOf(TokenCode(t)) == Some(t)
    ensures TokenCode(t) == TERMINATOR <==> t.Terminator?
  {
  }

  lemma BigEndianReadsBack(n: U16)
    ensures BigEndianWord(BigEndian16(n)[0], BigEndian16(n)[1]) == n
  {
  }

  lemma EntryFields(options: seq<PreLoginOption>, i: nat)
    requires i < |options| && OffsetOf(options, |options|) <= 0xffff
    ensures OffsetOf(options, i) <= 0xffff && |options[i].data| <= 0xffff
    ensures var e := Entry(options, i);
            && TokenOf(e[0]) == Some(options[i].token)
            && BigEndianWord(e[1], e[2]) == OffsetOf(options, i) && BigEndianWord(e[3], e[4]) == |options[i].data|
  {
    TotalMonotone(options, i);
    TokenRoundTrip(options[i].token);
    BigEndianReadsBack(OffsetOf(options, i));
    BigEndianReadsBack(|options[i].data|);
    hide TotalData, TokenCode, TokenOf;
  }

  lemma EntryReadsBack(options: seq<PreLoginOption>, i: nat)
    requires i < |options| && OffsetOf(options, |options|) <= 0xffff
    ensures ENTRY * i + ENTRY <= ENTRY * |options| < |OptionMessage(options)|
    ensures ParseEntry(OptionMessage(options), ENTRY * i) == Ok(options[i])
  {
    hide OptionMessage, Entry, OffsetOf, TotalData, TokenOf, BigEndianWord;
    var at, input := ENTRY * i, OptionMessage(options);
    TerminatorByte(options);
    forall j: nat | j < ENTRY ensures at + j < |input| && input[at + j] == Entry(options, i)[j] { MessageTable(options, i, j); }
    assert input[at + 0] == Entry(options, i)[0];
    EntryFields(options, i);
    MessageData(options, i);
  }

  lemma {:induction false} EntriesReadBack(options: seq<PreLoginOption>, i: nat)
    requires i <= |options| && OffsetOf(options, |options|) <= 0xffff
    ensures ENTRY * i <= ENTRY * |options| < |OptionMessage(options)|
    ensures (ENTRY * |options| - ENTRY * i) % ENTRY == 0
    ensures ParseEntries(OptionMessage(options), ENTRY * i, ENTRY * |options|) == Ok(options[i..])
    decreases |options| - i
  {
    hide ParseEntry, OptionMessage;
    assert ENTRY * |options| - ENTRY * i == ENTRY * (|options| - i);
    if i < |options| {
      EntryReadsBack(options, i);
      EntriesReadBack(options, i + 1);
      assert options[i..] == [options[i]] + options[i + 1..];
    }
  }

  lemma TokensAreNoTerminators(options: seq<PreLoginOption>, i: nat)
    requires Regular(options) && i < |options| && OffsetOf(options, |options|) <= 0xffff
    ensures Entry(options, i)[0] != TERMINATOR
  {
    assert options[i] in options;
    TokenRoundTrip(options[i].token);
  }

  lemma FirstTerminatorIs(input: Bytes, p: nat)
    requires p < |input| && input[p] == TERMINATOR && forall k: nat | k < p :: input[k] != TERMINATOR
    ensures FirstTerminator(input, 0) == Some(p)
  {
  }

  lemma TableByte(options: seq<PreLoginOption>, p: nat)
    requires Regular(options) && p < ENTRY * |options| && OffsetOf(options, |options|) <= 0xffff
    ensures p / ENTRY < |options| && p < |OptionMessage(options)|
    ensures OptionMessage(options)[p] == Entry(options, p / ENTRY)[p % ENTRY]
    ensures p % ENTRY == 0 ==> OptionMessage(options)[p] != TERMINATOR
  {
    hide OptionMessage, Entry;
    MessageTable(options, p / ENTRY, p % ENTRY);
    TokensAreNoTerminators(options, p / ENTRY);
  }

  lemma TerminatorByte(options: seq<PreLoginOption>)
    requires OffsetOf(options, |options|) <= 0xffff
    ensures ENTRY * |options| < |OptionMessage(options)|
    ensures OptionMessage(options)[ENTRY * |options|] == TERMINATOR
  {
    hide Table, Data;
  }

  /** A message that was assembled parses to the same list if and only if no offset or length byte in its table
      is the terminator byte; otherwise the parser reports a truncated table. */
  lemma AssembledParsesIff(options: seq<PreLoginOption>)
    requires Assembled(options).Ok?
    ensures Parsed(Assembled(options).value) ==
            if ClearOfTerminators(options) then Ok(options) else Err(TruncatedOptionTable)
  {
    hide OptionMessage, Entry, ParseEntries;
    var input := OptionMessage(options);
    TerminatorByte(options);
    if ClearOfTerminators(options) {
      forall k: nat | k < ENTRY * |options| ensures input[k] != TERMINATOR {
        TableByte(options, k);
        assert k % ENTRY != 0 ==> Entry(options, k / ENTRY)[k % ENTRY] != TERMINATOR;
      }
      FirstTerminatorIs(input, ENTRY * |options|);
      EntriesReadBack(options, 0);
      assert options[0..] == options;
    } else {
      var i, j :| 0 <= i < |options| && 1 <= j < ENTRY && Entry(options, i)[j] == TERMINATOR;
      MessageTable(options, i, j);
      var p := FirstTerminator(input, 0);
      assert p.Some? && p.value <= ENTRY * i + j;
      TableByte(options, p.value);
    }
  }

  lemma SmallNumbersAreClear(n: U16)
    requires n < 0xff
    ensures BigEndian16(n)[0] != TERMINATOR && BigEndian16(n)[1] != TERMINATOR
  {
  }

  /** In particular every message shorter than 255 bytes round trips. */
  lemma ShortMessagesRoundTrip(options: seq<PreLoginOption>)
    requires Assembled(options).Ok? && |Assembled(options).value| < 0xff
    ensures Parsed(Assembled(options).value) == Ok(options)
  {
    hide BigEndian16;
    forall i, j | 0 <= i < |options| && 1 <= j < ENTRY ensures Entry(options, i)[j] != TERMINATOR {
      TotalMonotone(options, i);
      SmallNumbersAreClear(OffsetOf(options, i));
      SmallNumbersAreClear(|options[i].data|);
    }
    AssembledParsesIff(options);
  }

  // ---- the client's own PRELOGIN and the server's answer ----

  datatype Encrypt = Off | On | NotSupported | Required

  function EncodeEncrypt(e: Encrypt): Byte {
    match e
    case Off => 0
    case On => 1
    case NotSupported => 2
    case Required => 3
  }

  function DecodeEncrypt(b: Byte): Result<Encrypt, PreLoginError> {
    match b
    case 0 => Ok(Off)
    case 1 => Ok(On)
    case 2 => Ok(NotSupported)
    case 3 => Ok(Required)
    case _ => Err(InvalidEncrypt(b))
  }

  function ClientOptions(encrypt: Encrypt, instance: Option<Bytes>): seq<PreLoginOption> {
    [PreLoginOption(Version, [0, 0, 0, 0, 0, 0]),
     PreLoginOption(Encryption, [EncodeEncrypt(encrypt)]),
     PreLoginOption(Mars, [0])]
    + if instance.Some? then [PreLoginOption(Instance, instance.value + [0])] else []
  }

  /** The client's own message: three fixed options, and the instance name with a closing zero if there is one. */
  method BuildPreLoginPayload(encrypt: Encrypt, instance: Option<Bytes>) returns (r: Result<Bytes, PreLoginError>)
    ensures r == Assembled(ClientOptions(encrypt, instance))
  {
    var options := [PreLoginOption(Version, [0, 0, 0, 0, 0, 0]),
                    PreLoginOption(Encryption, [EncodeEncrypt(encrypt)]),
                    PreLoginOption(Mars, [0])];
    if instance.Some? {
      var data := instance.value + [0];
      options := options + [PreLoginOption(Instance, data)];
    }
    assert options == ClientOptions(encrypt, instance);
    r := AssembleOptions(options);
  }

  lemma ClientOffsets(encrypt: Encrypt, instance: Option<Bytes>)
    ensures var options := ClientOptions(encrypt, instance);
            var table := if instance.Some? then 21 else 16;
            && OffsetOf(options, 0) == table && OffsetOf(options, 1) == table + 6 && OffsetOf(options, 2) == table + 7
            && OffsetOf(options, 3) == table + 8
            && OffsetOf(options, |options|) == if instance.Some? then 30 + |instance.value| else 24
  {
    var options := ClientOptions(encrypt, instance);
    assert options[..0] == [] && options[..1][..0] == [] && options[..2][..1] == options[..1] && options[..3][..2] == options[..2];
    if instance.Some? {
      assert options[..4][..3] == options[..3];
    }
  }

  /** The instance length field holds the terminator byte. */
  predicate UnluckyLength(n: nat) { (n + 1) % 256 == 0xff || (n + 1) / 256 == 0xff }

  lemma ClientEntriesClear(encrypt: Encrypt, instance: Option<Bytes>)
    requires instance.Some? ==> |instance.value| <= 0xffff - 30
    ensures OffsetOf(ClientOptions(encrypt, instance), |ClientOptions(encrypt, instance)|) <= 0xffff
    ensures ClearOfTerminators(ClientOptions(encrypt, instance)) <==> !(instance.Some? && UnluckyLength(|instance.value|))
  {
    hide OffsetOf;
    var options := ClientOptions(encrypt, instance);
    ClientOffsets(encrypt, instance);
    forall i | 0 <= i < 3 ensures forall j | 1 <= j < ENTRY :: Entry(options, i)[j] != TERMINATOR {
      SmallNumbersAreClear(OffsetOf(options, i));
      SmallNumbersAreClear(|options[i].data|);
      hide BigEndian16;
    }
    if instance.Some? {
      SmallNumbersAreClear(OffsetOf(options, 3));
      var e := Entry(options, 3);
      assert e[1] != TERMINATOR && e[2] != TERMINATOR;
      assert e[3] == (|instance.value| + 1) / 256 && e[4] == (|instance.value| + 1) % 256;
    }
  }

  /** A client message is built exactly when the instance name fits, and a server that parses it the same way
      sees the same options exactly when the instance length avoids the terminator byte. */
  lemma ClientMessageIff(encrypt: Encrypt, instance: Option<Bytes>)
    ensures var r := Assembled(ClientOptions(encrypt, instance));
            && (r.Ok? <==> (instance.Some? ==> |instance.value| <= 0xffff - 30))
            && (r.Ok? ==>
                  (Parsed(r.value) == Ok(ClientOptions(encrypt, instance))
                   <==> !(instance.Some? && UnluckyLength(|instance.value|))))
  {
    hide ClearOfTerminators, OffsetOf, UnluckyLength, Parsed, OptionMessage;
    ClientOffsets(encrypt, instance);
    if instance.Some? ==> |instance.value| <= 0xffff - 30 {
      ClientEntriesClear(encrypt, instance);
      AssembledParsesIff(ClientOptions(encrypt, instance));
    }
  }

  /** A concrete failure: with an instance name of 254 bytes the client's own message does not parse back, because its
      length field reads 00 ff. */
  lemma LongInstanceNameFails(encrypt: Encrypt)
    ensures var r := Assembled(ClientOptions(encrypt, Some(seq(254, _ => 0x61))));
            r.Ok? && Parsed(r.value) == Err(TruncatedOptionTable)
  {
    hide ClearOfTerminators, OffsetOf, Parsed, OptionMessage, ClientOptions;
    var instance: Option<Bytes> := Some(seq(254, _ => 0x61));
    ClientMessageIff(encrypt, instance);
    ClientEntriesClear(encrypt, instance);
    AssembledParsesIff(ClientOptions(encrypt, instance));
  }

  /** The first encryption option's first byte. */
  function ServerEncrypt(options: seq<PreLoginOption>): Result<Encrypt, PreLoginError> {
    if |options| == 0 then Err(MissingEncryption)
    else if options[0].token.Encryption? then
      if |options[0].data| == 0 then Err(MissingEncryption) else DecodeEncrypt(options[0].data[0])
    else ServerEncrypt(options[1..])
  }

  function ParseServerEncrypt(input: Bytes): Result<Encrypt, PreLoginError> {
    var options := Parsed(input);
    if options.Err? then Err(options.error) else ServerEncrypt(options.value)
  }

  /** A server that answers in one short message with these options gets its encryption choice across. */
  lemma EncryptionChoiceArrives(options: seq<PreLoginOption>, before: seq<PreLoginOption>, e: Encrypt, after: seq<PreLoginOption>)
    requires options == before + [PreLoginOption(Encryption, [EncodeEncrypt(e)])] + after
    requires forall o <- before :: !o.token.Encryption?
    requires Assembled(options).Ok? && ClearOfTerminators(options)
    ensures ParseServerEncrypt(Assembled(options).value) == Ok(e)
  {
    hide ClearOfTerminators, Parsed, Assembled;
    AssembledParsesIff(options);
    FirstChoiceCounts(options, before, e, after);
  }

  lemma {:induction false} FirstChoiceCounts(
    options: seq<PreLoginOption>, before: seq<PreLoginOption>, e: Encrypt, after: seq<PreLoginOption>)
    requires options == before + [PreLoginOption(Encryption, [EncodeEncrypt(e)])] + after
    requires forall o <- before :: !o.token.Encryption?
    ensures ServerEncrypt(options) == Ok(e)
    decreases |before|
  {
    if |before| > 0 {
      assert options[1..] == before[1..] + [PreLoginOption(Encryption, [EncodeEncrypt(e)])] + after;
      FirstChoiceCounts(options[1..], before[1..], e, after);
      assert options[0] == before[0];
    }
  }

  // ---- the message byte by byte ----

  /** Five table bytes at position `i`, a code, a big-endian offset and a big-endian length, select this data. */
  predicate OptionAt(p: Bytes, i: nat, code: Byte, data: Bytes) {
    5 * i + 5 <= |p| &&
    var offset := 256 * p[5 * i + 1] as int + p[5 * i + 2] as int;
    && p[5 * i] == code && 256 * p[5 * i + 3] as int + p[5 * i + 4] as int == |data|
    && offset + |data| <= |p| && p[offset..offset + |data|] == data
  }

  lemma BigEndianBytes(n: U16)
    ensures 256 * BigEndian16(n)[0] as int + BigEndian16(n)[1] as int == n
  {
  }

  /** Every assembled option can be found through its table entry, and the table ends in 0xff. */
  lemma OptionOnTheWire(options: seq<PreLoginOption>, i: nat)
    requires Assembled(options).Ok? && i < |options|
    ensures OptionAt(Assembled(options).value, i, TokenCode(options[i].token), options[i].data)
    ensures |Assembled(options).value| > 5 * |options| && Assembled(options).value[5 * |options|] == 0xff
  {
    hide TokenCode, TotalData, BigEndian16, OptionMessage;
    var p, e := Assembled(options).value, Entry(options, i);
    TerminatorByte(options);
    MessageTable(options, i, 0);
    MessageTable(options, i, 1);
    MessageTable(options, i, 2);
    MessageTable(options, i, 3);
    MessageTable(options, i, 4);
    assert p[5 * i] == e[0] && p[5 * i + 1] == e[1] && p[5 * i + 2] == e[2] && p[5 * i + 3] == e[3] && p[5 * i + 4] == e[4];
    TotalMonotone(options, i);
    BigEndianBytes(OffsetOf(options, i));
    BigEndianBytes(|options[i].data|);
    MessageData(options, i);
  }

  /** The client's message by name: a version of six zeros, its choice of encryption as one byte, no MARS, and the
      instance name with its closing zero if there is one; nothing else. */
  lemma ClientMessageByName(encrypt: Encrypt, instance: Option<Bytes>)
    requires Assembled(ClientOptions(encrypt, instance)).Ok?
    ensures var p := Assembled(ClientOptions(encrypt, instance)).value;
            && OptionAt(p, 0, 0x00, [0, 0, 0, 0, 0, 0])
            && OptionAt(p, 1, 0x01, [match encrypt case Off => 0 case On => 1 case NotSupported => 2 case Required => 3])
            && OptionAt(p, 2, 0x04, [0])
            && (instance.None? ==> |p| == 24 && p[15] == 0xff)
            && (instance.Some? ==>
                  |p| == 30 + |instance.value| && OptionAt(p, 3, 0x02, instance.value + [0]) && p[20] == 0xff)
  {
    var options := ClientOptions(encrypt, instance);
    ClientOffsets(encrypt, instance);
    hide OptionAt, OffsetOf, OptionMessage;
    OptionOnTheWire(options, 0);
    OptionOnTheWire(options, 1);
    OptionOnTheWire(options, 2);
    if instance.Some? {
      OptionOnTheWire(options, 3);
    }
  }

  /** A server that parses the client's message gets the client's choice, if the instance length avoids the terminator. */
  lemma ClientChoiceArrives(encrypt: Encrypt, instance: Option<Bytes>)
    requires instance.Some? ==> |instance.value| <= 0xffff - 30 && !UnluckyLength(|instance.value|)
    ensures Assembled(ClientOptions(encrypt, instance)).Ok?
    ensures ParseServerEncrypt(Assembled(ClientOptions(encrypt, instance)).value) == Ok(encrypt)
  {
    hide ClearOfTerminators, OffsetOf, Parsed, UnluckyLength, Assembled;
    var options := ClientOptions(encrypt, instance);
    ClientMessageIff(encrypt, instance);
    var before, after := options[..1], options[2..];
    assert options == before + [PreLoginOption(Encryption, [EncodeEncrypt(encrypt)])] + after;
    FirstChoiceCounts(options, before, encrypt, after);
  }
}
