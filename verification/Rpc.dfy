/** SQL batch and RPC requests (sections 2.2.5.3, 2.2.6.6 and 2.2.6.7 of [MS-TDS]). */
module Rpc {
  import opened Wire
  import opened Packet
  import T = TypeInfos
  import opened Arguments
  import opened ArgumentList

  const PROCEDURE_ID_EXECUTE_SQL: U16 := 10
  const PROCEDURE_ID_PREPARE: U16 := 11
  const PROCEDURE_ID_UNPREPARE: U16 := 15

  const NVARCHAR: MssqlTypeInfo := MssqlTypeInfo(NVarChar, None, None)
  const INT: MssqlTypeInfo := MssqlTypeInfo(Int, None, None)

  datatype RequestError = Argument(argument: ArgumentError) | Framing(frame: FrameError)

  // ---- headers ----

  function AllHeaders(descriptor: U64): (b: Bytes)
    ensures |b| == 22
  {
    LittleEndian(22, 4) + (LittleEndian(18, 4) + (Le16(2) + (LittleEndian(descriptor, 8) + LittleEndian(1, 4))))
  }

  method WriteAllHeaders(out: Bytes, descriptor: U64) returns (r: Bytes)
    ensures r == out + AllHeaders(descriptor)
  {
    var a, b, c, d, e := LittleEndian(22, 4), LittleEndian(18, 4), Le16(2), LittleEndian(descriptor, 8), LittleEndian(1, 4);
    r := out + a;
    r := r + b;
    r := r + c;
    r := r + d;
    r := r + e;
    hide LittleEndian, Le16;
    assert r == out + (a + (b + (c + (d + e))));
  }

  /** ALL_HEADERS as a server takes it apart. */
  datatype StreamHeaders = StreamHeaders(total: U32, length: U32, kind: U16, descriptor: U64, outstanding: U32)

  function ReadAllHeaders(input: Bytes): Read<StreamHeaders> {
    var (total, rest) :- ReadU32(input);
    var (length, rest) :- ReadU32(rest);
    var (kind, rest) :- ReadU16(rest);
    var (descriptor, rest) :- ReadU64(rest);
    var (outstanding, rest) :- ReadU32(rest);
    Got(StreamHeaders(total, length, kind, descriptor, outstanding), rest)
  }

  lemma ReadU16Front(n: U16, body: Bytes, tail: Bytes)
    ensures ReadU16(Le16(n) + body + tail) == Got(n, body + tail)
  {
    Assoc(Le16(n), body, tail);
    ReadU16Exact(n, body + tail);
  }

  /** One transaction-descriptor header; both lengths are right and the descriptor comes back whole. */
  lemma AllHeadersReadBack(descriptor: U64, tail: Bytes)
    ensures ReadAllHeaders(AllHeaders(descriptor) + tail) ==
            Got(StreamHeaders(|AllHeaders(descriptor)|, |AllHeaders(descriptor)| - 4, 2, descriptor, 1), tail)
  {
    var d := LittleEndian(descriptor, 8) + LittleEndian(1, 4);
    ReadU32Front(22, LittleEndian(18, 4) + (Le16(2) + d), tail);
    ReadU32Front(18, Le16(2) + d, tail);
    ReadU16Front(2, d, tail);
    ReadU64Front(descriptor, LittleEndian(1, 4), tail);
    ReadU32Exact(1, tail);
    hide LittleEndian, Le16, ReadU32, ReadU16, ReadU64;
  }

  // ---- SQL batch ----

  function SqlBatchPayload(sql: Text, descriptor: U64): Bytes { AllHeaders(descriptor) + Utf16(sql) }

  method BuildSqlBatchPacket(sql: Text, packetSize: nat, descriptor: U64) returns (r: Result<Bytes, FrameError>)
    ensures r.Ok? <==> HEADER_LEN < packetSize <= MAX_PACKET_LEN
    ensures r.Ok? ==> r.value == Framed(SQL_BATCH, SqlBatchPayload(sql, descriptor), packetSize)
  {
    var payload := WriteAllHeaders([], descriptor);
    assert payload == AllHeaders(descriptor);
    var i := 0;
    assert sql[0..] == sql;
    while i < |sql|
      invariant i <= |sql|
      invariant payload + Utf16(sql[i..]) == SqlBatchPayload(sql, descriptor)
    {
      assert sql[i..][1..] == sql[i + 1..];
      assert payload + [sql[i] % 256, sql[i] / 256] + Utf16(sql[i + 1..]) == payload + Utf16(sql[i..]);
      payload := payload + Le16(sql[i]);
      i := i + 1;
    }
    assert payload + [] == payload;
    r := EncodeMessage(SQL_BATCH, payload, packetSize);
  }

  function Framed(packetType: Byte, payload: Bytes, packetSize: nat): Bytes
    requires HEADER_LEN < packetSize <= MAX_PACKET_LEN
  {
    WireBytes(Split(packetType, payload, packetSize - HEADER_LEN, 1))
  }

  /** A server that deframes a batch finds the transaction descriptor and exactly the SQL text. */
  lemma SqlBatchReadsBack(sql: Text, packetSize: nat, descriptor: U64, tail: Bytes)
    requires HEADER_LEN < packetSize <= MAX_PACKET_LEN
    ensures var d := DecodeFrom(Framed(SQL_BATCH, SqlBatchPayload(sql, descriptor), packetSize) + tail, None);
            && d.Message? && d.packetType == 1
            && ReadAllHeaders(d.payload).Got? && ReadAllHeaders(d.payload).value == StreamHeaders(22, 18, 2, descriptor, 1)
            && |ReadAllHeaders(d.payload).rest| % 2 == 0 && Units(ReadAllHeaders(d.payload).rest) == sql
  {
    FramingRoundTrip(SQL_BATCH, SqlBatchPayload(sql, descriptor), packetSize, tail);
    AllHeadersReadBack(descriptor, Utf16(sql));
    Utf16RoundTrip(sql);
    hide ReadAllHeaders, AllHeaders, Split, DecodeFrom;
  }

  // ---- RPC ----

  function RpcHeader(procedure: U16, descriptor: U64): Bytes {
    AllHeaders(descriptor) + (Le16(0xffff) + (Le16(procedure) + Le16(0)))
  }

  method WriteRpcHeader(out: Bytes, procedure: U16, descriptor: U64) returns (r: Bytes)
    ensures r == out + RpcHeader(procedure, descriptor)
  {
    r := WriteAllHeaders(out, descriptor);
    r := r + Le16(0xffff);
    r := r + Le16(procedure);
    r := r + Le16(0);
    hide Le16, AllHeaders;
    assert r == out + (AllHeaders(descriptor) + (Le16(0xffff) + (Le16(procedure) + Le16(0))));
  }

  datatype Request = Request(headers: StreamHeaders, marker: U16, procedure: U16, flags: U16, parameters: seq<Parameter>)

  /** A request with `n` parameters, as a server reads it. */
  function ReadRequest(n: nat, input: Bytes): Read<Request> {
    var (headers, rest) :- ReadAllHeaders(input);
    var (marker, rest) :- ReadU16(rest);
    var (procedure, rest) :- ReadU16(rest);
    var (flags, rest) :- ReadU16(rest);
    var (parameters, rest) :- ReadMany(ReadParameter, n, rest);
    Got(Request(headers, marker, procedure, flags, parameters), rest)
  }

  function Called(procedure: U16, descriptor: U64, parameters: seq<Parameter>): Request {
    Request(StreamHeaders(22, 18, 2, descriptor, 1), 0xffff, procedure, 0, parameters)
  }

  lemma RequestReadsBack(procedure: U16, descriptor: U64, n: nat, body: Bytes, parameters: seq<Parameter>)
    requires ReadMany(ReadParameter, n, body) == Got(parameters, [])
    ensures ReadRequest(n, RpcHeader(procedure, descriptor) + body) == Got(Called(procedure, descriptor, parameters), [])
  {
    var rest := Le16(0xffff) + (Le16(procedure) + Le16(0));
    Assoc(AllHeaders(descriptor), rest, body);
    AllHeadersReadBack(descriptor, rest + body);
    ReadU16Front(0xffff, Le16(procedure) + Le16(0), body);
    ReadU16Front(procedure, Le16(0), body);
    ReadU16Exact(0, body);
    hide ReadAllHeaders, AllHeaders, Le16, ReadU16, ReadParameter, ReadMany;
  }

  // ---- text and int parameters ----

  const MAX_TEXT: nat := 32767

  function TextParameter(text: Text): Result<Bytes, ArgumentError> {
    ParameterBytes("", 0, NVARCHAR, Utf16(text), false)
  }

  function IntParameter(status: Byte, value: U32): Result<Bytes, ArgumentError> {
    ParameterBytes("", status, INT, LittleEndian(value, 4), false)
  }

  function NullTextParameter(): Result<Bytes, ArgumentError> { ParameterBytes("", 0, NVARCHAR, [], true) }

  function TextType(size: U16): T.TypeInfo { T.TypeInfo(T.NVarChar, size, 0, 0, Some(DEFAULT_COLLATION)) }

  function SeenText(text: Text): Parameter
    requires |text| <= MAX_TEXT
  {
    Parameter([], 0, TextType(if |text| == 0 then 2 else 2 * |text|), Some(Utf16(text)))
  }

  function SeenInt(status: Byte, value: U32): Parameter {
    Parameter([], status, T.Plain(T.IntN, 4), Some(LittleEndian(value, 4)))
  }

  const SEEN_NULL_TEXT: Parameter := Parameter([], 0, TextType(2), None)

  lemma TextSize(text: Text)
    ensures DeclaredSize(NVARCHAR, 2 * |text|, false) ==
            if |text| > MAX_TEXT then Err(LengthTooLarge) else Ok(if |text| == 0 then 2 else 2 * |text|)
  {
  }

  lemma TextInfo(text: Text)
    ensures |text| <= MAX_TEXT ==>
              && TypeInfoBytes(NVARCHAR, 2 * |text|, false).Ok?
              && WireType(NVARCHAR, 2 * |text|, false) == SeenText(text).ty
    ensures |text| > MAX_TEXT ==> TypeInfoBytes(NVARCHAR, 2 * |text|, false) == Err(LengthTooLarge)
  {
    hide Utf16, T.Code, Le16, DeclaredSize;
    TextSize(text);
  }

  lemma TextValue(text: Text)
    requires |text| <= MAX_TEXT
    ensures ValueBytes(NVARCHAR, Utf16(text), false).Ok?
    ensures Readable(NVARCHAR, Utf16(text), false)
  {
    hide Utf16, T.PlpBytes, Le16;
  }

  /** Text is sent exactly when its bytes can be counted in 16 bits, and then it reads back. */
  lemma TextParameterIff(text: Text, tail: Bytes)
    ensures |text| > MAX_TEXT ==> TextParameter(text) == Err(LengthTooLarge)
    ensures |text| <= MAX_TEXT ==>
              TextParameter(text).Ok? && ReadParameter(TextParameter(text).value + tail) == Got(SeenText(text), tail)
  {
    hide TypeInfoBytes, ValueBytes, WireType, Utf16, ReadParameter, Readable;
    TextInfo(text);
    assert Ascii("") == [];
    if |text| <= MAX_TEXT {
      TextValue(text);
      ParameterReadsBack("", 0, Added(NVARCHAR, Utf16(text), false), tail);
    }
  }

  lemma IntParameterReadsBack(status: Byte, value: U32, tail: Bytes)
    ensures IntParameter(status, value).Ok?
    ensures ReadParameter(IntParameter(status, value).value + tail) == Got(SeenInt(status, value), tail)
  {
    hide ReadParameter, LittleEndian;
    assert Ascii("") == [];
    ParameterReadsBack("", status, Added(INT, LittleEndian(value, 4), false), tail);
  }

  lemma NullTextReadsBack(tail: Bytes)
    ensures NullTextParameter().Ok?
    ensures ReadParameter(NullTextParameter().value + tail) == Got(SEEN_NULL_TEXT, tail)
  {
    hide ReadParameter;
    assert Ascii("") == [];
    ParameterReadsBack("", 0, Added(NVARCHAR, [], true), tail);
  }

  // ---- sp_executesql ----

  function Declarations(added: seq<Added>): string
    requires Writable(added)
  {
    JoinWith(",", DeclarationParts(added))
  }

  function ExecuteSqlBody(sql: Text, added: seq<Added>): Result<Bytes, ArgumentError>
    requires Writable(added)
  {
    var statement := TextParameter(sql);
    if statement.Err? || added == [] then statement
    else
      var declared := TextParameter(Ascii(Declarations(added)));
      if declared.Err? then declared else Ok(statement.value + (declared.value + AllBytes(added)))
  }

  /** A request body behind its header, framed; a failed argument comes before a bad packet size. */
  function Requested(procedure: U16, body: Result<Bytes, ArgumentError>, packetSize: nat, descriptor: U64)
    : Result<Bytes, RequestError>
  {
    if body.Err? then Err(Argument(body.error))
    else if packetSize <= HEADER_LEN || packetSize > MAX_PACKET_LEN then Err(Framing(InvalidMaxPacketSize(packetSize)))
    else Ok(Framed(RPC, RpcHeader(procedure, descriptor) + body.value, packetSize))
  }

  method Encode(payload: Bytes, packetSize: nat) returns (r: Result<Bytes, RequestError>)
    ensures r == if packetSize <= HEADER_LEN || packetSize > MAX_PACKET_LEN
                 then Err(Framing(InvalidMaxPacketSize(packetSize))) else Ok(Framed(RPC, payload, packetSize))
  {
    var framed := EncodeMessage(RPC, payload, packetSize);
    r := if framed.Err? then Err(Framing(framed.error)) else Ok(framed.value);
  }

  method BuildExecuteSqlPacket(sql: Text, arguments: MssqlArguments, packetSize: nat, descriptor: U64)
    returns (r: Result<Bytes, RequestError>)
    requires arguments.Valid()
    ensures r == Requested(PROCEDURE_ID_EXECUTE_SQL, ExecuteSqlBody(sql, arguments.added), packetSize, descriptor)
  {
    hide TextParameter, RpcHeader, Framed, JoinWith, AllBytes, Ascii, DeclarationParts;
    var payload := WriteRpcHeader([], PROCEDURE_ID_EXECUTE_SQL, descriptor);
    ghost var header := payload;
    assert [] + RpcHeader(PROCEDURE_ID_EXECUTE_SQL, descriptor) == RpcHeader(PROCEDURE_ID_EXECUTE_SQL, descriptor);
    var statement := TextParameter(sql);
    if statement.Err? {
      return Err(Argument(statement.error));
    }
    payload := payload + statement.value;
    if arguments.len != 0 {
      var declared := TextParameter(Ascii(arguments.declarations));
      if declared.Err? {
        return Err(Argument(declared.error));
      }
      payload := payload + declared.value;
      payload := payload + arguments.data;
      assert payload == header + (statement.value + (declared.value + arguments.data));
    }
    r := Encode(payload, packetSize);
  }

  /** What the server is called with: the statement, then the declarations and every argument in order. */
  function ExecuteSqlCall(sql: Text, added: seq<Added>): seq<Parameter>
    requires |sql| <= MAX_TEXT && Writable(added) && forall a <- added :: ItemReadable(a)
    requires added != [] ==> |Declarations(added)| <= MAX_TEXT
  {
    [SeenText(sql)] + if added == [] then [] else [SeenText(Ascii(Declarations(added)))] + SeenList(added)
  }

  predicate Fit(sql: Text, added: seq<Added>)
    requires Writable(added)
  {
    |sql| <= MAX_TEXT && (added != [] ==> |Declarations(added)| <= MAX_TEXT)
  }

  lemma ExecuteSqlBodyReadsBack(sql: Text, added: seq<Added>)
    requires Writable(added) && (forall a <- added :: ItemReadable(a))
    ensures ExecuteSqlBody(sql, added).Ok? <==> Fit(sql, added)
    ensures Fit(sql, added) ==>
              ReadMany(ReadParameter, if added == [] then 1 else 2 + |added|, ExecuteSqlBody(sql, added).value)
              == Got(ExecuteSqlCall(sql, added), [])
  {
    hide TextParameter, ReadParameter, Declarations, AllBytes, SeenList, SeenText, Ascii, Writable;
    if |sql| > MAX_TEXT {
      TextParameterIff(sql, []);
    } else if added == [] {
      TextParameterIff(sql, []);
      assert TextParameter(sql).value + [] == TextParameter(sql).value;
      ReadAnother(ReadParameter, 0, TextParameter(sql).value, SeenText(sql), [], [], []);
    } else {
      var declared := Ascii(Declarations(added));
      TextParameterIff(declared, AllBytes(added));
      if |declared| <= MAX_TEXT {
        TextParameterIff(sql, TextParameter(declared).value + AllBytes(added));
        ArgumentsReadBack(added, []);
        assert AllBytes(added) + [] == AllBytes(added);
        ReadAnother(ReadParameter, |added|, TextParameter(declared).value + AllBytes(added),
                    SeenText(declared), AllBytes(added), SeenList(added), []);
        ReadAnother(ReadParameter, |added| + 1, ExecuteSqlBody(sql, added).value, SeenText(sql),
                    TextParameter(declared).value + AllBytes(added), [SeenText(declared)] + SeenList(added), []);
      } else {
        TextParameterIff(sql, []);
      }
    }
  }

  /** A server that deframes the packet and reads `n` parameters gets this procedure call and nothing else. */
  predicate Calls(packet: Bytes, tail: Bytes, procedure: U16, descriptor: U64, n: nat, parameters: seq<Parameter>) {
    var d := DecodeFrom(packet + tail, None);
    && d.Message? && d.packetType == RPC && d.consumed == |packet|
    && ReadRequest(n, d.payload) == Got(Called(procedure, descriptor, parameters), [])
  }

  lemma RequestedCalls(procedure: U16, descriptor: U64, packetSize: nat, tail: Bytes,
                       body: Bytes, n: nat, parameters: seq<Parameter>)
    requires HEADER_LEN < packetSize <= MAX_PACKET_LEN
    requires ReadMany(ReadParameter, n, body) == Got(parameters, [])
    ensures Calls(Framed(RPC, RpcHeader(procedure, descriptor) + body, packetSize), tail, procedure, descriptor, n, parameters)
  {
    hide ReadRequest, ReadMany, ReadParameter, RpcHeader, Called, Split, DecodeFrom;
    FramingRoundTrip(RPC, RpcHeader(procedure, descriptor) + body, packetSize, tail);
    RequestReadsBack(procedure, descriptor, n, body, parameters);
  }

  /** sp_executesql is built exactly when statement and declarations fit; the server then sees the descriptor,
      the statement, the declarations and every argument, in order. */
  lemma ExecuteSqlReachesServer(sql: Text, added: seq<Added>, packetSize: nat, descriptor: U64, tail: Bytes)
    requires Writable(added) && (forall a <- added :: ItemReadable(a))
    ensures var r := Requested(PROCEDURE_ID_EXECUTE_SQL, ExecuteSqlBody(sql, added), packetSize, descriptor);
            && (r.Ok? <==> Fit(sql, added) && HEADER_LEN < packetSize <= MAX_PACKET_LEN)
            && (r.Ok? ==> Calls(r.value, tail, PROCEDURE_ID_EXECUTE_SQL, descriptor,
                                if added == [] then 1 else 2 + |added|, ExecuteSqlCall(sql, added)))
  {
    hide ExecuteSqlBody, ExecuteSqlCall, Framed, Calls, ReadMany, ReadParameter, RpcHeader, Writable, Declarations;
    ExecuteSqlBodyReadsBack(sql, added);
    if Fit(sql, added) && HEADER_LEN < packetSize <= MAX_PACKET_LEN {
      RequestedCalls(PROCEDURE_ID_EXECUTE_SQL, descriptor, packetSize, tail, ExecuteSqlBody(sql, added).value,
                     if added == [] then 1 else 2 + |added|, ExecuteSqlCall(sql, added));
    }
  }

  // ---- sp_prepare and sp_unprepare ----

  function TypeDeclaration(ti: MssqlTypeInfo): Result<string, ArgumentError> {
    match ti.kind
    case Bit => Ok("bit")
    case TinyInt => Ok("tinyint")
    case SmallInt => Ok("smallint")
    case Int => Ok("int")
    case BigInt => Ok("bigint")
    case Real => Ok("real")
    case Float => Ok("float")
    case NVarChar => Ok("nvarchar(max)")
    case VarChar => Ok("varchar(max)")
    case VarBinary => Ok("varbinary(max)")
    case Decimal => Ok("decimal(38, 0)")
    case Date => Ok("date")
    case Time => Ok("time(7)")
    case DateTime2 => Ok("datetime2(7)")
    case DateTimeOffset => Ok("datetimeoffset(7)")
    case UniqueIdentifier => Ok("uniqueidentifier")
    case _ => Err(UnsupportedType)
  }

  predicate Declarable(parameters: seq<MssqlTypeInfo>) {
    forall ti <- parameters :: TypeDeclaration(ti).Ok?
  }

  function PreparedParts(parameters: seq<MssqlTypeInfo>): (parts: seq<string>)
    requires Declarable(parameters)
    ensures |parts| == |parameters| && forall p <- parts :: |p| > 0
  {
    seq(|parameters|, i requires 0 <= i < |parameters| => Name(i + 1) + " " + TypeDeclaration(parameters[i]).value)
  }

  method ParameterDeclarations(parameters: seq<MssqlTypeInfo>) returns (r: Result<string, ArgumentError>)
    ensures r == if Declarable(parameters) then Ok(JoinWith(",", PreparedParts(parameters))) else Err(UnsupportedType)
  {
    hide TypeDeclaration, Name;
    var declarations := "";
    var i := 0;
    while i < |parameters|
      invariant i <= |parameters| && Declarable(parameters[..i])
      invariant declarations == JoinWith(",", PreparedParts(parameters[..i]))
    {
      assert parameters[i] in parameters;
      ghost var parts := PreparedParts(parameters[..i]);
      if i > 0 {
        JoinNonEmpty(",", parts);
      }
      if declarations != "" {
        declarations := declarations + ",";
      }
      var declared := TypeDeclaration(parameters[i]);
      UnsupportedOnly(parameters[i]);
      if declared.Err? {
        return Err(declared.error);
      }
      var part := Name(i + 1) + " " + declared.value;
      assert PreparedParts(parameters[..i + 1]) == parts + [part];
      assert (parts + [part])[..i] == parts;
      declarations := declarations + part;
      i := i + 1;
    }
    assert parameters[..i] == parameters;
    return Ok(declarations);
  }

  lemma UnsupportedOnly(ti: MssqlTypeInfo)
    ensures TypeDeclaration(ti).Err? ==> TypeDeclaration(ti) == Err(UnsupportedType)
  {
  }

  function PreparedDeclarations(parameters: seq<MssqlTypeInfo>): Result<Bytes, ArgumentError> {
    if parameters == [] then NullTextParameter()
    else if Declarable(parameters) then TextParameter(Ascii(JoinWith(",", PreparedParts(parameters))))
    else Err(UnsupportedType)
  }

  function PrepareBody(sql: Text, parameters: seq<MssqlTypeInfo>): Result<Bytes, ArgumentError> {
    IntParameterReadsBack(1, 0, []);
    IntParameterReadsBack(0, 1, []);
    var declared, statement := PreparedDeclarations(parameters), TextParameter(sql);
    if declared.Err? then declared
    else if statement.Err? then statement
    else Ok(IntParameter(1, 0).value + (declared.value + (statement.value + IntParameter(0, 1).value)))
  }

  method DeclareParameters(parameters: seq<MssqlTypeInfo>) returns (r: Result<Bytes, ArgumentError>)
    ensures r == PreparedDeclarations(parameters)
  {
    hide TextParameter, NullTextParameter, PreparedParts, JoinWith, Ascii;
    if parameters == [] {
      return NullTextParameter();
    }
    var text := ParameterDeclarations(parameters);
    if text.Err? {
      return Err(text.error);
    }
    return TextParameter(Ascii(text.value));
  }

  lemma FourAppended(header: Bytes, a: Bytes, b: Bytes, c: Bytes, d: Bytes)
    ensures header + a + b + c + d == header + (a + (b + (c + d)))
  {
  }

  method BuildPreparePacket(sql: Text, parameters: seq<MssqlTypeInfo>, packetSize: nat, descriptor: U64)
    returns (r: Result<Bytes, RequestError>)
    ensures r == Requested(PROCEDURE_ID_PREPARE, PrepareBody(sql, parameters), packetSize, descriptor)
  {
    hide TextParameter, IntParameter, PreparedDeclarations, RpcHeader, Framed;
    IntParameterReadsBack(1, 0, []);
    IntParameterReadsBack(0, 1, []);
    var payload := WriteRpcHeader([], PROCEDURE_ID_PREPARE, descriptor);
    var header := RpcHeader(PROCEDURE_ID_PREPARE, descriptor);
    assert payload == header;
    var handle, options := IntParameter(1, 0).value, IntParameter(0, 1).value;
    payload := payload + handle;
    var declared := DeclareParameters(parameters);
    if declared.Err? {
      return Err(Argument(declared.error));
    }
    payload := payload + declared.value;
    var statement := TextParameter(sql);
    if statement.Err? {
      return Err(Argument(statement.error));
    }
    payload := payload + statement.value;
    payload := payload + options;
    FourAppended(header, handle, declared.value, statement.value, options);
    r := Encode(payload, packetSize);
  }

  predicate Preparable(sql: Text, parameters: seq<MssqlTypeInfo>) {
    && |sql| <= MAX_TEXT && Declarable(parameters)
    && (parameters != [] ==> |JoinWith(",", PreparedParts(parameters))| <= MAX_TEXT)
  }

  /** The output handle, the declarations (NULL if there are none), the statement and the metadata option. */
  function PrepareCall(sql: Text, parameters: seq<MssqlTypeInfo>): seq<Parameter>
    requires Preparable(sql, parameters)
  {
    [SeenInt(1, 0),
     if parameters == [] then SEEN_NULL_TEXT else SeenText(Ascii(JoinWith(",", PreparedParts(parameters)))),
     SeenText(sql), SeenInt(0, 1)]
  }

  lemma FourParametersReadBack(a: Bytes, b: Bytes, c: Bytes, d: Bytes, p: Parameter, q: Parameter, r: Parameter, s: Parameter)
    requires ReadParameter(a + (b + (c + d))) == Got(p, b + (c + d))
    requires ReadParameter(b + (c + d)) == Got(q, c + d)
    requires ReadParameter(c + d) == Got(r, d)
    requires ReadParameter(d) == Got(s, [])
    ensures ReadMany(ReadParameter, 4, a + (b + (c + d))) == Got([p, q, r, s], [])
  {
    hide ReadParameter;
    assert [s] + [] == [s] && [r] + [s] == [r, s] && [q] + [r, s] == [q, r, s];
    assert [p] + [q, r, s] == [p, q, r, s];
    ReadAnother(ReadParameter, 0, d, s, [], [], []);
    ReadAnother(ReadParameter, 1, c + d, r, d, [s], []);
    ReadAnother(ReadParameter, 2, b + (c + d), q, c + d, [r, s], []);
    ReadAnother(ReadParameter, 3, a + (b + (c + d)), p, b + (c + d), [q, r, s], []);
  }

  lemma PrepareBodyReadsBack(sql: Text, parameters: seq<MssqlTypeInfo>)
    ensures PrepareBody(sql, parameters).Ok? <==> Preparable(sql, parameters)
    ensures Preparable(sql, parameters) ==>
              ReadMany(ReadParameter, 4, PrepareBody(sql, parameters).value) == Got(PrepareCall(sql, parameters), [])
  {
    hide TextParameter, IntParameter, NullTextParameter, ReadParameter, SeenText, SeenInt, Ascii, JoinWith, PreparedParts, ReadMany;
    IntParameterReadsBack(0, 1, []);
    TextParameterIff(sql, IntParameter(0, 1).value);
    var options := IntParameter(0, 1).value;
    assert options + [] == options;
    NullTextReadsBack([]);
    if Declarable(parameters) && parameters != [] {
      TextParameterIff(Ascii(JoinWith(",", PreparedParts(parameters))), []);
    }
    if Preparable(sql, parameters) {
      var statement, declared := TextParameter(sql).value, PreparedDeclarations(parameters).value;
      if parameters == [] {
        NullTextReadsBack(statement + options);
      } else {
        TextParameterIff(Ascii(JoinWith(",", PreparedParts(parameters))), statement + options);
      }
      IntParameterReadsBack(1, 0, declared + (statement + options));
      var call := PrepareCall(sql, parameters);
      FourParametersReadBack(IntParameter(1, 0).value, declared, statement, options, call[0], call[1], call[2], call[3]);
    }
  }

  lemma PrepareReachesServer(sql: Text, parameters: seq<MssqlTypeInfo>, packetSize: nat, descriptor: U64, tail: Bytes)
    ensures var r := Requested(PROCEDURE_ID_PREPARE, PrepareBody(sql, parameters), packetSize, descriptor);
            && (r.Ok? <==> Preparable(sql, parameters) && HEADER_LEN < packetSize <= MAX_PACKET_LEN)
            && (r.Ok? ==> Calls(r.value, tail, PROCEDURE_ID_PREPARE, descriptor, 4, PrepareCall(sql, parameters)))
  {
    hide PrepareBody, PrepareCall, Framed, Calls, ReadMany, ReadParameter, RpcHeader, Preparable;
    PrepareBodyReadsBack(sql, parameters);
    if Preparable(sql, parameters) && HEADER_LEN < packetSize <= MAX_PACKET_LEN {
      RequestedCalls(PROCEDURE_ID_PREPARE, descriptor, packetSize, tail, PrepareBody(sql, parameters).value, 4,
                     PrepareCall(sql, parameters));
    }
  }

  /** A statement handle as its 32-bit pattern. */
  function I32Bits(v: int): U32
    requires -0x8000_0000 <= v < 0x8000_0000
  {
    if v < 0 then v + 0x1_0000_0000 else v
  }

  method BuildUnpreparePacket(statementId: int, packetSize: nat, descriptor: U64) returns (r: Result<Bytes, RequestError>)
    requires -0x8000_0000 <= statementId < 0x8000_0000
    ensures r == Requested(PROCEDURE_ID_UNPREPARE, IntParameter(0, I32Bits(statementId)), packetSize, descriptor)
  {
    hide IntParameter, RpcHeader, Framed;
    var payload := WriteRpcHeader([], PROCEDURE_ID_UNPREPARE, descriptor);
    assert payload == RpcHeader(PROCEDURE_ID_UNPREPARE, descriptor);
    var handle := IntParameter(0, I32Bits(statementId));
    if handle.Err? {
      return Err(Argument(handle.error));
    }
    payload := payload + handle.value;
    r := Encode(payload, packetSize);
  }

  lemma UnprepareReachesServer(statementId: int, packetSize: nat, descriptor: U64, tail: Bytes)
    requires -0x8000_0000 <= statementId < 0x8000_0000
    ensures var r := Requested(PROCEDURE_ID_UNPREPARE, IntParameter(0, I32Bits(statementId)), packetSize, descriptor);
            && (r.Ok? <==> HEADER_LEN < packetSize <= MAX_PACKET_LEN)
            && (r.Ok? ==> Calls(r.value, tail, PROCEDURE_ID_UNPREPARE, descriptor, 1, [SeenInt(0, I32Bits(statementId))]))
  {
    hide IntParameter, Framed, Calls, ReadParameter, RpcHeader, I32Bits, SeenInt;
    var handle, seen := IntParameter(0, I32Bits(statementId)), SeenInt(0, I32Bits(statementId));
    IntParameterReadsBack(0, I32Bits(statementId), []);
    assert handle.value + [] == handle.value;
    assert [seen] + [] == [seen];
    ReadAnother(ReadParameter, 0, handle.value, seen, [], [], []);
    if HEADER_LEN < packetSize <= MAX_PACKET_LEN {
      RequestedCalls(PROCEDURE_ID_UNPREPARE, descriptor, packetSize, tail, handle.value, 1, [seen]);
    }
  }
}
