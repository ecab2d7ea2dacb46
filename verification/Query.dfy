/** The token stream of a query response (section 2.2.7 of [MS-TDS]). */
module Query {
  import opened Wire
  import opened EnvChanges
  import opened Rows
  import T = TypeInfos

  datatype Column = Column(name: Text, info: T.TypeInfo)

  /** A row shares the column list in force when it was read. */
  datatype QueryRow = QueryRow(columns: seq<Column>, values: seq<Value>)

  datatype TypedValue = TypedValue(info: T.TypeInfo, value: Value)

  datatype Output = Output(
    columns: seq<Column>,
    rows: seq<QueryRow>,
    returnValues: seq<TypedValue>,
    envChanges: seq<EnvChange>,
    rowsAffected: U64)

  const NOTHING: Output := Output([], [], [], [], 0)

  const COL_METADATA: Byte := 0x81
  const ERROR: Byte := 0xaa
  const INFO: Byte := 0xab
  const RETURN_STATUS: Byte := 0x79
  const RETURN_VALUE: Byte := 0xac
  const ROW: Byte := 0xd1
  const NBCROW: Byte := 0xd2
  const ENVCHANGE: Byte := 0xe3
  const DONE: Byte := 0xfd
  const DONEPROC: Byte := 0xfe
  const DONEINPROC: Byte := 0xff

  // ---- token readers ----

  /** Widths the driver can name; meeting any other stops it. */
  predicate Nameable(t: T.TypeInfo) {
    && (t.ty.IntN? ==> t.size == 1 || t.size == 2 || t.size == 4 || t.size == 8)
    && (t.ty.FloatN? ==> t.size == 4 || t.size == 8)
  }

  function GetColumn(input: Bytes): Read<Column> {
    var (_, rest) :- ReadU32(input);
    var (_, rest) :- ReadU16(rest);
    var (info, rest) :- T.GetTypeInfo(rest);
    var (name, rest) :- ReadBVarChar(rest);
    if Nameable(info) then Got(Column(name, info), rest) else Fail(InvalidNumberSize)
  }

  const NO_METADATA: U16 := 0xffff

  function GetColumns(input: Bytes): Read<seq<Column>> {
    var (count, rest) :- ReadU16(input);
    if count == NO_METADATA then Got([], rest) else ReadMany(GetColumn, count, rest)
  }

  /** The driver's column reader: a counted loop that pushes columns. */
  method ColMetaDataGet(input: Bytes) returns (r: Read<seq<Column>>)
    ensures r == GetColumns(input)
  {
    hide GetColumn;
    var count := ReadU16(input);
    if count.Fail? {
      return Fail(count.error);
    }
    if count.value == NO_METADATA {
      return Got([], count.rest);
    }
    var rest, columns, ordinal: nat := count.rest, [], 0;
    ghost var all := ReadMany(GetColumn, count.value, count.rest);
    assert all.Got? ==> [] + all.value == all.value;
    while ordinal < count.value
      invariant ordinal <= count.value
      invariant all == Onto(columns, ReadMany(GetColumn, count.value - ordinal, rest))
    {
      var column := GetColumn(rest);
      if column.Fail? {
        return Fail(column.error);
      }
      OntoStep(columns, [column.value], ReadMany(GetColumn, count.value - ordinal - 1, column.rest));
      columns := columns + [column.value];
      rest := column.rest;
      ordinal := ordinal + 1;
    }
    assert columns + [] == columns;
    return Got(columns, rest);
  }

  /** Whether a DONE token's status says its row count is valid (bit 4). */
  predicate Counted(status: U16) { status / 16 % 2 == 1 }

  datatype Done = Done(status: U16, command: U16, rows: U64)

  function GetDone(input: Bytes): Read<Done> {
    var (status, rest) :- ReadU16(input);
    var (command, rest) :- ReadU16(rest);
    var (rows, rest) :- ReadU64(rest);
    Got(Done(status, command, rows), rest)
  }

  /** What a return value's reader looks at after its fixed fields. */
  function GetTypedValue(input: Bytes): Read<TypedValue> {
    var (info, rest) :- T.GetTypeInfo(input);
    var (value, rest) :- T.GetValue(info, rest);
    if Nameable(info) then Got(TypedValue(info, value), rest) else Fail(InvalidNumberSize)
  }

  function GetReturnValue(input: Bytes): Read<TypedValue> {
    var (_, rest) :- ReadU16(input);
    var (_, rest) :- ReadBVarChar(rest);
    var (_, rest) :- ReadByte(rest);
    var (_, rest) :- ReadU32(rest);
    var (_, rest) :- ReadU16(rest);
    GetTypedValue(rest)
  }

  // ---- one token ----

  function Infos(columns: seq<Column>): (infos: seq<T.TypeInfo>)
    ensures |infos| == |columns|
  {
    seq(|columns|, i requires 0 <= i < |columns| => columns[i].info)
  }

  /** A 64-bit counter as an optimised build keeps it. */
  function AddCount(total: U64, d: Done): U64 {
    if Counted(d.status) then (total as int + d.rows) % 0x1_0000_0000_0000_0000 else total
  }

  function OnColumns(s: Output, rest: Bytes): Read<Output> {
    var (columns, rest) :- GetColumns(rest);
    Got(s.(columns := columns), rest)
  }

  function OnRow(s: Output, nullable: bool, rest: Bytes): Read<Output> {
    var (values, rest) :- GetRow(nullable, Infos(s.columns), rest);
    Got(s.(rows := s.rows + [QueryRow(s.columns, values)]), rest)
  }

  function OnReturnValue(s: Output, rest: Bytes): Read<Output> {
    var (value, rest) :- GetReturnValue(rest);
    Got(s.(returnValues := s.returnValues + [value]), rest)
  }

  function OnReturnStatus(s: Output, rest: Bytes): Read<Output> {
    var (_, rest) :- ReadU32(rest);
    Got(s, rest)
  }

  function OnDone(s: Output, rest: Bytes): Read<Output> {
    var (d, rest) :- GetDone(rest);
    Got(s.(rowsAffected := AddCount(s.rowsAffected, d)), rest)
  }

  function OnEnvChange(s: Output, rest: Bytes): Read<Output> {
    var (body, rest) :- ReadLenPrefixed(rest);
    var change := ParseEnvChange(body);
    if change.Err? then Fail(change.error) else Got(s.(envChanges := s.envChanges + [change.value]), rest)
  }

  function OnInfo(s: Output, rest: Bytes): Read<Output> {
    var (_, rest) :- ReadLenPrefixed(rest);
    Got(s, rest)
  }

  function OnError(rest: Bytes): Read<Output> {
    var (body, _) :- ReadLenPrefixed(rest);
    Fail(ServerErrorFrom(body))
  }

  function OnToken(s: Output, token: Byte, rest: Bytes): Read<Output> {
    if token == COL_METADATA then OnColumns(s, rest)
    else if token == ROW then OnRow(s, false, rest)
    else if token == NBCROW then OnRow(s, true, rest)
    else if token == RETURN_VALUE then OnReturnValue(s, rest)
    else if token == RETURN_STATUS then OnReturnStatus(s, rest)
    else if token == DONE || token == DONEPROC || token == DONEINPROC then OnDone(s, rest)
    else if token == ERROR then OnError(rest)
    else if token == ENVCHANGE then OnEnvChange(s, rest)
    else if token == INFO then OnInfo(s, rest)
    else Fail(UnsupportedToken(token))
  }

  // ---- every reader consumes ----

  lemma ColumnShrinks(input: Bytes)
    requires GetColumn(input).Got?
    ensures |GetColumn(input).rest| <= |input|
  {
    hide T.GetTypeInfo, Units;
    T.TypeInfoShrinks(input[4..][2..]);
  }

  lemma ColumnsShrink(input: Bytes)
    requires GetColumns(input).Got?
    ensures |GetColumns(input).rest| <= |input|
  {
    hide GetColumn;
    var count := ReadU16(input);
    if count.value != NO_METADATA {
      forall i: Bytes | GetColumn(i).Got? ensures |GetColumn(i).rest| <= |i| { ColumnShrinks(i); }
      ReadManyShrinks(GetColumn, count.value, count.rest);
    }
  }

  lemma TypedValueShrinks(input: Bytes)
    requires GetTypedValue(input).Got?
    ensures |GetTypedValue(input).rest| <= |input|
  {
    hide T.GetTypeInfo, T.GetValue;
    var info := T.GetTypeInfo(input);
    T.TypeInfoShrinks(input);
    T.ValueShrinks(info.value, info.rest);
  }

  lemma ReturnValueShrinks(input: Bytes)
    requires GetReturnValue(input).Got?
    ensures |GetReturnValue(input).rest| <= |input|
  {
    hide GetTypedValue, Units;
    var name := ReadBVarChar(input[2..]);
    TypedValueShrinks(name.rest[1..][4..][2..]);
  }

  lemma TokenShrinks(s: Output, token: Byte, rest: Bytes)
    requires OnToken(s, token, rest).Got?
    ensures |OnToken(s, token, rest).rest| <= |rest|
  {
    hide GetColumns, GetRow, GetReturnValue, ParseEnvChange;
    if token == COL_METADATA {
      ColumnsShrink(rest);
    } else if token == ROW {
      RowShrinks(false, Infos(s.columns), rest);
    } else if token == NBCROW {
      RowShrinks(true, Infos(s.columns), rest);
    } else if token == RETURN_VALUE {
      ReturnValueShrinks(rest);
    }
  }

  // ---- the stream ----

  function Parse(s: Output, input: Bytes): (r: Result<Output, ReadError>)
    decreases |input|
  {
    if |input| == 0 then Ok(s)
    else
      var r := OnToken(s, input[0], input[1..]);
      if r.Fail? then Err(r.error)
      else
        TokenShrinks(s, input[0], input[1..]);
        Parse(r.value, r.rest)
  }

  /** The driver's response loop. */
  method ParseQueryResponse(response: Bytes) returns (r: Result<Output, ReadError>)
    ensures r == Parse(NOTHING, response)
  {
    hide GetColumns, GetRow, GetReturnValue, ParseEnvChange, ReadLenPrefixed, GetDone, AddCount, ServerErrorFrom, ReadU32;
    var input := response;
    var columns: seq<Column> := [];
    var rows: seq<QueryRow> := [];
    var returnValues: seq<TypedValue> := [];
    var envChanges: seq<EnvChange> := [];
    var rowsAffected: U64 := 0;
    while |input| > 0
      invariant Parse(NOTHING, response) == Parse(Output(columns, rows, returnValues, envChanges, rowsAffected), input)
      decreases |input|
    {
      var token, rest := input[0], input[1..];
      TokenShrinksWhenRead(Output(columns, rows, returnValues, envChanges, rowsAffected), token, rest);
      if token == COL_METADATA {
        var got := ColMetaDataGet(rest);
        if got.Fail? { return Err(got.error); }
        columns, input := got.value, got.rest;
      } else if token == ROW || token == NBCROW {
        var got := RowGet(rest, token == NBCROW, Infos(columns));
        if got.Fail? { return Err(got.error); }
        rows, input := rows + [QueryRow(columns, got.value)], got.rest;
      } else if token == RETURN_VALUE {
        var got := GetReturnValue(rest);
        if got.Fail? { return Err(got.error); }
        returnValues, input := returnValues + [got.value], got.rest;
      } else if token == RETURN_STATUS {
        var got := ReadU32(rest);
        if got.Fail? { return Err(got.error); }
        input := got.rest;
      } else if token == DONE || token == DONEPROC || token == DONEINPROC {
        var got := GetDone(rest);
        if got.Fail? { return Err(got.error); }
        rowsAffected, input := AddCount(rowsAffected, got.value), got.rest;
      } else if token == ERROR {
        var got := ReadLenPrefixed(rest);
        if got.Fail? { return Err(got.error); }
        return Err(ServerErrorFrom(got.value));
      } else if token == ENVCHANGE {
        var got := ReadLenPrefixed(rest);
        if got.Fail? { return Err(got.error); }
        var change := ParseEnvChange(got.value);
        if change.Err? { return Err(change.error); }
        envChanges, input := envChanges + [change.value], got.rest;
      } else if token == INFO {
        var got := ReadLenPrefixed(rest);
        if got.Fail? { return Err(got.error); }
        input := got.rest;
      } else {
        return Err(UnsupportedToken(token));
      }
    }
    return Ok(Output(columns, rows, returnValues, envChanges, rowsAffected));
  }

  lemma TokenShrinksWhenRead(s: Output, token: Byte, rest: Bytes)
    ensures OnToken(s, token, rest).Got? ==> |OnToken(s, token, rest).rest| <= |rest|
  {
    if OnToken(s, token, rest).Got? {
      TokenShrinks(s, token, rest);
    }
  }

  // ---- locality ----

  lemma ColumnLocal(input: Bytes, tail: Bytes)
    ensures LocalAt(GetColumn, input, tail)
  {
    hide T.GetTypeInfo, ReadU32, ReadU16, ReadBVarChar;
    if GetColumn(input).Got? {
      var a := ReadU32(input).rest;
      var b := ReadU16(a).rest;
      var info := T.GetTypeInfo(b);
      ReadersLocal(input, tail);
      ReadersLocal(a, tail);
      T.GetTypeInfoLocal(b, tail);
      ReadBVarCharLocal(info.rest, tail);
    }
  }

  lemma ColumnsLocal(input: Bytes, tail: Bytes)
    requires GetColumns(input).Got?
    ensures GetColumns(input + tail) == GetColumns(input).Before(tail)
  {
    hide GetColumn, ReadU16;
    ReadersLocal(input, tail);
    var count := ReadU16(input);
    if count.value != NO_METADATA {
      forall i: Bytes ensures LocalAt(GetColumn, i, tail) { ColumnLocal(i, tail); }
      ReadManyLocal(GetColumn, count.value, count.rest, tail);
    }
  }

  lemma TypedValueLocal(input: Bytes, tail: Bytes)
    requires GetTypedValue(input).Got?
    ensures GetTypedValue(input + tail) == GetTypedValue(input).Before(tail)
  {
    hide T.GetTypeInfo, T.GetValue;
    var info := T.GetTypeInfo(input);
    T.GetTypeInfoLocal(input, tail);
    T.GetValueLocal(info.value, info.rest, tail);
  }

  lemma ReturnValueLocal(input: Bytes, tail: Bytes)
    requires GetReturnValue(input).Got?
    ensures GetReturnValue(input + tail) == GetReturnValue(input).Before(tail)
  {
    hide GetTypedValue, ReadU16, ReadBVarChar, ReadByte, ReadU32;
    var a := ReadU16(input).rest;
    var b := ReadBVarChar(a).rest;
    var c := ReadByte(b).rest;
    var d := ReadU32(c).rest;
    ReadersLocal(input, tail);
    ReadBVarCharLocal(a, tail);
    ReadersLocal(b, tail);
    ReadersLocal(c, tail);
    ReadersLocal(d, tail);
    TypedValueLocal(ReadU16(d).rest, tail);
  }

  lemma DoneLocal(input: Bytes, tail: Bytes)
    requires GetDone(input).Got?
    ensures GetDone(input + tail) == GetDone(input).Before(tail)
  {
    hide ReadU16, ReadU64;
    var a := ReadU16(input).rest;
    ReadersLocal(input, tail);
    ReadersLocal(a, tail);
    ReadersLocal(ReadU16(a).rest, tail);
  }

  lemma TokenLocal(s: Output, token: Byte, rest: Bytes, tail: Bytes)
    requires OnToken(s, token, rest).Got?
    ensures OnToken(s, token, rest + tail) == OnToken(s, token, rest).Before(tail)
  {
    hide GetColumns, GetRow, GetReturnValue, ParseEnvChange, ReadLenPrefixed, GetDone, AddCount, ReadU32, ServerErrorFrom;
    if token == COL_METADATA {
      ColumnsLocal(rest, tail);
    } else if token == ROW {
      GetRowLocal(false, Infos(s.columns), rest, tail);
    } else if token == NBCROW {
      GetRowLocal(true, Infos(s.columns), rest, tail);
    } else if token == RETURN_VALUE {
      ReturnValueLocal(rest, tail);
    } else if token == RETURN_STATUS {
      ReadersLocal(rest, tail);
    } else if token == DONE || token == DONEPROC || token == DONEINPROC {
      DoneLocal(rest, tail);
    } else if token == ENVCHANGE || token == INFO {
      ReadLenPrefixedLocal(rest, tail);
    }
  }

  /** Running the loop on a stream and then on what follows is running it on both, whenever the first part ends
      at a token boundary. */
  lemma {:induction false} ParseAppend(s: Output, a: Bytes, b: Bytes)
    requires Parse(s, a).Ok?
    ensures Parse(s, a + b) == Parse(Parse(s, a).value, b)
    decreases |a|
  {
    hide OnToken;
    if |a| == 0 {
      assert a + b == b;
    } else {
      assert (a + b)[1..] == a[1..] + b;
      var r := OnToken(s, a[0], a[1..]);
      TokenShrinks(s, a[0], a[1..]);
      TokenLocal(s, a[0], a[1..], b);
      ParseAppend(r.value, r.rest, b);
    }
  }

  /** Nothing that arrives later changes the server's error, and nothing after it is looked at. */
  lemma StopsAtFirstError(s: Output, a: Bytes, info: ServerErrorInfo, later: Bytes)
    requires Parse(s, a).Ok? && Reportable(info) && |ServerErrorBody(info)| < 0x1_0000
    ensures Parse(s, a + ([ERROR] + (Le16(|ServerErrorBody(info)|) + ServerErrorBody(info) + later))) == Err(ServerError(info))
  {
    hide ServerErrorBody, ReadLenPrefixed, ServerErrorFrom, Le16;
    var body := ServerErrorBody(info);
    var rest := Le16(|body|) + body + later;
    ReadLenPrefixedExact(body, later);
    ServerErrorReadsBack(info);
    assert ([ERROR] + rest)[1..] == rest;
    ParseAppend(s, a, [ERROR] + rest);
  }

  /** Every row holds one value per column of the list it was read with, whatever the input. */
  predicate RowsComplete(s: Output) {
    forall r <- s.rows :: |r.values| == |r.columns|
  }

  lemma {:induction false} RowsStayComplete(s: Output, input: Bytes)
    requires RowsComplete(s) && Parse(s, input).Ok?
    ensures RowsComplete(Parse(s, input).value) && s.rows <= Parse(s, input).value.rows
    decreases |input|
  {
    if |input| > 0 {
      var r := OnToken(s, input[0], input[1..]);
      TokenShrinks(s, input[0], input[1..]);
      TokenKeepsRows(s, input[0], input[1..]);
      hide OnToken;
      RowsStayComplete(r.value, r.rest);
    }
  }

  lemma TokenKeepsRows(s: Output, token: Byte, rest: Bytes)
    requires RowsComplete(s) && OnToken(s, token, rest).Got?
    ensures RowsComplete(OnToken(s, token, rest).value) && s.rows <= OnToken(s, token, rest).value.rows
  {
    hide GetColumns, GetRow, GetReturnValue, ParseEnvChange, ReadLenPrefixed, GetDone, AddCount, ReadU32, ServerErrorFrom;
  }

  // ---- what the tokens' numbers mean ----

  /** The row count of a DONE token counts exactly when the fifth bit of its status, 16, is set. */
  lemma CountedIff(high: nat, bit: nat, low: nat)
    requires bit <= 1 && low < 16 && 32 * high + 16 * bit + low < 0x1_0000
    ensures Counted(32 * high + 16 * bit + low) <==> bit == 1
  {
    var status := 32 * high + 16 * bit + low;
    assert status / 16 == 2 * high + bit;
  }

  /** Any token but the eleven known ones ends the response with an error that names it. */
  lemma UnknownTokenStops(s: Output, a: Bytes, token: Byte, later: Bytes)
    requires Parse(s, a).Ok?
    requires token !in {0x79, 0x81, 0xaa, 0xab, 0xac, 0xd1, 0xd2, 0xe3, 0xfd, 0xfe, 0xff}
    ensures Parse(s, a + ([token] + later)) == Err(UnsupportedToken(token))
  {
    ParseAppend(s, a, [token] + later);
    hide OnColumns, OnRow, OnReturnValue, OnReturnStatus, OnDone, OnError, OnEnvChange, OnInfo;
    assert ([token] + later)[1..] == later;
  }

  /** Columns of numbers are read exactly at the widths that exist, one, two, four and eight bytes for integers and
      four and eight for floats; at any other width the response fails. */
  lemma NumberWidths(size: U16, tail: Bytes)
    requires size < 0x100
    ensures var r := GetTypedValue([0x26, size, 0] + tail);
            if size == 1 || size == 2 || size == 4 || size == 8 then r.Got? && r.rest == tail && r.value.value.None?
            else r == Fail(InvalidNumberSize)
    ensures var r := GetTypedValue([0x6d, size, 0] + tail);
            if size == 4 || size == 8 then r.Got? && r.rest == tail && r.value.value.None?
            else r == Fail(InvalidNumberSize)
  {
    NullNumber(0x26, size, tail);
    NullNumber(0x6d, size, tail);
    hide T.GetTypeInfo, T.GetValue;
  }

  lemma NullNumber(code: Byte, size: Byte, tail: Bytes)
    requires code == 0x26 || code == 0x6d
    ensures var info := T.Plain(if code == 0x26 then T.IntN else T.FloatN, size);
            && T.GetTypeInfo([code, size, 0] + tail) == Got(info, [0] + tail)
            && T.GetValue(info, [0] + tail) == Got(None, tail)
  {
    var info := T.Plain(if code == 0x26 then T.IntN else T.FloatN, size);
    assert T.DataTypeOf(code) == Some(info.ty) && T.MetaOf(info.ty) == T.ByteSize && T.LayoutOf(info.ty) == T.ByteLen;
    hide T.DataTypeOf, T.MetaOf, T.LayoutOf;
    assert [code, size, 0] + tail == [code] + ([size] + ([0] + tail));
    ReadByteExact(code, [size] + ([0] + tail));
    ReadByteExact(size, [0] + tail);
    ReadByteExact(0, tail);
  }
}
