/** What the response loop makes of every well-formed token stream a server can send. */
module QueryStream {
  import opened Wire
  import opened EnvChanges
  import opened Rows
  import opened Query
  import T = TypeInfos

  /** One column description as sent; the driver drops its user type and flags. */
  datatype Described = Described(userType: U32, flags: U16, column: Column)

  datatype ReturnHead = ReturnHead(ordinal: U16, name: Text, status: Byte, userType: U32, flags: U16)

  datatype Token =
    | Metadata(described: seq<Described>)
    | NoMetadata
    | RowToken(values: seq<Value>)
    | NbcRowToken(nulls: Bytes, values: seq<Value>)
    | ReturnValueToken(head: ReturnHead, typed: TypedValue)
    | ReturnStatusToken(status: U32)
    | DoneToken(kind: Byte, done: Done)
    | EnvChangeToken(change: EnvChange, was: Bytes)
    | InfoToken(body: Bytes)

  function ColumnsOf(described: seq<Described>): (columns: seq<Column>)
    ensures |columns| == |described|
  {
    seq(|described|, i requires 0 <= i < |described| => described[i].column)
  }

  predicate ColumnFits(d: Described) {
    T.Canonical(d.column.info) && Nameable(d.column.info) && |d.column.name| < 256
  }

  /** Tokens a server can send while these columns are in force. */
  predicate TokenFits(columns: seq<Column>, token: Token) {
    match token
    case Metadata(described) => |described| < 0xffff && forall d <- described :: ColumnFits(d)
    case NoMetadata => true
    case RowToken(values) => RowFits(Infos(columns), values)
    case NbcRowToken(nulls, values) => NbcRowFits(Infos(columns), values) && Marks(nulls, values)
    case ReturnValueToken(head, typed) =>
      |head.name| < 256 && T.Canonical(typed.info) && Nameable(typed.info) && CellFits(typed.info, typed.value)
    case ReturnStatusToken(_) => true
    case DoneToken(kind, _) => kind == 0xfd || kind == 0xfe || kind == 0xff
    case EnvChangeToken(change, was) => Sendable(change) && |EnvChangeBody(change, was)| < 0x1_0000
    case InfoToken(body) => |body| < 0x1_0000
  }

  function TokenCode(token: Token): Byte {
    match token
    case Metadata(_) => 0x81
    case NoMetadata => 0x81
    case RowToken(_) => 0xd1
    case NbcRowToken(_, _) => 0xd2
    case ReturnValueToken(_, _) => 0xac
    case ReturnStatusToken(_) => 0x79
    case DoneToken(kind, _) => kind
    case EnvChangeToken(_, _) => 0xe3
    case InfoToken(_) => 0xab
  }

  function DescribedBytes(d: Described): Bytes
    requires ColumnFits(d)
  {
    LittleEndian(d.userType, 4) + (Le16(d.flags) + (T.TypeInfoBytes(d.column.info)
    + ([|d.column.name|] + Utf16(d.column.name))))
  }

  function AllDescribed(described: seq<Described>): Bytes
    requires forall d <- described :: ColumnFits(d)
  {
    if |described| == 0 then [] else DescribedBytes(described[0]) + AllDescribed(described[1..])
  }

  function TypedBytes(v: TypedValue): Bytes
    requires CellFits(v.info, v.value)
  {
    T.TypeInfoBytes(v.info) + Cell(v.info, v.value)
  }

  function ReturnHeadBytes(h: ReturnHead, rest: Bytes): Bytes
    requires |h.name| < 256
  {
    Le16(h.ordinal) + ([|h.name|] + Utf16(h.name) + ([h.status] + (LittleEndian(h.userType, 4) + (Le16(h.flags) + rest))))
  }

  function DoneBytes(d: Done): Bytes { Le16(d.status) + (Le16(d.command) + LittleEndian(d.rows, 8)) }

  function TokenBody(columns: seq<Column>, token: Token): Bytes
    requires TokenFits(columns, token)
  {
    match token
    case Metadata(described) => Le16(|described|) + AllDescribed(described)
    case NoMetadata => [0xff, 0xff]
    case RowToken(values) => RowBytes(Infos(columns), values, 0)
    case NbcRowToken(nulls, values) => nulls + PresentBytes(Infos(columns), values, 0)
    case ReturnValueToken(head, typed) => ReturnHeadBytes(head, TypedBytes(typed))
    case ReturnStatusToken(status) => LittleEndian(status, 4)
    case DoneToken(_, d) => DoneBytes(d)
    case EnvChangeToken(change, was) => Le16(|EnvChangeBody(change, was)|) + EnvChangeBody(change, was)
    case InfoToken(body) => Le16(|body|) + body
  }

  /** The columns in force once the token is read. */
  function ColumnsAfter(columns: seq<Column>, token: Token): seq<Column> {
    match token
    case Metadata(described) => ColumnsOf(described)
    case NoMetadata => []
    case _ => columns
  }

  predicate StreamFits(columns: seq<Column>, tokens: seq<Token>)
    decreases |tokens|
  {
    |tokens| > 0 ==> TokenFits(columns, tokens[0]) && StreamFits(ColumnsAfter(columns, tokens[0]), tokens[1..])
  }

  function StreamBytes(columns: seq<Column>, tokens: seq<Token>): Bytes
    requires StreamFits(columns, tokens)
    decreases |tokens|
  {
    if |tokens| == 0 then []
    else [TokenCode(tokens[0])] + (TokenBody(columns, tokens[0]) + StreamBytes(ColumnsAfter(columns, tokens[0]), tokens[1..]))
  }

  // ---- what the response should amount to ----

  function LatestColumns(columns: seq<Column>, tokens: seq<Token>): seq<Column>
    decreases |tokens|
  {
    if |tokens| == 0 then columns else LatestColumns(ColumnsAfter(columns, tokens[0]), tokens[1..])
  }

  function RowsOf(columns: seq<Column>, token: Token): seq<QueryRow> {
    match token
    case RowToken(values) => [QueryRow(columns, values)]
    case NbcRowToken(_, values) => [QueryRow(columns, values)]
    case _ => []
  }

  function ReturnValuesOf(token: Token): seq<TypedValue> { if token.ReturnValueToken? then [token.typed] else [] }

  function EnvChangesOf(token: Token): seq<EnvChange> { if token.EnvChangeToken? then [token.change] else [] }

  /** Every row, in order, with the columns in force where it stands. */
  function RowsIn(columns: seq<Column>, tokens: seq<Token>): seq<QueryRow>
    decreases |tokens|
  {
    if |tokens| == 0 then [] else RowsOf(columns, tokens[0]) + RowsIn(ColumnsAfter(columns, tokens[0]), tokens[1..])
  }

  function ReturnValuesIn(tokens: seq<Token>): seq<TypedValue> {
    if |tokens| == 0 then [] else ReturnValuesOf(tokens[0]) + ReturnValuesIn(tokens[1..])
  }

  function EnvChangesIn(tokens: seq<Token>): seq<EnvChange> {
    if |tokens| == 0 then [] else EnvChangesOf(tokens[0]) + EnvChangesIn(tokens[1..])
  }

  /** Sum of the row counts of the DONE tokens that carry one. */
  function CountedRows(tokens: seq<Token>): nat {
    if |tokens| == 0 then 0
    else (if tokens[0].DoneToken? && Counted(tokens[0].done.status) then tokens[0].done.rows else 0) + CountedRows(tokens[1..])
  }

  function Wrap(n: nat): U64 { n % 0x1_0000_0000_0000_0000 }

  function Summary(s: Output, tokens: seq<Token>): Output {
    Output(LatestColumns(s.columns, tokens), s.rows + RowsIn(s.columns, tokens),
           s.returnValues + ReturnValuesIn(tokens), s.envChanges + EnvChangesIn(tokens),
           Wrap(s.rowsAffected + CountedRows(tokens)))
  }

  function AfterToken(s: Output, token: Token): Output {
    match token
    case Metadata(described) => s.(columns := ColumnsOf(described))
    case NoMetadata => s.(columns := [])
    case RowToken(values) => s.(rows := s.rows + [QueryRow(s.columns, values)])
    case NbcRowToken(_, values) => s.(rows := s.rows + [QueryRow(s.columns, values)])
    case ReturnValueToken(_, typed) => s.(returnValues := s.returnValues + [typed])
    case ReturnStatusToken(_) => s
    case DoneToken(_, d) => s.(rowsAffected := AddCount(s.rowsAffected, d))
    case EnvChangeToken(change, _) => s.(envChanges := s.envChanges + [change])
    case InfoToken(_) => s
  }

  // ---- each token reads back ----

  lemma DescribedReadsBack(d: Described, tail: Bytes)
    requires ColumnFits(d)
    ensures GetColumn(DescribedBytes(d) + tail) == Got(d.column, tail)
  {
    hide ReadU32, ReadU16, ReadBVarChar, T.GetTypeInfo, T.TypeInfoBytes, LittleEndian, Le16, Utf16, T.Canonical;
    var name := [|d.column.name|] + Utf16(d.column.name);
    var info := T.TypeInfoBytes(d.column.info) + name;
    ReadU32Front(d.userType, Le16(d.flags) + info, tail);
    Assoc(Le16(d.flags), info, tail);
    ReadU16Exact(d.flags, info + tail);
    Assoc(T.TypeInfoBytes(d.column.info), name, tail);
    T.TypeInfoReadsBack(d.column.info, name + tail);
    ReadBVarCharExact(d.column.name, tail);
  }

  lemma {:induction false} AllDescribedReadBack(described: seq<Described>, tail: Bytes)
    requires forall d <- described :: ColumnFits(d)
    ensures ReadMany(GetColumn, |described|, AllDescribed(described) + tail) == Got(ColumnsOf(described), tail)
    decreases |described|
  {
    hide GetColumn, DescribedBytes, ColumnFits;
    if |described| == 0 {
      assert [] + tail == tail;
    } else {
      var later := AllDescribed(described[1..]);
      Assoc(DescribedBytes(described[0]), later, tail);
      DescribedReadsBack(described[0], later + tail);
      AllDescribedReadBack(described[1..], tail);
      ReadAnother(GetColumn, |described| - 1, AllDescribed(described) + tail, described[0].column, later + tail,
                  ColumnsOf(described[1..]), tail);
      assert [described[0].column] + ColumnsOf(described[1..]) == ColumnsOf(described);
    }
  }

  lemma TypedReadsBack(v: TypedValue, tail: Bytes)
    requires T.Canonical(v.info) && Nameable(v.info) && CellFits(v.info, v.value)
    ensures GetTypedValue(TypedBytes(v) + tail) == Got(v, tail)
  {
    hide T.GetTypeInfo, T.TypeInfoBytes, T.Canonical, CellBytes, T.GetLaidOut, T.LayoutOf, Expressible;
    Assoc(T.TypeInfoBytes(v.info), Cell(v.info, v.value), tail);
    T.TypeInfoReadsBack(v.info, Cell(v.info, v.value) + tail);
    CellReadsBack(T.LayoutOf(v.info.ty), v.info.size, v.value, tail);
  }

  lemma ReturnHeadReadsBack(h: ReturnHead, rest: Bytes, tail: Bytes)
    requires |h.name| < 256
    ensures GetReturnValue(ReturnHeadBytes(h, rest) + tail) == GetTypedValue(rest + tail)
  {
    hide ReadU32, ReadU16, ReadByte, ReadBVarChar, LittleEndian, Le16, Utf16, GetTypedValue;
    var flags := Le16(h.flags) + rest;
    var user := LittleEndian(h.userType, 4) + flags;
    var status := [h.status] + user;
    var text := [|h.name|] + Utf16(h.name);
    Assoc(Le16(h.ordinal), text + status, tail);
    ReadU16Exact(h.ordinal, text + status + tail);
    Assoc(text, status, tail);
    ReadBVarCharExact(h.name, status + tail);
    Assoc([h.status], user, tail);
    ReadByteExact(h.status, user + tail);
    ReadU32Front(h.userType, flags, tail);
    Assoc(Le16(h.flags), rest, tail);
    ReadU16Exact(h.flags, rest + tail);
  }

  lemma DoneReadsBack(d: Done, tail: Bytes)
    ensures GetDone(DoneBytes(d) + tail) == Got(d, tail)
  {
    hide ReadU16, ReadU64, LittleEndian, Le16;
    var rows := LittleEndian(d.rows, 8);
    Assoc(Le16(d.status), Le16(d.command) + rows, tail);
    ReadU16Exact(d.status, Le16(d.command) + rows + tail);
    Assoc(Le16(d.command), rows, tail);
    ReadU16Exact(d.command, rows + tail);
    ReadU64Exact(d.rows, tail);
  }

  lemma NoMetadataBytes()
    ensures Le16(NO_METADATA) == [0xff, 0xff]
  {
  }

  lemma MetadataReadsBack(s: Output, token: Token, tail: Bytes)
    requires (token.Metadata? || token.NoMetadata?) && TokenFits(s.columns, token)
    ensures OnColumns(s, TokenBody(s.columns, token) + tail) == Got(AfterToken(s, token), tail)
  {
    hide ReadU16, Le16, GetColumn, AllDescribed, ColumnsOf;
    if token.Metadata? {
      Assoc(Le16(|token.described|), AllDescribed(token.described), tail);
      ReadU16Exact(|token.described|, AllDescribed(token.described) + tail);
      AllDescribedReadBack(token.described, tail);
    } else {
      NoMetadataBytes();
      ReadU16Exact(NO_METADATA, tail);
    }
  }

  lemma TokenReadsBack(s: Output, token: Token, tail: Bytes)
    requires TokenFits(s.columns, token)
    ensures OnToken(s, TokenCode(token), TokenBody(s.columns, token) + tail) == Got(AfterToken(s, token), tail)
  {
    hide GetColumns, GetRow, GetReturnValue, ParseEnvChange, ReadLenPrefixed, GetDone, AddCount, ReadU32,
         RowBytes, PresentBytes, ReturnHeadBytes, TypedBytes, DoneBytes, EnvChangeBody, LittleEndian, Le16, T.Canonical,
         CellFits, Marks, RowFits, NbcRowFits, Infos, AllDescribed, ColumnsOf;
    match token {
      case Metadata(_) => MetadataReadsBack(s, token, tail);
      case NoMetadata => MetadataReadsBack(s, token, tail);
      case RowToken(values) => RowReadsBack(Infos(s.columns), values, tail);
      case NbcRowToken(nulls, values) => NbcRowReadsBack(nulls, Infos(s.columns), values, tail);
      case ReturnValueToken(head, typed) =>
        ReturnHeadReadsBack(head, TypedBytes(typed), tail);
        TypedReadsBack(typed, tail);
      case ReturnStatusToken(status) => ReadU32Exact(status, tail);
      case DoneToken(_, d) => DoneReadsBack(d, tail);
      case EnvChangeToken(change, was) =>
        ReadLenPrefixedExact(EnvChangeBody(change, was), tail);
        EnvChangeReadsBack(change, was);
      case InfoToken(body) => ReadLenPrefixedExact(body, tail);
    }
  }

  lemma WrapStep(total: U64, more: nat, later: nat)
    ensures Wrap(Wrap(total + more) + later) == Wrap(total + (more + later))
  {
    var m := 0x1_0000_0000_0000_0000;
    var q := (total + more) / m;
    assert total + more == m * q + Wrap(total + more);
    var a := Wrap(total + more) + later;
    QuotientUnique(a + m * q, m, q + a / m, a % m);
  }

  lemma AfterTokenAppends(s: Output, token: Token)
    ensures AfterToken(s, token).columns == ColumnsAfter(s.columns, token)
    ensures AfterToken(s, token).rows == s.rows + RowsOf(s.columns, token)
    ensures AfterToken(s, token).returnValues == s.returnValues + ReturnValuesOf(token)
    ensures AfterToken(s, token).envChanges == s.envChanges + EnvChangesOf(token)
  {
    hide ColumnsOf, AddCount;
  }

  lemma SummaryStep(s: Output, token: Token, tokens: seq<Token>)
    ensures Summary(AfterToken(s, token), tokens) == Summary(s, [token] + tokens)
  {
    hide RowsOf, ReturnValuesOf, EnvChangesOf, CountedRows, Wrap, ColumnsOf, AddCount;
    assert ([token] + tokens)[1..] == tokens;
    AfterTokenAppends(s, token);
    Assoc(s.rows, RowsOf(s.columns, token), RowsIn(ColumnsAfter(s.columns, token), tokens));
    Assoc(s.returnValues, ReturnValuesOf(token), ReturnValuesIn(tokens));
    Assoc(s.envChanges, EnvChangesOf(token), EnvChangesIn(tokens));
    CountStep(s.rowsAffected, token, tokens);
  }

  lemma CountStep(total: U64, token: Token, tokens: seq<Token>)
    ensures Wrap((if token.DoneToken? then AddCount(total, token.done) else total) + CountedRows(tokens))
            == Wrap(total + CountedRows([token] + tokens))
  {
    hide Counted;
    assert ([token] + tokens)[1..] == tokens;
    if token.DoneToken? && Counted(token.done.status) {
      WrapStep(total, token.done.rows, CountedRows(tokens));
    }
  }

  /** The response loop as a fold: rows, return values and environment changes in order, the latest columns,
      and the sum of the counted DONE tokens (as a 64-bit counter holds it). */
  lemma {:induction false} StreamIsSummarised(s: Output, tokens: seq<Token>)
    requires StreamFits(s.columns, tokens)
    ensures Parse(s, StreamBytes(s.columns, tokens)) == Ok(Summary(s, tokens))
    decreases |tokens|
  {
    hide OnToken, TokenFits, TokenBody;
    if |tokens| == 0 {
      NothingMore(s);
    } else {
      var token, later := tokens[0], tokens[1..];
      var rest := StreamBytes(ColumnsAfter(s.columns, token), later);
      TokenReadsBack(s, token, rest);
      StreamIsSummarised(AfterToken(s, token), later);
      SummaryStep(s, token, later);
      assert tokens == [token] + later;
      assert StreamBytes(s.columns, tokens)[1..] == TokenBody(s.columns, token) + rest;
    }
  }

  lemma NothingMore(s: Output)
    ensures Summary(s, []) == s
  {
  }

  /** A response with an ERROR token fails with that error, whatever follows it. */
  lemma StreamWithError(tokens: seq<Token>, info: ServerErrorInfo, later: Bytes)
    requires StreamFits([], tokens) && Reportable(info) && |ServerErrorBody(info)| < 0x1_0000
    ensures Parse(NOTHING, StreamBytes([], tokens)
                           + ([0xaa] + (Le16(|ServerErrorBody(info)|) + ServerErrorBody(info) + later)))
            == Err(ServerError(info))
  {
    StreamIsSummarised(NOTHING, tokens);
    hide Parse, StreamFits, StreamBytes, ServerErrorBody, Reportable;
    StopsAtFirstError(NOTHING, StreamBytes([], tokens), info, later);
  }
}
