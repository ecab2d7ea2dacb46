/** Requests and their responses through every layer: what the state machine calls sending a batch. */
module EndToEnd {
  import opened Wire
  import opened EnvChanges
  import opened Packet
  import opened WireStream
  import opened Transaction
  import Arguments
  import ArgumentList
  import Rpc
  import RpcCalls
  import Query
  import QueryStream
  import StatementHandles

  // ---- the response half ----

  /** Reads one response off the stream, parses it and takes in its environment changes; nothing changes on an error. */
  function Receive(c: Conn, incoming: Bytes): (Conn, Option<Query.Output>) {
    match ReadFrom(incoming, None, c.packetSize)
    case Err(_) => (c, None)
    case Ok((packetType, payload)) =>
      if packetType != TABULAR_RESULT then (c, None)
      else
        match Query.Parse(Query.NOTHING, payload)
        case Err(_) => (c, None)
        case Ok(output) => (Apply(c, output.envChanges), Some(output))
  }

  function ErrorToken(info: ServerErrorInfo): Bytes
    requires Reportable(info) && |ServerErrorBody(info)| < 0x1_0000
  {
    [0xaa] + (Le16(|ServerErrorBody(info)|) + ServerErrorBody(info))
  }

  /** Bytes that say what the server decided: a token stream with exactly its environment changes and return values,
      or one in which an ERROR token follows well-formed tokens. */
  ghost predicate Says(payload: Bytes, reply: Reply, returned: seq<Query.TypedValue>) {
    match reply
    case Success(changes) =>
      exists tokens :: && QueryStream.StreamFits([], tokens) && payload == QueryStream.StreamBytes([], tokens)
                       && QueryStream.EnvChangesIn(tokens) == changes && QueryStream.ReturnValuesIn(tokens) == returned
    case ErrorReply =>
      exists tokens, info, later :: && QueryStream.StreamFits([], tokens)
                                    && Reportable(info) && |ServerErrorBody(info)| < 0x1_0000
                                    && payload == QueryStream.StreamBytes([], tokens) + (ErrorToken(info) + later)
  }

  lemma SuccessParses(payload: Bytes, changes: seq<EnvChange>, returned: seq<Query.TypedValue>)
    requires Says(payload, Success(changes), returned)
    ensures Query.Parse(Query.NOTHING, payload).Ok?
    ensures Query.Parse(Query.NOTHING, payload).value.envChanges == changes
    ensures Query.Parse(Query.NOTHING, payload).value.returnValues == returned
  {
    var tokens :| QueryStream.StreamFits([], tokens) && payload == QueryStream.StreamBytes([], tokens)
                  && QueryStream.EnvChangesIn(tokens) == changes && QueryStream.ReturnValuesIn(tokens) == returned;
    hide Query.Parse, QueryStream.StreamFits, QueryStream.StreamBytes, QueryStream.EnvChangesIn,
         QueryStream.LatestColumns, QueryStream.RowsIn, QueryStream.ReturnValuesIn, QueryStream.CountedRows;
    QueryStream.StreamIsSummarised(Query.NOTHING, tokens);
    assert [] + QueryStream.EnvChangesIn(tokens) == changes;
    assert [] + QueryStream.ReturnValuesIn(tokens) == returned;
  }

  lemma ErrorParses(payload: Bytes, returned: seq<Query.TypedValue>)
    requires Says(payload, ErrorReply, returned)
    ensures Query.Parse(Query.NOTHING, payload).Err?
  {
    hide Query.Parse, QueryStream.StreamFits, QueryStream.StreamBytes, ServerErrorBody, Reportable, Le16;
    var tokens, info, later :| && QueryStream.StreamFits([], tokens)
                               && Reportable(info) && |ServerErrorBody(info)| < 0x1_0000
                               && payload == QueryStream.StreamBytes([], tokens) + (ErrorToken(info) + later);
    QueryStream.StreamWithError(tokens, info, later);
    var body := ServerErrorBody(info);
    Assoc([0xaa], Le16(|body|) + body, later);
  }

  /** However the response is cut into packets that fit, the reader hands its payload to the parser. */
  lemma ResponseArrives(fs: seq<Frame>, tail: Bytes, limit: nat)
    requires IsMessage(fs, None) && forall f <- fs :: f.header.length <= limit
    ensures ReadFrom(WireBytes(fs) + tail, None, limit) == Ok((fs[0].header.packetType, Payloads(fs)))
  {
    hide DecodeFrom, WireBytes, Payloads, ReadFrom;
    MessageFitsBefore(fs, None, tail, limit);
    ReaderRefinesDecoder(WireBytes(fs) + tail, None, limit);
    MessageDecodes(fs, None, tail);
  }

  lemma {:induction false} MessageFitsBefore(fs: seq<Frame>, seen: Option<Expect>, tail: Bytes, limit: nat)
    requires IsMessage(fs, seen) && forall f <- fs :: f.header.length <= limit
    ensures Fits(WireBytes(fs) + tail, seen, limit)
    decreases |fs|
  {
    hide EncodeHeader, DecodeHeader;
    var f, b := fs[0], WireBytes(fs) + tail;
    HeaderRoundTrip(f.header);
    assert b == EncodeHeader(f.header) + (f.payload + WireBytes(fs[1..]) + tail);
    assert b[..HEADER_LEN] == EncodeHeader(f.header);
    assert b[f.header.length..] == WireBytes(fs[1..]) + tail;
    if |fs| > 1 {
      MessageFitsBefore(fs[1..], Following(f.header), tail, limit);
    }
  }

  /** The server's answer to a request: a message whose packets fit and whose payload says what the server decided. */
  ghost predicate Answers(fs: seq<Frame>, limit: nat, reply: Reply, returned: seq<Query.TypedValue>) {
    && IsMessage(fs, None) && fs[0].header.packetType == TABULAR_RESULT
    && (forall f <- fs :: f.header.length <= limit)
    && Says(Payloads(fs), reply, returned)
  }

  /** Reading the answer to a request that carried `descriptor` is what the state machine calls sending the batch. */
  ghost predicate CompletesSend(c: Conn, b: Batch, descriptor: U64, incoming: Bytes, returned: seq<Query.TypedValue>) {
    var (d, output) := Receive(c.(server := Exec(c.server, descriptor, b).0), incoming);
    && (d, output.Some?) == Send(c, b)
    && (output.Some? ==> output.value.returnValues == returned)
  }

  lemma AnswerCompletesSend(c: Conn, b: Batch, fs: seq<Frame>, tail: Bytes, returned: seq<Query.TypedValue>)
    requires Answers(fs, c.packetSize, Exec(c.server, c.descriptor, b).1, returned)
    ensures CompletesSend(c, b, c.descriptor, WireBytes(fs) + tail, returned)
  {
    hide ReadFrom, WireBytes, Payloads, IsMessage, Exec, Says, Apply, Query.Parse;
    ResponseArrives(fs, tail, c.packetSize);
    var reply := Exec(c.server, c.descriptor, b).1;
    if reply.Success? {
      SuccessParses(Payloads(fs), reply.changes, returned);
    } else {
      ErrorParses(Payloads(fs), returned);
    }
  }

  // ---- SQL batches ----

  /** The text of each batch of the transaction manager. */
  function ControlText(b: Batch): Option<string> {
    match b
    case BeginTran => Some("BEGIN TRANSACTION")
    case SaveTran => Some("SAVE TRANSACTION sqlx_savepoint")
    case CommitTran => Some("COMMIT TRANSACTION")
    case RollbackTran => Some("ROLLBACK TRANSACTION")
    case RollbackToSave => Some("ROLLBACK TRANSACTION sqlx_savepoint")
    case _ => None
  }

  /** The words of a text, cut at single blanks. */
  function Words(t: Text): seq<Text> {
    var i := BlankAt(t);
    if i == |t| then [t] else [t[..i]] + Words(t[i + 1..])
  }

  function BlankAt(t: Text): (i: nat)
    ensures i <= |t|
  {
    if |t| == 0 || t[0] == ' ' as int then 0 else 1 + BlankAt(t[1..])
  }

  /** A server's reading of a control batch: the verb, the word TRANSACTION and for two of the verbs a savepoint. */
  function Understood(words: seq<Text>): Option<Batch> {
    if !(2 <= |words| <= 3) || words[1] != Arguments.Ascii("TRANSACTION") then None
    else if |words| == 2 then
      if words[0] == Arguments.Ascii("BEGIN") then Some(BeginTran)
      else if words[0] == Arguments.Ascii("COMMIT") then Some(CommitTran)
      else if words[0] == Arguments.Ascii("ROLLBACK") then Some(RollbackTran)
      else None
    else if words[0] == Arguments.Ascii("SAVE") then Some(SaveTran)
    else if words[0] == Arguments.Ascii("ROLLBACK") then Some(RollbackToSave)
    else None
  }

  lemma {:induction false} BlankBehind(word: Text, rest: Text)
    requires ' ' as int !in word
    ensures BlankAt(word + [' ' as int] + rest) == |word|
    ensures BlankAt(word) == |word|
    decreases |word|
  {
    if |word| > 0 {
      assert word[0] in word;
      assert (word + [' ' as int] + rest)[1..] == word[1..] + [' ' as int] + rest;
      BlankBehind(word[1..], rest);
    }
  }

  lemma FirstWord(word: string, rest: string)
    requires forall c <- word :: c as int < 0x1_0000 && c != ' '
    ensures Words(Arguments.Ascii(word + " " + rest)) == [Arguments.Ascii(word)] + Words(Arguments.Ascii(rest))
    ensures Words(Arguments.Ascii(word)) == [Arguments.Ascii(word)]
  {
    var w := Arguments.Ascii(word);
    forall k | 0 <= k < |w| ensures w[k] != ' ' as int { assert word[k] in word; }
    var whole := w + [' ' as int] + Arguments.Ascii(rest);
    assert Arguments.Ascii(word + " " + rest) == whole;
    BlankBehind(w, Arguments.Ascii(rest));
    assert whole[..|w|] == w && whole[|w| + 1..] == Arguments.Ascii(rest);
  }

  lemma TwoWords(verb: string)
    requires forall c <- verb :: c as int < 0x1_0000 && c != ' '
    ensures Words(Arguments.Ascii(verb + " " + "TRANSACTION")) == [Arguments.Ascii(verb), Arguments.Ascii("TRANSACTION")]
  {
    hide Words, Arguments.Ascii;
    FirstWord(verb, "TRANSACTION");
    FirstWord("TRANSACTION", "");
  }

  const SAVEPOINT: string := "sqlx_savepoint"

  lemma ThreeWords(verb: string)
    requires forall c <- verb :: c as int < 0x1_0000 && c != ' '
    ensures Words(Arguments.Ascii(verb + " " + ("TRANSACTION" + " " + SAVEPOINT))) ==
            [Arguments.Ascii(verb), Arguments.Ascii("TRANSACTION"), Arguments.Ascii(SAVEPOINT)]
  {
    hide Words, Arguments.Ascii;
    FirstWord(verb, "TRANSACTION" + " " + SAVEPOINT);
    FirstWord("TRANSACTION", SAVEPOINT);
    FirstWord(SAVEPOINT, "");
  }

  lemma PlainTexts()
    ensures "BEGIN" + " " + "TRANSACTION" == "BEGIN TRANSACTION"
    ensures "COMMIT" + " " + "TRANSACTION" == "COMMIT TRANSACTION"
    ensures "ROLLBACK" + " " + "TRANSACTION" == "ROLLBACK TRANSACTION"
  {
  }

  lemma SaveText()
    ensures "SAVE" + " " + ("TRANSACTION" + " " + SAVEPOINT) == "SAVE TRANSACTION sqlx_savepoint"
  {
  }

  lemma RollbackText()
    ensures "ROLLBACK" + " " + ("TRANSACTION" + " " + SAVEPOINT) == "ROLLBACK TRANSACTION sqlx_savepoint"
  {
  }

  lemma VerbsDiffer()
    ensures |Arguments.Ascii("BEGIN")| == 5 && |Arguments.Ascii("COMMIT")| == 6
    ensures |Arguments.Ascii("ROLLBACK")| == 8 && |Arguments.Ascii("SAVE")| == 4
  {
  }

  /** A server that reads the words of a control batch carries out that batch, and the two batches that name a savepoint
      name the same one. */
  lemma ControlTextIsUnderstood(b: Batch)
    requires ControlText(b).Some?
    ensures var words := Words(Arguments.Ascii(ControlText(b).value));
            Understood(words) == Some(b) && (|words| == 3 ==> words[2] == Arguments.Ascii(SAVEPOINT))
  {
    hide Words, Arguments.Ascii;
    VerbsDiffer();
    PlainTexts();
    SaveText();
    RollbackText();
    TwoWords("BEGIN");
    TwoWords("COMMIT");
    TwoWords("ROLLBACK");
    ThreeWords("SAVE");
    ThreeWords("ROLLBACK");
  }

  /** So no two control batches have the same text. */
  lemma ControlTextsDiffer(a: Batch, b: Batch)
    requires ControlText(a).Some? && ControlText(b).Some?
    ensures Arguments.Ascii(ControlText(a).value) == Arguments.Ascii(ControlText(b).value) <==> a == b
  {
    hide Words, Understood, Arguments.Ascii;
    ControlTextIsUnderstood(a);
    ControlTextIsUnderstood(b);
  }

  /** What a batch reads as text: the control batches are fixed, a user statement may be any text. */
  predicate Spells(b: Batch, sql: Text) {
    b.User? || (ControlText(b).Some? && sql == Arguments.Ascii(ControlText(b).value))
  }

  /** The server takes descriptor and text out of the framed batch, carries the batch out and answers; the connection
      ends up exactly where the state machine's Send puts it, on success and on error. */
  lemma SendIsTheWire(c: Conn, b: Batch, sql: Text, fs: seq<Frame>, tail: Bytes, returned: seq<Query.TypedValue>)
    requires HEADER_LEN < c.packetSize <= MAX_PACKET_LEN && Spells(b, sql)
    requires Answers(fs, c.packetSize, Exec(c.server, c.descriptor, b).1, returned)
    ensures var request := DecodeFrom(Rpc.Framed(SQL_BATCH, Rpc.SqlBatchPayload(sql, c.descriptor), c.packetSize), None);
            && request.Message? && request.packetType == 1 && Rpc.ReadAllHeaders(request.payload).Got?
            && var headers := Rpc.ReadAllHeaders(request.payload);
               && |headers.rest| % 2 == 0 && Units(headers.rest) == sql && Spells(b, Units(headers.rest))
               && (!b.User? ==> Understood(Words(Units(headers.rest))) == Some(b))
               && CompletesSend(c, b, headers.value.descriptor, WireBytes(fs) + tail, returned)
  {
    hide DecodeFrom, WireBytes, Answers, CompletesSend, Rpc.SqlBatchPayload, Rpc.ReadAllHeaders, Split, Units, Words, Understood;
    if !b.User? {
      ControlTextIsUnderstood(b);
    }
    Rpc.SqlBatchReadsBack(sql, c.packetSize, c.descriptor, []);
    var packet := Rpc.Framed(SQL_BATCH, Rpc.SqlBatchPayload(sql, c.descriptor), c.packetSize);
    assert packet + [] == packet;
    AnswerCompletesSend(c, b, fs, tail, returned);
  }

  // ---- remote procedure calls ----

  /** The descriptor a server finds in a framed procedure call with `n` parameters. */
  function DescriptorIn(packet: Bytes, n: nat): Option<U64> {
    var d := DecodeFrom(packet, None);
    if !d.Message? then None
    else
      var request := Rpc.ReadRequest(n, d.payload);
      if request.Fail? then None else Some(request.value.headers.descriptor)
  }

  lemma CallCarriesDescriptor(packet: Bytes, procedure: U16, descriptor: U64, n: nat, parameters: seq<ArgumentList.Parameter>)
    requires Rpc.Calls(packet, [], procedure, descriptor, n, parameters)
    ensures DescriptorIn(packet, n) == Some(descriptor)
  {
    hide DecodeFrom, Rpc.ReadRequest;
    assert packet + [] == packet;
  }

  /** A parameterised statement: the server sees the statement, its declarations and every argument in a call with the
      held descriptor, and its answer completes the send. */
  lemma ExecuteIsTheWire(c: Conn, statement: Statement, sql: Text, added: seq<ArgumentList.Added>,
                         fs: seq<Frame>, tail: Bytes, returned: seq<Query.TypedValue>)
    requires HEADER_LEN < c.packetSize <= MAX_PACKET_LEN
    requires added != [] && ArgumentList.Writable(added) && (forall a <- added :: ArgumentList.ItemReadable(a))
    requires Rpc.Fit(sql, added)
    requires Answers(fs, c.packetSize, Exec(c.server, c.descriptor, User(statement)).1, returned)
    ensures var r := Rpc.Requested(Rpc.PROCEDURE_ID_EXECUTE_SQL, Rpc.ExecuteSqlBody(sql, added), c.packetSize, c.descriptor);
            && r.Ok?
            && Rpc.Calls(r.value, [], Rpc.PROCEDURE_ID_EXECUTE_SQL, c.descriptor, 2 + |added|, Rpc.ExecuteSqlCall(sql, added))
            && DescriptorIn(r.value, 2 + |added|).Some?
            && CompletesSend(c, User(statement), DescriptorIn(r.value, 2 + |added|).value, WireBytes(fs) + tail, returned)
  {
    hide Rpc.Requested, Rpc.Calls, Rpc.ExecuteSqlCall, Rpc.ExecuteSqlBody, Rpc.Declarations, ArgumentList.Writable,
         ArgumentList.ItemReadable, DescriptorIn, CompletesSend, Answers, WireBytes;
    Rpc.ExecuteSqlReachesServer(sql, added, c.packetSize, c.descriptor, []);
    var r := Rpc.Requested(Rpc.PROCEDURE_ID_EXECUTE_SQL, Rpc.ExecuteSqlBody(sql, added), c.packetSize, c.descriptor);
    CallCarriesDescriptor(r.value, Rpc.PROCEDURE_ID_EXECUTE_SQL, c.descriptor, 2 + |added|, Rpc.ExecuteSqlCall(sql, added));
    AnswerCompletesSend(c, User(statement), fs, tail, returned);
  }

  /** Giving a handle back: the server sees exactly that handle. */
  lemma UnprepareIsTheWire(c: Conn, id: int, fs: seq<Frame>, tail: Bytes, returned: seq<Query.TypedValue>)
    requires HEADER_LEN < c.packetSize <= MAX_PACKET_LEN && StatementHandles.InI32(id)
    requires Answers(fs, c.packetSize, Exec(c.server, c.descriptor, Unprepare(id)).1, returned)
    ensures var r := Rpc.Requested(Rpc.PROCEDURE_ID_UNPREPARE, Rpc.IntParameter(0, Rpc.I32Bits(id)), c.packetSize, c.descriptor);
            && r.Ok?
            && Rpc.Calls(r.value, [], Rpc.PROCEDURE_ID_UNPREPARE, c.descriptor, 1, [Rpc.SeenInt(0, Rpc.I32Bits(id))])
            && RpcCalls.ServerSees(r.value, 1).Some?
            && RpcCalls.IsCall(RpcCalls.ServerSees(r.value, 1).value, 15, c.descriptor, 1)
            && RpcCalls.IsInt(RpcCalls.ServerSees(r.value, 1).value.parameters[0], 0, id)
            && DescriptorIn(r.value, 1).Some?
            && CompletesSend(c, Unprepare(id), DescriptorIn(r.value, 1).value, WireBytes(fs) + tail, returned)
  {
    hide Rpc.Requested, Rpc.Calls, Rpc.IntParameter, Rpc.SeenInt, Rpc.I32Bits, DescriptorIn, CompletesSend, Answers, WireBytes;
    hide RpcCalls.ServerSees, RpcCalls.IsCall, RpcCalls.IsInt;
    Rpc.UnprepareReachesServer(id, c.packetSize, c.descriptor, []);
    RpcCalls.UnprepareByName(id, c.packetSize, c.descriptor);
    var r := Rpc.Requested(Rpc.PROCEDURE_ID_UNPREPARE, Rpc.IntParameter(0, Rpc.I32Bits(id)), c.packetSize, c.descriptor);
    CallCarriesDescriptor(r.value, Rpc.PROCEDURE_ID_UNPREPARE, c.descriptor, 1, [Rpc.SeenInt(0, Rpc.I32Bits(id))]);
    AnswerCompletesSend(c, Unprepare(id), fs, tail, returned);
  }

  /** What is left of a prepare once its response is in: the handle out of the parsed return values is given back. */
  function AfterPrepare(received: (Conn, Option<Query.Output>)): (Conn, bool) {
    match received.1
    case None => (received.0, false)
    case Some(output) => Release(received.0, StatementHandles.FirstI32(output.returnValues))
  }

  /** A prepare on a connection with nothing queued: the call reaches the server with the held descriptor, and what the
      driver does with the parsed response is the state machine's whole prepare step, up to giving the handle back. */
  lemma PrepareIsTheWire(c: Conn, outcome: PrepareOutcome, returned: seq<Query.TypedValue>, sql: Text,
                         parameters: seq<Arguments.MssqlTypeInfo>, fs: seq<Frame>, tail: Bytes)
    requires HEADER_LEN < c.packetSize <= MAX_PACKET_LEN && c.pending.None? && Rpc.Preparable(sql, parameters)
    requires Answers(fs, c.packetSize, Exec(c.server, c.descriptor, Prepare(outcome)).1, returned)
    ensures var r := Rpc.Requested(Rpc.PROCEDURE_ID_PREPARE, Rpc.PrepareBody(sql, parameters), c.packetSize, c.descriptor);
            && r.Ok?
            && Rpc.Calls(r.value, [], Rpc.PROCEDURE_ID_PREPARE, c.descriptor, 4, Rpc.PrepareCall(sql, parameters))
            && DescriptorIn(r.value, 4).Some?
            && var server := Exec(c.server, DescriptorIn(r.value, 4).value, Prepare(outcome)).0;
               AfterPrepare(Receive(c.(server := server), WireBytes(fs) + tail)) == Step(c, PrepareQuery(outcome, returned))
  {
    hide Rpc.Requested, Rpc.Calls, Rpc.PrepareCall, Rpc.PrepareBody, Rpc.Preparable, DescriptorIn, Answers, WireBytes,
         Receive, Send, Exec, Release, StatementHandles.FirstI32;
    Rpc.PrepareReachesServer(sql, parameters, c.packetSize, c.descriptor, []);
    var r := Rpc.Requested(Rpc.PROCEDURE_ID_PREPARE, Rpc.PrepareBody(sql, parameters), c.packetSize, c.descriptor);
    CallCarriesDescriptor(r.value, Rpc.PROCEDURE_ID_PREPARE, c.descriptor, 4, Rpc.PrepareCall(sql, parameters));
    AnswerCompletesSend(c, Prepare(outcome), fs, tail, returned);
  }
}
