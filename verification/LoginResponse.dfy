/** The token stream that answers LOGIN7 (sections 2.2.7 and 2.2.7.14 of [MS-TDS]). */
module LoginResponses {
  import opened Wire
  import opened EnvChanges
  import Query
  import QueryStream

  datatype LoginAck = LoginAck(
    interface: Byte, tdsVersion: U32, programName: Text, major: Byte, minor: Byte, buildHigh: Byte, buildLow: Byte)

  datatype Token = Acknowledged(ack: LoginAck) | Refused(info: ServerErrorInfo) | Changed(change: EnvChange) | Finished

  datatype LoginResponse = Success(ack: LoginAck, envChanges: seq<EnvChange>) | ServerFailure(info: ServerErrorInfo)

  datatype LoginFailure = Malformed(error: ReadError) | MissingLoginAck | MissingDone

  const LOGINACK: Byte := 0xad

  // ---- bodies ----

  function BigEndian32(b: Bytes): U32
    requires |b| == 4
  {
    FromLittleEndianBound(b);
    Pow256Values();
    assert FromLittleEndian([b[3], b[2], b[1], b[0]]) < Pow256(4) by {
      FromLittleEndianBound([b[3], b[2], b[1], b[0]]);
    }
    FromLittleEndian([b[3], b[2], b[1], b[0]])
  }

  function ReadLoginAck(body: Bytes): Read<LoginAck> {
    var (interface, rest) :- ReadByte(body);
    var (version, rest) :- Take(rest, 4);
    var (name, rest) :- ReadBVarChar(rest);
    var (numbers, rest) :- Take(rest, 4);
    Got(LoginAck(interface, BigEndian32(version), name, numbers[0], numbers[1], numbers[2], numbers[3]), rest)
  }

  function AckFrom(body: Bytes): Result<Token, ReadError> {
    var r := ReadLoginAck(body);
    if r.Fail? then Err(r.error)
    else if |r.rest| > 0 then Err(TrailingTokenBytes(|r.rest|))
    else Ok(Acknowledged(r.value))
  }

  function RefusalFrom(body: Bytes): Result<Token, ReadError> {
    var e := ServerErrorFrom(body);
    if e.ServerError? then Ok(Refused(e.info)) else Err(e)
  }

  function ChangeFrom(body: Bytes): Result<Token, ReadError> {
    var c := ParseEnvChange(body);
    if c.Err? then Err(c.error) else Ok(Changed(c.value))
  }

  /** A token with a length in front; INFO is skipped. */
  function FromBody(code: Byte, body: Bytes): Result<seq<Token>, ReadError> {
    if code == Query.INFO then Ok([])
    else
      var t := if code == LOGINACK then AckFrom(body) else if code == Query.ERROR then RefusalFrom(body) else ChangeFrom(body);
      if t.Err? then Err(t.error) else Ok([t.value])
  }

  function OnToken(code: Byte, rest: Bytes): Read<seq<Token>> {
    if code == Query.DONE then
      var (_, rest) :- Query.GetDone(rest);
      Got([Finished], rest)
    else if code == LOGINACK || code == Query.ERROR || code == Query.INFO || code == Query.ENVCHANGE then
      var (body, rest) :- ReadLenPrefixed(rest);
      var tokens := FromBody(code, body);
      if tokens.Err? then Fail(tokens.error) else Got(tokens.value, rest)
    else Fail(UnsupportedToken(code))
  }

  lemma TokenShrinks(code: Byte, rest: Bytes)
    ensures OnToken(code, rest).Got? ==> |OnToken(code, rest).rest| <= |rest|
  {
    hide FromBody;
  }

  /** Every token of the stream, or the first thing that is malformed. */
  function Tokens(input: Bytes): Result<seq<Token>, ReadError>
    decreases |input|
  {
    if |input| == 0 then Ok([])
    else
      var first := OnToken(input[0], input[1..]);
      if first.Fail? then Err(first.error)
      else
        TokenShrinks(input[0], input[1..]);
        Behind(first.value, Tokens(first.rest))
  }

  method ParseTokens(response: Bytes) returns (r: Result<seq<Token>, ReadError>)
    ensures r == Tokens(response)
  {
    hide OnToken;
    var input, tokens := response, [];
    BehindStep<Token, ReadError>([], [], Tokens(input));
    while |input| > 0
      invariant Tokens(response) == Behind(tokens, Tokens(input))
      decreases |input|
    {
      var next := OnToken(input[0], input[1..]);
      if next.Fail? {
        return Err(next.error);
      }
      TokenShrinks(input[0], input[1..]);
      BehindStep(tokens, next.value, Tokens(next.rest));
      tokens := tokens + next.value;
      input := next.rest;
    }
    assert tokens + [] == tokens;
    return Ok(tokens);
  }

  // ---- what the tokens mean ----

  function FirstRefusal(tokens: seq<Token>): Option<ServerErrorInfo> {
    if |tokens| == 0 then None
    else if tokens[0].Refused? then Some(tokens[0].info)
    else FirstRefusal(tokens[1..])
  }

  function LastAck(tokens: seq<Token>): Option<LoginAck> {
    if |tokens| == 0 then None
    else if tokens[|tokens| - 1].Acknowledged? then Some(tokens[|tokens| - 1].ack)
    else LastAck(tokens[..|tokens| - 1])
  }

  function Changes(tokens: seq<Token>): seq<EnvChange> {
    if |tokens| == 0 then []
    else
      var last := tokens[|tokens| - 1];
      Changes(tokens[..|tokens| - 1]) + if last.Changed? then [last.change] else []
  }

  /** An error anywhere decides; then an acknowledgement and a DONE must both be there. */
  function Meaning(tokens: seq<Token>): Result<LoginResponse, LoginFailure> {
    if FirstRefusal(tokens).Some? then Ok(ServerFailure(FirstRefusal(tokens).value))
    else if LastAck(tokens).None? then Err(MissingLoginAck)
    else if Finished !in tokens then Err(MissingDone)
    else Ok(Success(LastAck(tokens).value, Changes(tokens)))
  }

  lemma {:induction false} RefusalAt(tokens: seq<Token>, i: nat)
    requires i < |tokens| && tokens[i].Refused? && forall k | 0 <= k < i :: !tokens[k].Refused?
    ensures FirstRefusal(tokens) == Some(tokens[i].info)
    decreases i
  {
    if i > 0 {
      RefusalAt(tokens[1..], i - 1);
    }
  }

  lemma {:induction false} NoRefusal(tokens: seq<Token>)
    requires forall t <- tokens :: !t.Refused?
    ensures FirstRefusal(tokens).None?
  {
    if |tokens| > 0 {
      assert tokens[0] in tokens;
      NoRefusal(tokens[1..]);
    }
  }

  lemma OneMore(tokens: seq<Token>, i: nat)
    requires i < |tokens|
    ensures LastAck(tokens[..i + 1]) == if tokens[i].Acknowledged? then Some(tokens[i].ack) else LastAck(tokens[..i])
    ensures Changes(tokens[..i + 1]) == Changes(tokens[..i]) + if tokens[i].Changed? then [tokens[i].change] else []
    ensures !tokens[i].Changed? ==> Changes(tokens[..i + 1]) == Changes(tokens[..i])
  {
    assert tokens[..i + 1][..i] == tokens[..i];
  }

  lemma NothingYet(tokens: seq<Token>)
    ensures LastAck(tokens[..0]).None? && Changes(tokens[..0]) == []
  {
  }

  method ParseLoginResponse(response: Bytes) returns (r: Result<LoginResponse, LoginFailure>)
    ensures r == Report(response)
  {
    hide Tokens, FirstRefusal, LastAck, Changes;
    var parsed := ParseTokens(response);
    if parsed.Err? {
      return Err(Malformed(parsed.error));
    }
    var tokens := parsed.value;
    var loginAck: Option<LoginAck> := None;
    var done := false;
    var envChanges: seq<EnvChange> := [];
    var i := 0;
    NothingYet(tokens);
    while i < |tokens|
      invariant i <= |tokens|
      invariant forall k | 0 <= k < i :: !tokens[k].Refused?
      invariant loginAck == LastAck(tokens[..i]) && envChanges == Changes(tokens[..i])
      invariant done <==> exists k | 0 <= k < i :: tokens[k] == Finished
    {
      OneMore(tokens, i);
      match tokens[i] {
        case Acknowledged(ack) => loginAck := Some(ack);
        case Refused(info) =>
          RefusalAt(tokens, i);
          return Ok(ServerFailure(info));
        case Finished => done := true;
        case Changed(change) => envChanges := envChanges + [change];
      }
      i := i + 1;
    }
    assert tokens[..i] == tokens;
    NoRefusal(tokens);
    if loginAck.None? {
      return Err(MissingLoginAck);
    }
    if !done {
      return Err(MissingDone);
    }
    return Ok(Success(loginAck.value, envChanges));
  }

  // ---- what a server sends ----

  datatype Sent =
    | SentAck(ack: LoginAck)
    | SentError(info: ServerErrorInfo)
    | SentInfo(body: Bytes)
    | SentChange(change: EnvChange, was: Bytes)
    | SentDone(done: Query.Done)

  function AckBody(a: LoginAck): Bytes
    requires |a.programName| < 256
  {
    var v := LittleEndian(a.tdsVersion, 4);
    [a.interface] + ([v[3], v[2], v[1], v[0]] + ([|a.programName|] + Utf16(a.programName)
    + [a.major, a.minor, a.buildHigh, a.buildLow]))
  }

  predicate Whole(s: Sent) {
    match s
    case SentAck(a) => |a.programName| < 256
    case SentError(i) => Reportable(i)
    case SentInfo(_) => true
    case SentChange(c, _) => Sendable(c)
    case SentDone(_) => true
  }

  function BodyOf(s: Sent): Bytes
    requires Whole(s) && !s.SentDone?
  {
    match s
    case SentAck(a) => AckBody(a)
    case SentError(i) => ServerErrorBody(i)
    case SentInfo(b) => b
    case SentChange(c, was) => EnvChangeBody(c, was)
  }

  function CodeOf(s: Sent): Byte {
    match s
    case SentAck(_) => 0xad
    case SentError(_) => 0xaa
    case SentInfo(_) => 0xab
    case SentChange(_, _) => 0xe3
    case SentDone(_) => 0xfd
  }

  predicate Legal(s: Sent) { Whole(s) && (!s.SentDone? ==> |BodyOf(s)| < 0x1_0000) }

  function SentBytes(s: Sent): Bytes
    requires Legal(s)
  {
    if s.SentDone? then QueryStream.DoneBytes(s.done) else Le16(|BodyOf(s)|) + BodyOf(s)
  }

  function AllSent(sent: seq<Sent>): Bytes
    requires forall s <- sent :: Legal(s)
  {
    if |sent| == 0 then [] else [CodeOf(sent[0])] + (SentBytes(sent[0]) + AllSent(sent[1..]))
  }

  function Seen(s: Sent): seq<Token> {
    match s
    case SentAck(a) => [Acknowledged(a)]
    case SentError(i) => [Refused(i)]
    case SentInfo(_) => []
    case SentChange(c, _) => [Changed(c)]
    case SentDone(_) => [Finished]
  }

  function AllSeen(sent: seq<Sent>): seq<Token> {
    if |sent| == 0 then [] else Seen(sent[0]) + AllSeen(sent[1..])
  }

  lemma AckReadsBack(a: LoginAck)
    requires |a.programName| < 256
    ensures AckFrom(AckBody(a)) == Ok(Acknowledged(a))
  {
    hide ReadBVarChar, LittleEndian, FromLittleEndian, Utf16;
    var v := LittleEndian(a.tdsVersion, 4);
    var version, numbers := [v[3], v[2], v[1], v[0]], [a.major, a.minor, a.buildHigh, a.buildLow];
    var name := [|a.programName|] + Utf16(a.programName);
    ReadByteExact(a.interface, version + (name + numbers));
    TakeExact(version, name + numbers);
    ReadBVarCharExact(a.programName, numbers);
    TakeExact(numbers, []);
    assert numbers + [] == numbers;
    Pow256Values();
    LittleEndianRoundTrip(a.tdsVersion, 4);
    assert [v[0], v[1], v[2], v[3]] == v;
  }

  lemma SentReadsBack(s: Sent, tail: Bytes)
    requires Legal(s)
    ensures OnToken(CodeOf(s), SentBytes(s) + tail) == Got(Seen(s), tail)
  {
    hide ReadLenPrefixed, Query.GetDone, QueryStream.DoneBytes, AckFrom, ServerErrorFrom, ParseEnvChange, Le16,
         AckBody, ServerErrorBody, EnvChangeBody, Reportable, Sendable;
    match s {
      case SentDone(d) => QueryStream.DoneReadsBack(d, tail);
      case _ =>
        ReadLenPrefixedExact(BodyOf(s), tail);
        match s {
          case SentAck(a) => AckReadsBack(a);
          case SentError(i) => ServerErrorReadsBack(i);
          case SentChange(c, was) => EnvChangeReadsBack(c, was);
          case _ =>
        }
    }
  }

  /** Every legal login response is understood as the tokens in it: the first error if there is one, wherever it
      stands, and otherwise the last acknowledgement with every environment change in order. */
  lemma {:induction false} ResponseUnderstood(sent: seq<Sent>)
    requires forall s <- sent :: Legal(s)
    ensures Tokens(AllSent(sent)) == Ok(AllSeen(sent))
    decreases |sent|
  {
    hide OnToken, SentBytes, Legal, Seen;
    if |sent| > 0 {
      var rest := AllSent(sent[1..]);
      assert sent[0] in sent;
      SentReadsBack(sent[0], rest);
      ResponseUnderstood(sent[1..]);
      assert AllSent(sent)[1..] == SentBytes(sent[0]) + rest;
    }
  }

  // ---- what the driver concludes from what was sent ----

  lemma FrontSeen(s: Sent, later: seq<Token>)
    ensures FirstRefusal(Seen(s) + later) == if s.SentError? then Some(s.info) else FirstRefusal(later)
  {
    if Seen(s) == [] {
      assert [] + later == later;
    } else {
      assert (Seen(s) + later)[1..] == later;
    }
  }

  lemma BackSeen(earlier: seq<Token>, s: Sent)
    ensures LastAck(earlier + Seen(s)) == if s.SentAck? then Some(s.ack) else LastAck(earlier)
    ensures Changes(earlier + Seen(s)) == Changes(earlier) + if s.SentChange? then [s.change] else []
    ensures Finished in earlier + Seen(s) <==> Finished in earlier || s.SentDone?
  {
    assert Changes(earlier) + [] == Changes(earlier);
    if Seen(s) == [] {
      assert earlier + [] == earlier;
    } else {
      assert (earlier + Seen(s))[..|earlier|] == earlier;
    }
  }

  lemma {:induction false} SeenFromBack(sent: seq<Sent>)
    requires |sent| > 0
    ensures AllSeen(sent) == AllSeen(sent[..|sent| - 1]) + Seen(sent[|sent| - 1])
    decreases |sent|
  {
    hide Seen;
    var n := |sent| - 1;
    if n == 0 {
      assert sent[1..] == [] && sent[..0] == [];
      assert Seen(sent[0]) + [] == [] + Seen(sent[0]);
    } else {
      SeenFromBack(sent[1..]);
      assert sent[1..][..n - 1] == sent[..n][1..];
      Assoc(Seen(sent[0]), AllSeen(sent[1..n]), Seen(sent[n]));
    }
  }

  /** The first error sent is the refusal, and without one there is none. */
  lemma {:induction false} ErrorSeen(sent: seq<Sent>, i: nat)
    requires forall k | 0 <= k < i && k < |sent| :: !sent[k].SentError?
    requires i < |sent| ==> sent[i].SentError?
    ensures FirstRefusal(AllSeen(sent)) == if i < |sent| then Some(sent[i].info) else None
    decreases |sent|
  {
    if |sent| > 0 {
      FrontSeen(sent[0], AllSeen(sent[1..]));
      hide Seen, FirstRefusal;
      if i > 0 {
        ErrorSeen(sent[1..], i - 1);
      }
    }
  }

  function ChangesSent(sent: seq<Sent>): seq<EnvChange> {
    if |sent| == 0 then []
    else ChangesSent(sent[..|sent| - 1]) + if sent[|sent| - 1].SentChange? then [sent[|sent| - 1].change] else []
  }

  /** Acknowledgement `k` counts when none follows it. */
  predicate IsLastAck(sent: seq<Sent>, k: nat) {
    k < |sent| && sent[k].SentAck? && forall j | k < j < |sent| :: !sent[j].SentAck?
  }

  lemma NothingSeen()
    ensures AllSeen([]) == [] && LastAck([]).None? && Changes([]) == [] && ChangesSent([]) == []
  {
  }

  lemma {:induction false} AckSeen(sent: seq<Sent>, k: nat)
    ensures IsLastAck(sent, k) ==> LastAck(AllSeen(sent)) == Some(sent[k].ack)
    ensures (forall j | 0 <= j < |sent| :: !sent[j].SentAck?) ==> LastAck(AllSeen(sent)).None?
    decreases |sent|
  {
    hide AllSeen, Seen, LastAck, Changes;
    if |sent| == 0 {
      NothingSeen();
    } else {
      var n := |sent| - 1;
      SeenFromBack(sent);
      BackSeen(AllSeen(sent[..n]), sent[n]);
      if !sent[n].SentAck? {
        AckSeen(sent[..n], k);
      }
    }
  }

  lemma {:induction false} ChangesSeen(sent: seq<Sent>)
    ensures Changes(AllSeen(sent)) == ChangesSent(sent)
    decreases |sent|
  {
    hide AllSeen, Seen, LastAck, Changes;
    if |sent| == 0 {
      NothingSeen();
    } else {
      var n := |sent| - 1;
      SeenFromBack(sent);
      BackSeen(AllSeen(sent[..n]), sent[n]);
      ChangesSeen(sent[..n]);
    }
  }

  lemma {:induction false} DoneSeen(sent: seq<Sent>)
    ensures Finished in AllSeen(sent) <==> exists j | 0 <= j < |sent| :: sent[j].SentDone?
    decreases |sent|
  {
    hide AllSeen, Seen, LastAck, Changes;
    if |sent| == 0 {
      NothingSeen();
    } else {
      var n := |sent| - 1;
      SeenFromBack(sent);
      BackSeen(AllSeen(sent[..n]), sent[n]);
      DoneSeen(sent[..n]);
      assert forall j | 0 <= j < n :: sent[..n][j] == sent[j];
    }
  }

  /** What the driver reports for the bytes of a login response. */
  function Report(response: Bytes): Result<LoginResponse, LoginFailure> {
    match Tokens(response)
    case Err(e) => Err(Malformed(e))
    case Ok(tokens) => Meaning(tokens)
  }

  /** A login fails with the first ERROR sent, wherever it stands. */
  lemma FirstErrorDecides(sent: seq<Sent>, i: nat)
    requires forall s <- sent :: Legal(s)
    requires i < |sent| && sent[i].SentError? && forall k | 0 <= k < i :: !sent[k].SentError?
    ensures Report(AllSent(sent)) == Ok(ServerFailure(sent[i].info))
  {
    hide Tokens, FirstRefusal, AllSent, AllSeen, Legal;
    ResponseUnderstood(sent);
    ErrorSeen(sent, i);
  }

  /** Without an ERROR it succeeds exactly when an acknowledgement and a DONE were sent, with the last acknowledgement
      and every environment change in the order sent, and what is missing is named otherwise. */
  lemma LoginSucceedsIff(sent: seq<Sent>, k: nat)
    requires forall s <- sent :: Legal(s) && !s.SentError?
    ensures (forall j | 0 <= j < |sent| :: !sent[j].SentAck?) ==> Report(AllSent(sent)) == Err(MissingLoginAck)
    ensures IsLastAck(sent, k) ==>
              Report(AllSent(sent)) ==
              if exists j | 0 <= j < |sent| :: sent[j].SentDone? then Ok(Success(sent[k].ack, ChangesSent(sent)))
                                       else Err(MissingDone)
  {
    hide Tokens, FirstRefusal, LastAck, Changes, AllSent, AllSeen, Legal, ChangesSent;
    ResponseUnderstood(sent);
    forall i | 0 <= i < |sent| ensures !sent[i].SentError? { assert sent[i] in sent; }
    ErrorSeen(sent, |sent|);
    AckSeen(sent, k);
    ChangesSeen(sent);
    DoneSeen(sent);
  }
}
