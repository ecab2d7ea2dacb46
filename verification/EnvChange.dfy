/** ENVCHANGE and ERROR token bodies (sections 2.2.7.9 and 2.2.7.10 of [MS-TDS]). */
module EnvChanges {
  import opened Wire

  datatype EnvChange =
    | Database(name: Text)
    | Language(name: Text)
    | CharacterSet(name: Text)
    | PacketSize(size: U32)
    | SortingLocale(id: Text)
    | SortingFlags(flags: Text)
    | SqlCollation(collation: Bytes)
    | BeginTransaction(descriptor: U64)
    | CommitTransaction(descriptor: U64)
    | RollbackTransaction(descriptor: U64)
    | Ignored(changeType: Byte, data: Bytes)
  {
    /** Changes that say a transaction started or ended. */
    predicate IsTransactional() {
      BeginTransaction? || CommitTransaction? || RollbackTransaction?
    }
  }

  // ---- decimal text ----

  predicate IsDigit(u: U16) { '0' as int <= u <= '9' as int }

  /** The number a run of digits denotes. */
  function DigitsValue(t: Text): nat
    requires forall u <- t :: IsDigit(u)
  {
    if |t| == 0 then 0
    else
      var last := t[|t| - 1];
      assert last in t && IsDigit(last);
      10 * DigitsValue(t[..|t| - 1]) + (last - '0' as int)
  }

  /** A 32-bit unsigned number in decimal, with an optional plus sign. */
  function ParseU32(t: Text): Option<U32> {
    var digits := if |t| > 0 && t[0] == '+' as int then t[1..] else t;
    if |digits| > 0 && (forall u <- digits :: IsDigit(u)) && DigitsValue(digits) <= U32_MAX
    then Some(DigitsValue(digits)) else None
  }

  function DecimalText(n: nat): (t: Text)
    ensures |t| > 0 && forall u <- t :: IsDigit(u)
  {
    var last: Text := ['0' as int + n % 10];
    if n < 10 then last else DecimalText(n / 10) + last
  }

  lemma {:induction false} DecimalTextValue(n: nat)
    ensures DigitsValue(DecimalText(n)) == n
    decreases n
  {
    var t := DecimalText(n);
    if n < 10 {
      assert t[..0] == [];
    } else {
      DecimalTextValue(n / 10);
      assert t[..|t| - 1] == DecimalText(n / 10);
    }
  }

  lemma DecimalParses(n: U32)
    ensures ParseU32(DecimalText(n)) == Some(n)
  {
    DecimalTextValue(n);
    var t := DecimalText(n);
    assert t[0] in t;
  }

  // ---- ENVCHANGE ----

  function ToResult<T>(r: Read<T>): Result<T, ReadError> {
    match r
    case Got(v, _) => Ok(v)
    case Fail(e) => Err(e)
  }

  function Named(r: Read<Text>, make: Text -> EnvChange): Result<EnvChange, ReadError> {
    if r.Fail? then Err(r.error) else Ok(make(r.value))
  }

  /** An 8-byte number at the front of a length-prefixed field. */
  function ReadDescriptorField(input: Bytes): Result<U64, ReadError> {
    var field := ReadBVarByte(input);
    if field.Fail? then Err(field.error) else ToResult(ReadU64(field.value))
  }

  /** The number behind a length-prefixed field. */
  function ReadEndDescriptor(input: Bytes): Result<U64, ReadError> {
    var field := ReadBVarByte(input);
    if field.Fail? then Err(field.error) else ToResult(ReadU64(field.rest))
  }

  function ParsePacketSize(rest: Bytes): Result<EnvChange, ReadError> {
    var text := ReadBVarChar(rest);
    if text.Fail? then Err(text.error)
    else
      var n := ParseU32(text.value);
      if n.None? then Err(BadPacketSize) else Ok(PacketSize(n.value))
  }

  function ParseCollation(rest: Bytes): Result<EnvChange, ReadError> {
    var field := ReadBVarByte(rest);
    if field.Fail? then Err(field.error) else Ok(SqlCollation(field.value))
  }

  function ParseDescriptor(changeType: Byte, rest: Bytes): Result<EnvChange, ReadError>
    requires 8 <= changeType <= 10
  {
    var d := if changeType == 8 then ReadDescriptorField(rest) else ReadEndDescriptor(rest);
    if d.Err? then Err(d.error)
    else if changeType == 8 then Ok(BeginTransaction(d.value))
    else if changeType == 9 then Ok(CommitTransaction(d.value))
    else Ok(RollbackTransaction(d.value))
  }

  function ParseEnvChange(body: Bytes): Result<EnvChange, ReadError> {
    if |body| == 0 then Err(EndOfInput)
    else
      var rest := body[1..];
      match body[0]
      case 1 => Named(ReadBVarChar(rest), t => Database(t))
      case 2 => Named(ReadBVarChar(rest), t => Language(t))
      case 3 => Named(ReadBVarChar(rest), t => CharacterSet(t))
      case 4 => ParsePacketSize(rest)
      case 5 => Named(ReadBVarChar(rest), t => SortingLocale(t))
      case 6 => Named(ReadBVarChar(rest), t => SortingFlags(t))
      case 7 => ParseCollation(rest)
      case 8 => ParseDescriptor(8, rest)
      case 9 => ParseDescriptor(9, rest)
      case 10 => ParseDescriptor(10, rest)
      case t => Ok(Ignored(t, rest))
  }

  // ---- what a server sends ----

  function TypeOf(e: EnvChange): Byte {
    match e
    case Database(_) => 1
    case Language(_) => 2
    case CharacterSet(_) => 3
    case PacketSize(_) => 4
    case SortingLocale(_) => 5
    case SortingFlags(_) => 6
    case SqlCollation(_) => 7
    case BeginTransaction(_) => 8
    case CommitTransaction(_) => 9
    case RollbackTransaction(_) => 10
    case Ignored(t, _) => t
  }

  function TextOf(e: EnvChange): Text
    requires e.Database? || e.Language? || e.CharacterSet? || e.SortingLocale? || e.SortingFlags? || e.PacketSize?
  {
    match e
    case Database(n) => n
    case Language(n) => n
    case CharacterSet(n) => n
    case SortingLocale(n) => n
    case SortingFlags(n) => n
    case PacketSize(n) => DecimalText(n)
  }

  predicate Sendable(e: EnvChange) {
    match e
    case PacketSize(n) => |DecimalText(n)| < 256
    case SqlCollation(c) => |c| < 256
    case Ignored(t, _) => !(1 <= t <= 10)
    case BeginTransaction(_) => true
    case CommitTransaction(_) => true
    case RollbackTransaction(_) => true
    case other => |TextOf(other)| < 256
  }

  /** The new value, then the old one, whose bytes the driver does not look at. */
  function EnvChangeBody(e: EnvChange, was: Bytes): Bytes
    requires Sendable(e)
  {
    [TypeOf(e)] +
    match e
    case SqlCollation(c) => [|c|] + c + was
    case BeginTransaction(d) => [8] + LittleEndian(d, 8) + was
    case CommitTransaction(d) => [0] + [] + (LittleEndian(d, 8) + was)
    case RollbackTransaction(d) => [0] + [] + (LittleEndian(d, 8) + was)
    case Ignored(_, data) => data
    case named => [|TextOf(named)|] + Utf16(TextOf(named)) + was
  }

  /** Every environment change comes through whole, whatever old value follows it. */
  lemma EnvChangeReadsBack(e: EnvChange, was: Bytes)
    requires Sendable(e)
    ensures ParseEnvChange(EnvChangeBody(e, was)) == Ok(e)
  {
    hide ReadBVarChar, ReadBVarByte, ReadU64, LittleEndian, Utf16, ParseU32, DecimalText;
    var rest := EnvChangeBody(e, was)[1..];
    assert EnvChangeBody(e, was) == [TypeOf(e)] + rest;
    match e {
      case SqlCollation(c) => ReadBVarByteExact(c, was);
      case BeginTransaction(d) =>
        ReadBVarByteExact(LittleEndian(d, 8), was);
        ReadU64Exact(d, []);
        assert LittleEndian(d, 8) + [] == LittleEndian(d, 8);
      case CommitTransaction(d) =>
        ReadBVarByteExact([], LittleEndian(d, 8) + was);
        ReadU64Exact(d, was);
      case RollbackTransaction(d) =>
        ReadBVarByteExact([], LittleEndian(d, 8) + was);
        ReadU64Exact(d, was);
      case Ignored(_, _) =>
      case PacketSize(n) =>
        ReadBVarCharExact(DecimalText(n), was);
        DecimalParses(n);
      case named => ReadBVarCharExact(TextOf(named), was);
    }
  }

  // ---- ERROR ----

  /** How the driver reports an ERROR token with this body. */
  function ServerErrorFrom(body: Bytes): ReadError {
    var r := ReadServerError(body);
    if r.Fail? then r.error
    else if |r.rest| > 0 then TrailingTokenBytes(|r.rest|)
    else ServerError(r.value)
  }

  function ReadServerError(body: Bytes): Read<ServerErrorInfo> {
    var (number, rest) :- ReadU32(body);
    var (state, rest) :- ReadByte(rest);
    var (severity, rest) :- ReadByte(rest);
    var (message, rest) :- ReadUsVarChar(rest);
    var (serverName, rest) :- ReadBVarChar(rest);
    var (procedureName, rest) :- ReadBVarChar(rest);
    var (lineNumber, rest) :- ReadU32(rest);
    Got(ServerErrorInfo(number, state, severity, message, serverName, procedureName, lineNumber), rest)
  }

  predicate Reportable(i: ServerErrorInfo) {
    |i.message| < 0x1_0000 && |i.serverName| < 256 && |i.procedureName| < 256
  }

  function ServerErrorBody(i: ServerErrorInfo): Bytes
    requires Reportable(i)
  {
    LittleEndian(i.number, 4) + ([i.state] + ([i.severity] + (Le16(|i.message|) + Utf16(i.message)
    + ([|i.serverName|] + Utf16(i.serverName) + ([|i.procedureName|] + Utf16(i.procedureName)
    + LittleEndian(i.lineNumber, 4))))))
  }

  lemma ServerErrorReadsBack(i: ServerErrorInfo)
    requires Reportable(i)
    ensures ServerErrorFrom(ServerErrorBody(i)) == ServerError(i)
  {
    hide ReadBVarChar, ReadUsVarChar, ReadU32, LittleEndian, Utf16, Le16;
    var line := LittleEndian(i.lineNumber, 4);
    var procedure := [|i.procedureName|] + Utf16(i.procedureName) + line;
    var server := [|i.serverName|] + Utf16(i.serverName) + procedure;
    var message := Le16(|i.message|) + Utf16(i.message) + server;
    ReadU32Exact(i.number, [i.state] + ([i.severity] + message));
    ReadByteExact(i.state, [i.severity] + message);
    ReadByteExact(i.severity, message);
    ReadUsVarCharExact(i.message, server);
    ReadBVarCharExact(i.serverName, procedure);
    ReadBVarCharExact(i.procedureName, line);
    ReadU32Exact(i.lineNumber, []);
    assert line + [] == line;
  }
}
