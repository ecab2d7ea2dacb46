/** What a server finds in the three procedure calls the driver makes, place by place. */
module RpcCalls {
  import opened Wire
  import opened Packet
  import T = TypeInfos
  import opened Arguments
  import opened ArgumentList
  import opened Rpc
  import Numeric

  /** The call in a message of type 3, if its payload is one with `n` parameters and nothing behind them. */
  function ServerSees(packet: Bytes, n: nat): Option<Request> {
    var d := DecodeFrom(packet, None);
    if !d.Message? || d.packetType != 3 || d.consumed != |packet| then None
    else
      var q := ReadRequest(n, d.payload);
      if q.Got? && q.rest == [] then Some(q.value) else None
  }

  /** A call of a built-in procedure by number, in the transaction of this descriptor. */
  predicate IsCall(q: Request, procedure: nat, descriptor: U64, n: nat) {
    && q.headers == StreamHeaders(22, 18, 2, descriptor, 1)
    && q.marker == 0xffff && q.procedure == procedure && q.flags == 0 && |q.parameters| == n
  }

  predicate IsText(p: Parameter, text: Text) {
    && p.name == [] && p.status == 0 && p.ty.ty.NVarChar?
    && p.value.Some? && |p.value.value| == 2 * |text|
    && forall k | 0 <= k < |text| :: p.value.value[2 * k] as int + 256 * p.value.value[2 * k + 1] as int == text[k]
  }

  predicate IsNullText(p: Parameter) {
    p.name == [] && p.status == 0 && p.ty.ty.NVarChar? && p.value.None?
  }

  predicate IsInt(p: Parameter, status: Byte, v: int) {
    && p.name == [] && p.status == status && p.ty.ty.IntN? && p.ty.size == 4
    && p.value.Some? && Numeric.IntegerOf(false, 0, p.value.value) == Ok(v)
  }

  lemma CallSeen(packet: Bytes, procedure: U16, descriptor: U64, n: nat, parameters: seq<Parameter>)
    requires Calls(packet, [], procedure, descriptor, n, parameters) && |parameters| == n
    ensures ServerSees(packet, n).Some? && IsCall(ServerSees(packet, n).value, procedure, descriptor, n)
    ensures ServerSees(packet, n).value.parameters == parameters
  {
    hide DecodeFrom, ReadRequest;
    assert packet + [] == packet;
  }

  lemma SeenTextIsText(text: Text)
    requires |text| <= MAX_TEXT
    ensures IsText(SeenText(text), text)
  {
    forall k | 0 <= k < |text| ensures Utf16(text)[2 * k] as int + 256 * Utf16(text)[2 * k + 1] as int == text[k] {
      Utf16At(text, k);
    }
    hide Utf16;
  }

  /** A 32-bit number and the pattern it is sent as. */
  lemma SeenIntIsInt(status: Byte, v: int)
    requires -0x8000_0000 <= v < 0x8000_0000
    ensures IsInt(SeenInt(status, I32Bits(v)), status, v)
  {
    Pow256Values();
    Numeric.IntegerRoundTrip(v, 4, 0);
    hide LittleEndian, Numeric.IntegerOf, Pow256;
    assert Numeric.SignedBytes(v, 4) == LittleEndian(I32Bits(v), 4);
  }

  /** sp_executesql is procedure 10: the statement, then the declarations joined by commas and every argument under its
      own number with its own bytes; without arguments the statement alone. */
  lemma ExecuteSqlByName(sql: Text, added: seq<Added>, packetSize: nat, descriptor: U64)
    requires Writable(added) && (forall a <- added :: ItemReadable(a)) && Fit(sql, added)
    requires 8 < packetSize <= 65535
    ensures var r := Requested(PROCEDURE_ID_EXECUTE_SQL, ExecuteSqlBody(sql, added), packetSize, descriptor);
            var n := if added == [] then 1 else 2 + |added|;
            && r.Ok? && ServerSees(r.value, n).Some?
            && var q := ServerSees(r.value, n).value;
               && IsCall(q, 10, descriptor, n) && IsText(q.parameters[0], sql)
               && (added != [] ==>
                     && IsText(q.parameters[1], Ascii(JoinWith(",", DeclarationParts(added))))
                     && forall k | 0 <= k < |added| :: IsArgument(q.parameters[2 + k], k, added[k]))
  {
    hide Calls, ExecuteSqlBody, ServerSees, Requested, IsText, IsArgument, IsCall, Writable, ItemReadable, SeenList, JoinWith,
         DeclarationParts, SeenText;
    ExecuteSqlReachesServer(sql, added, packetSize, descriptor, []);
    var r := Requested(PROCEDURE_ID_EXECUTE_SQL, ExecuteSqlBody(sql, added), packetSize, descriptor);
    var n := if added == [] then 1 else 2 + |added|;
    CallSeen(r.value, PROCEDURE_ID_EXECUTE_SQL, descriptor, n, ExecuteSqlCall(sql, added));
    SeenTextIsText(sql);
    if added != [] {
      SeenTextIsText(Ascii(Declarations(added)));
      forall k | 0 <= k < |added| ensures IsArgument(SeenList(added)[k], k, added[k]) {
        SeenIsArgument(added, k);
      }
    }
  }

  /** The argument at position `k`: its name is @p and the decimal number k + 1, its value its own bytes or NULL. */
  predicate IsArgument(p: Parameter, k: nat, a: Added) {
    && p.name == Ascii("@p" + Digits(k + 1)) && p.status == 0
    && p.value == if a.isNull then None else Some(a.encoded)
  }

  lemma SeenIsArgument(added: seq<Added>, k: nat)
    requires Writable(added) && (forall a <- added :: ItemReadable(a)) && k < |added|
    ensures IsArgument(SeenList(added)[k], k, added[k])
  {
    hide Digits, ItemReadable, WireType, SeenList, Writable;
    SeenAt(added, k);
  }

  /** sp_prepare is procedure 11: an output int for the handle, the declarations or NULL, the statement, and option 1. */
  lemma PrepareByName(sql: Text, parameters: seq<MssqlTypeInfo>, packetSize: nat, descriptor: U64)
    requires Preparable(sql, parameters) && 8 < packetSize <= 65535
    ensures var r := Requested(PROCEDURE_ID_PREPARE, PrepareBody(sql, parameters), packetSize, descriptor);
            && r.Ok? && ServerSees(r.value, 4).Some?
            && var q := ServerSees(r.value, 4).value;
               && IsCall(q, 11, descriptor, 4)
               && IsInt(q.parameters[0], 1, 0)
               && (if parameters == [] then IsNullText(q.parameters[1])
                   else IsText(q.parameters[1], Ascii(JoinWith(",", PreparedParts(parameters)))))
               && IsText(q.parameters[2], sql)
               && IsInt(q.parameters[3], 0, 1)
  {
    hide Calls, PrepareBody, ServerSees, Requested, IsText, IsInt, IsCall, JoinWith, PreparedParts, SeenText, SeenInt;
    PrepareReachesServer(sql, parameters, packetSize, descriptor, []);
    var r := Requested(PROCEDURE_ID_PREPARE, PrepareBody(sql, parameters), packetSize, descriptor);
    CallSeen(r.value, PROCEDURE_ID_PREPARE, descriptor, 4, PrepareCall(sql, parameters));
    SeenIntIsInt(1, 0);
    SeenIntIsInt(0, 1);
    SeenTextIsText(sql);
    if parameters != [] {
      SeenTextIsText(Ascii(JoinWith(",", PreparedParts(parameters))));
    }
  }

  /** sp_unprepare is procedure 15, and the number its one parameter holds is the handle. */
  lemma UnprepareByName(statementId: int, packetSize: nat, descriptor: U64)
    requires -0x8000_0000 <= statementId < 0x8000_0000 && 8 < packetSize <= 65535
    ensures var r := Requested(PROCEDURE_ID_UNPREPARE, IntParameter(0, I32Bits(statementId)), packetSize, descriptor);
            && r.Ok? && ServerSees(r.value, 1).Some?
            && IsCall(ServerSees(r.value, 1).value, 15, descriptor, 1)
            && IsInt(ServerSees(r.value, 1).value.parameters[0], 0, statementId)
  {
    hide Calls, IntParameter, ServerSees, Requested, IsInt, IsCall, SeenInt, I32Bits;
    UnprepareReachesServer(statementId, packetSize, descriptor, []);
    var r := Requested(PROCEDURE_ID_UNPREPARE, IntParameter(0, I32Bits(statementId)), packetSize, descriptor);
    CallSeen(r.value, PROCEDURE_ID_UNPREPARE, descriptor, 1, [SeenInt(0, I32Bits(statementId))]);
    SeenIntIsInt(0, statementId);
  }

  // ---- what a prepare declares ----

  /** The widest type of a kind: unlimited text, seven digits of a second, 38 digits of a decimal. */
  function Widest(k: Kind): MssqlTypeInfo {
    MssqlTypeInfo(k, if IsShortLength(k) then Some(MAX) else None,
                  Some(T.TypeInfo(T.NumericN, 17, if IsTimed(k) then 7 else 0, 38, None)))
  }

  /** A prepare declares each parameter as an execution would declare the widest value of its kind; a decimal only has
      a blank more. The declaration names the parameter by its position, and one that no execution can declare is
      not prepared either. */
  lemma PreparedAsWidest(parameters: seq<MssqlTypeInfo>, i: nat)
    requires i < |parameters|
    ensures var k, declared := parameters[i].kind, TypeDeclaration(parameters[i]);
            if k.Decimal? then declared == Ok("decimal(38, 0)") && Declaration(Widest(k), 0, false) == Ok("decimal(38,0)")
            else declared == Declaration(Widest(k), 0, false)
    ensures Declarable(parameters) ==>
              ReadDeclared(PreparedParts(parameters)[i]) == Some((i + 1, TypeDeclaration(parameters[i]).value))
  {
    SmallDigits();
    hide Digits, ReadDeclared, Name;
    var ti := parameters[i];
    assert ti in parameters;
    assert "nvarchar" + "(max)" == "nvarchar(max)" && "varchar" + "(max)" == "varchar(max)";
    assert "varbinary" + "(max)" == "varbinary(max)" && "time(" + "7" + ")" == "time(7)";
    assert "datetime2(" + "7" + ")" == "datetime2(7)" && "datetimeoffset(" + "7" + ")" == "datetimeoffset(7)";
    assert "decimal(" + "38" + "," + "0" + ")" == "decimal(38,0)";
    if Declarable(parameters) {
      DeclaredReadsBack(i + 1, TypeDeclaration(ti).value);
    }
  }

  lemma SmallDigits()
    ensures Digits(0) == "0" && Digits(7) == "7" && Digits(38) == "38"
  {
    assert Digits(3) == "3" && Digits(38) == Digits(3) + "8";
  }
}
