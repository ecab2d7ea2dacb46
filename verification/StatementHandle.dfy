/** The statement handle a prepare returns. */
module StatementHandles {
  import opened Wire
  import opened Numeric
  import Query
  import T = TypeInfos

  predicate IsDecimal(t: T.TypeInfo) {
    t.ty.Decimal? || t.ty.Numeric? || t.ty.DecimalN? || t.ty.NumericN?
  }

  predicate InI32(v: int) { -0x8000_0000 <= v < 0x8000_0000 }

  function I32Of(v: Query.TypedValue): Result<int, NumericError> {
    if v.value.None? then Err(NullValue)
    else
      var n := IntegerOf(IsDecimal(v.info), v.info.scale, v.value.value);
      if n.Err? || InI32(n.value) then n else Err(OutOfRange)
  }

  /** The first return value as a 32-bit number: none if there are no return values, an error if it is no such number. */
  function FirstI32(returned: seq<Query.TypedValue>): (r: Result<Option<int>, NumericError>)
    ensures r.Ok? && r.value.Some? ==> InI32(r.value.value)
  {
    if |returned| == 0 then Ok(None)
    else
      var n := I32Of(returned[0]);
      if n.Err? then Err(n.error) else Ok(Some(n.value))
  }

  method FirstI32ReturnValue(returned: seq<Query.TypedValue>) returns (r: Result<Option<int>, NumericError>)
    ensures r == FirstI32(returned)
  {
    hide IntegerOf;
    if |returned| == 0 {
      return Ok(None);
    }
    var first := returned[0];
    if first.value.None? {
      return Err(NullValue);
    }
    var n := DecodeInteger(IsDecimal(first.info), first.info.scale, first.value.value);
    if n.Err? {
      return Err(n.error);
    }
    if !InI32(n.value) {
      return Err(OutOfRange);
    }
    return Ok(Some(n.value));
  }

  /** Every handle a server returns as an int arrives, whatever other values follow it; a NULL one is an error. */
  lemma HandleArrives(id: int, others: seq<Query.TypedValue>)
    requires InI32(id)
    ensures InWidth(id, 4)
    ensures FirstI32([Query.TypedValue(T.Plain(T.IntN, 4), Some(SignedBytes(id, 4)))] + others) == Ok(Some(id))
    ensures FirstI32([Query.TypedValue(T.Plain(T.IntN, 4), None)] + others) == Err(NullValue)
  {
    Pow256Values();
    IntegerRoundTrip(id, 4, 0);
    hide IntegerOf, SignedBytes, Pow256;
  }

  /** So does a whole handle in any of the decimal types, at every scale at which its digits fit. */
  lemma DecimalHandleArrives(ty: T.DataType, id: int, precision: Byte, scale: Byte)
    requires ty in {T.Decimal, T.Numeric, T.DecimalN, T.NumericN} && InI32(id) && scale <= 38
    requires Abs(id) * Pow10(scale) < U128_LIMIT
    ensures FirstI32([Query.TypedValue(T.TypeInfo(ty, 17, scale, precision, None),
                                       Some([if id < 0 then 0 else 1] + LittleEndian(Abs(id) * Pow10(scale), 16)))])
            == Ok(Some(id))
  {
    WholeNumericReadsBack(id, scale);
    hide IntegerOf, LittleEndian, Pow10;
  }
}
