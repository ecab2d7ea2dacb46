/** Parameter encoding: TYPE_INFO, value and T-SQL declaration of each argument of a request. */
module Arguments {
  import opened Wire
  import T = TypeInfos

  datatype Kind =
    | Null | Bit | TinyInt | SmallInt | Int | BigInt | Real | Float | NVarChar | VarChar | VarBinary
    | Decimal | Money | Date | Time | DateTime | DateTime2 | DateTimeOffset | UniqueIdentifier | Other

  /** The driver's own type description; `protocol` carries scale and precision where there are any. */
  datatype MssqlTypeInfo = MssqlTypeInfo(kind: Kind, size: Option<U16>, protocol: Option<T.TypeInfo>) {
    function Scale(): Byte { if protocol.Some? then protocol.value.scale else 0 }
    function Precision(): Byte { if protocol.Some? then protocol.value.precision else 0 }
  }

  datatype ArgumentError = UnsupportedType | LengthTooLarge

  const MAX: U16 := 0xffff

  const DEFAULT_COLLATION_BYTES: Bytes := [0x81, 0x04, 0xd0, 0x00, 0x34]
  const DEFAULT_COLLATION: T.Collation := T.Collation(0x481, 0x0d, 0x34, 0)

  predicate IsTimed(k: Kind) { k.Time? || k.DateTime2? || k.DateTimeOffset? }

  predicate IsByteLength(k: Kind) {
    k.Bit? || k.TinyInt? || k.SmallInt? || k.Int? || k.BigInt? || k.Real? || k.Float? || k.Decimal? || k.Date?
    || IsTimed(k) || k.UniqueIdentifier?
  }

  predicate IsShortLength(k: Kind) { k.NVarChar? || k.VarChar? || k.VarBinary? }

  function AtLeast(low: nat, n: nat): nat { if n < low then low else n }

  /** Declared size of a short-length parameter, in bytes; text needs room for one unit, the others for one byte. */
  function DeclaredSize(ti: MssqlTypeInfo, len: nat, isNull: bool): Result<U16, ArgumentError> {
    if ti.size.Some? then Ok(ti.size.value)
    else
      var low := if ti.kind.NVarChar? then 2 else 1;
      var n := if isNull then low else AtLeast(low, len);
      if n > 0xffff then Err(LengthTooLarge) else Ok(n)
  }

  /** A size the caller fixed is kept. Otherwise the size is the least one, above zero, with room for the value, and it
      is missing exactly when no 16-bit size has room. */
  lemma DeclaredSizeHoldsValue(ti: MssqlTypeInfo, len: nat, isNull: bool)
    ensures ti.size.Some? ==> DeclaredSize(ti, len, isNull) == Ok(ti.size.value)
    ensures ti.size.None? ==> (DeclaredSize(ti, len, isNull).Err? <==> !isNull && len > 0xffff)
    ensures ti.size.None? && DeclaredSize(ti, len, isNull).Ok? ==>
              var size := DeclaredSize(ti, len, isNull).value;
              && size >= (if ti.kind.NVarChar? then 2 else 1) && (!isNull ==> size >= len)
              && (size == (if ti.kind.NVarChar? then 2 else 1) || (!isNull && size == len))
  {
  }

  function AtLeastOne(b: Byte): Byte { if b == 0 then 1 else b }

  /** Kinds whose TYPE_INFO is a nullable type code and a width. */
  function WidthOf(k: Kind): Option<(T.DataType, Byte)> {
    match k
    case Bit => Some((T.BitN, 1))
    case TinyInt => Some((T.IntN, 1))
    case SmallInt => Some((T.IntN, 2))
    case Int => Some((T.IntN, 4))
    case BigInt => Some((T.IntN, 8))
    case Real => Some((T.FloatN, 4))
    case Float => Some((T.FloatN, 8))
    case UniqueIdentifier => Some((T.Guid, 16))
    case _ => None
  }

  function DecimalSize(ti: MssqlTypeInfo): U16 { if ti.size.Some? then ti.size.value else 17 }

  function TypeInfoBytes(ti: MssqlTypeInfo, len: nat, isNull: bool): Result<Bytes, ArgumentError> {
    if WidthOf(ti.kind).Some? then Ok([T.Code(WidthOf(ti.kind).value.0), WidthOf(ti.kind).value.1])
    else if IsShortLength(ti.kind) then
      var size := DeclaredSize(ti, len, isNull);
      if size.Err? then Err(size.error)
      else if ti.kind.NVarChar? then Ok([T.Code(T.NVarChar)] + Le16(size.value) + DEFAULT_COLLATION_BYTES)
      else if ti.kind.VarChar? then Ok([T.Code(T.BigVarChar)] + Le16(size.value) + DEFAULT_COLLATION_BYTES)
      else Ok([T.Code(T.BigVarBinary)] + Le16(size.value))
    else
      match ti.kind
      case Decimal =>
        if DecimalSize(ti) > 0xff then Err(LengthTooLarge)
        else Ok([T.Code(T.NumericN), DecimalSize(ti), AtLeastOne(ti.Precision()), ti.Scale()])
      case Date => Ok([T.Code(T.DateN)])
      case Time => Ok([T.Code(T.TimeN), ti.Scale()])
      case DateTime2 => Ok([T.Code(T.DateTime2N), ti.Scale()])
      case DateTimeOffset => Ok([T.Code(T.DateTimeOffsetN), ti.Scale()])
      case _ => Err(UnsupportedType)
  }

  /** Length and data; the data of a parameter whose size says PLP is left to the blob writer. */
  function ValueBytes(ti: MssqlTypeInfo, encoded: Bytes, isNull: bool): Result<Bytes, ArgumentError> {
    var data := if !isNull && ti.size != Some(MAX) then encoded else [];
    if IsByteLength(ti.kind) then
      if isNull then Ok([0] + data)
      else if |encoded| > 0xff then Err(LengthTooLarge)
      else Ok([|encoded|] + data)
    else if IsShortLength(ti.kind) then
      if ti.size == Some(MAX) then Ok(T.PlpBytes(if isNull then None else Some(encoded)) + data)
      else if isNull then Ok(Le16(MAX) + data)
      else if |encoded| > 0xffff then Err(LengthTooLarge)
      else Ok(Le16(|encoded|) + data)
    else Err(UnsupportedType)
  }

  function Ascii(s: string): (t: Text)
    ensures |t| == |s|
  {
    seq(|s|, i requires 0 <= i < |s| => s[i] as int % 0x1_0000)
  }

  function BVarCharBytes(name: string): Result<Bytes, ArgumentError> {
    if |name| > 0xff then Err(LengthTooLarge) else Ok([|name|] + Utf16(Ascii(name)))
  }

  function ParameterBytes(name: string, status: Byte, ti: MssqlTypeInfo, encoded: Bytes, isNull: bool)
    : Result<Bytes, ArgumentError>
  {
    var head := BVarCharBytes(name);
    if head.Err? then head
    else
      var info := TypeInfoBytes(ti, |encoded|, isNull);
      if info.Err? then info
      else
        var value := ValueBytes(ti, encoded, isNull);
        if value.Err? then value else Ok(head.value + [status] + info.value + value.value)
  }

  // ---- the writers, appending to a buffer ----

  function Appended(out: Bytes, bytes: Result<Bytes, ArgumentError>): Result<Bytes, ArgumentError> {
    if bytes.Err? then bytes else Ok(out + bytes.value)
  }

  method WriteUtf16(out: Bytes, value: Text) returns (r: Bytes)
    ensures r == out + Utf16(value)
  {
    r := out;
    var i := 0;
    assert value[0..] == value;
    while i < |value|
      invariant i <= |value| && out + Utf16(value) == r + Utf16(value[i..])
    {
      assert value[i..][1..] == value[i + 1..];
      Assoc(r, [value[i] % 256, value[i] / 256], Utf16(value[i + 1..]));
      r := r + Le16(value[i]);
      i := i + 1;
    }
    assert r + [] == r;
  }

  method WriteBVarChar(out: Bytes, name: string) returns (r: Result<Bytes, ArgumentError>)
    ensures r == Appended(out, BVarCharBytes(name))
  {
    hide Utf16;
    if |name| > 0xff {
      return Err(LengthTooLarge);
    }
    var written := WriteUtf16(out + [|name|], Ascii(name));
    Assoc(out, [|name|], Utf16(Ascii(name)));
    return Ok(written);
  }

  method WriteShortTypeInfo(out: Bytes, ty: T.DataType, ti: MssqlTypeInfo, len: nat, isNull: bool)
    returns (r: Result<Bytes, ArgumentError>)
    ensures r == match DeclaredSize(ti, len, isNull)
                 case Err(e) => Err(e)
                 case Ok(size) =>
                   if ty.BigVarBinary? then Ok(out + ([T.Code(ty)] + Le16(size)))
                   else Ok(out + ([T.Code(ty)] + Le16(size) + DEFAULT_COLLATION_BYTES))
  {
    hide DeclaredSize, T.Code, Le16;
    var size := DeclaredSize(ti, len, isNull);
    if size.Err? {
      return Err(size.error);
    }
    var written := out + [T.Code(ty)];
    written := written + Le16(size.value);
    Assoc(out, [T.Code(ty)], Le16(size.value));
    Assoc(out, [T.Code(ty)] + Le16(size.value), DEFAULT_COLLATION_BYTES);
    if !ty.BigVarBinary? {
      written := written + DEFAULT_COLLATION_BYTES;
    }
    return Ok(written);
  }

  method WriteTypeInfo(out: Bytes, ti: MssqlTypeInfo, len: nat, isNull: bool) returns (r: Result<Bytes, ArgumentError>)
    ensures r == Appended(out, TypeInfoBytes(ti, len, isNull))
  {
    hide DeclaredSize, T.Code, Le16;
    match ti.kind {
      case Bit => r := Ok(out + [T.Code(T.BitN), 1]);
      case TinyInt => r := Ok(out + [T.Code(T.IntN), 1]);
      case SmallInt => r := Ok(out + [T.Code(T.IntN), 2]);
      case Int => r := Ok(out + [T.Code(T.IntN), 4]);
      case BigInt => r := Ok(out + [T.Code(T.IntN), 8]);
      case Real => r := Ok(out + [T.Code(T.FloatN), 4]);
      case Float => r := Ok(out + [T.Code(T.FloatN), 8]);
      case NVarChar => r := WriteShortTypeInfo(out, T.NVarChar, ti, len, isNull);
      case VarChar => r := WriteShortTypeInfo(out, T.BigVarChar, ti, len, isNull);
      case VarBinary => r := WriteShortTypeInfo(out, T.BigVarBinary, ti, len, isNull);
      case Decimal =>
        if DecimalSize(ti) > 0xff {
          return Err(LengthTooLarge);
        }
        r := Ok(out + [T.Code(T.NumericN), DecimalSize(ti), AtLeastOne(ti.Precision()), ti.Scale()]);
      case Date => r := Ok(out + [T.Code(T.DateN)]);
      case Time => r := Ok(out + [T.Code(T.TimeN), ti.Scale()]);
      case DateTime2 => r := Ok(out + [T.Code(T.DateTime2N), ti.Scale()]);
      case DateTimeOffset => r := Ok(out + [T.Code(T.DateTimeOffsetN), ti.Scale()]);
      case UniqueIdentifier => r := Ok(out + [T.Code(T.Guid), 16]);
      case _ => return Err(UnsupportedType);
    }
  }

  method WriteParamLenData(out: Bytes, ti: MssqlTypeInfo, encoded: Bytes, isNull: bool)
    returns (r: Result<Bytes, ArgumentError>)
    ensures r == Appended(out, ValueBytes(ti, encoded, isNull))
  {
    hide T.PlpBytes, Le16;
    var written := out;
    ghost var length: Bytes := [];
    if IsByteLength(ti.kind) {
      if !isNull && |encoded| > 0xff {
        return Err(LengthTooLarge);
      }
      length := [if isNull then 0 else |encoded|];
      written := written + [if isNull then 0 else |encoded|];
    } else if IsShortLength(ti.kind) {
      if ti.size == Some(MAX) {
        length := T.PlpBytes(if isNull then None else Some(encoded));
        written := T.WritePlpValue(written, encoded, isNull);
      } else {
        if !isNull && |encoded| > 0xffff {
          return Err(LengthTooLarge);
        }
        length := Le16(if isNull then MAX else |encoded|);
        written := written + Le16(if isNull then MAX else |encoded|);
      }
    } else {
      return Err(UnsupportedType);
    }
    if !isNull && ti.size != Some(MAX) {
      Assoc(out, length, encoded);
      written := written + encoded;
    }
    assert length + [] == length;
    return Ok(written);
  }

  method WriteParameterWithStatus(out: Bytes, name: string, status: Byte, ti: MssqlTypeInfo, encoded: Bytes, isNull: bool)
    returns (r: Result<Bytes, ArgumentError>)
    ensures r == Appended(out, ParameterBytes(name, status, ti, encoded, isNull))
  {
    hide BVarCharBytes, TypeInfoBytes, ValueBytes;
    var named := WriteBVarChar(out, name);
    if named.Err? {
      return named;
    }
    var typed := WriteTypeInfo(named.value + [status], ti, |encoded|, isNull);
    if typed.Err? {
      return typed;
    }
    r := WriteParamLenData(typed.value, ti, encoded, isNull);
    if r.Ok? {
      FourInARow(out, BVarCharBytes(name).value, [status], TypeInfoBytes(ti, |encoded|, isNull).value,
                 ValueBytes(ti, encoded, isNull).value);
    }
  }

  lemma FourInARow(out: Bytes, a: Bytes, b: Bytes, c: Bytes, d: Bytes)
    ensures out + a + b + c + d == out + (a + b + c + d)
  {
  }

  // ---- what the driver's own readers see ----

  /** The TYPE_INFO a successfully written parameter announces. */
  function WireType(ti: MssqlTypeInfo, len: nat, isNull: bool): (t: T.TypeInfo)
    requires TypeInfoBytes(ti, len, isNull).Ok?
    requires IsTimed(ti.kind) ==> ti.Scale() <= 7
  {
    if WidthOf(ti.kind).Some? then T.Plain(WidthOf(ti.kind).value.0, WidthOf(ti.kind).value.1)
    else if IsShortLength(ti.kind) then
      var size := DeclaredSize(ti, len, isNull).value;
      if ti.kind.NVarChar? then T.TypeInfo(T.NVarChar, size, 0, 0, Some(DEFAULT_COLLATION))
      else if ti.kind.VarChar? then T.TypeInfo(T.BigVarChar, size, 0, 0, Some(DEFAULT_COLLATION))
      else T.Plain(T.BigVarBinary, size)
    else
      match ti.kind
      case Decimal => T.TypeInfo(T.NumericN, DecimalSize(ti), ti.Scale(), AtLeastOne(ti.Precision()), None)
      case Date => T.Plain(T.DateN, 3)
      case Time => T.TypeInfo(T.TimeN, T.TimeSize(ti.Scale()), ti.Scale(), 0, None)
      case DateTime2 => T.TypeInfo(T.DateTime2N, T.TimeSize(ti.Scale()) + 3, ti.Scale(), 0, None)
      case DateTimeOffset => T.TypeInfo(T.DateTimeOffsetN, T.TimeSize(ti.Scale()) + 5, ti.Scale(), 0, None)
  }

  lemma WireTypeLaidOut(ti: MssqlTypeInfo, len: nat, isNull: bool)
    requires TypeInfoBytes(ti, len, isNull).Ok?
    requires IsTimed(ti.kind) ==> ti.Scale() <= 7
    ensures var t := WireType(ti, len, isNull);
            if IsByteLength(ti.kind) then T.LayoutOf(t.ty).ByteLen?
            else IsShortLength(ti.kind) && T.LayoutOf(t.ty).ShortLen? && DeclaredSize(ti, len, isNull) == Ok(t.size)
  {
    hide T.Code, DeclaredSize, Le16, T.TimeSize;
  }

  lemma WireTypeCanonical(ti: MssqlTypeInfo, len: nat, isNull: bool)
    requires TypeInfoBytes(ti, len, isNull).Ok?
    requires IsTimed(ti.kind) ==> ti.Scale() <= 7
    ensures T.Canonical(WireType(ti, len, isNull))
  {
    hide T.Code, DeclaredSize, Le16;
  }

  /** TYPE_INFO, then the value it announces. */
  function ReadTyped(input: Bytes): Read<(T.TypeInfo, Option<Bytes>)> {
    var (t, rest) :- T.GetTypeInfo(input);
    var (v, rest) :- T.GetValue(t, rest);
    Got((t, v), rest)
  }

  /** What a caller has to respect for a parameter to survive: time scales up to 7, lengths off the NULL
      sentinels, and no size that announces a blob where a plain value is written. */
  predicate Readable(ti: MssqlTypeInfo, encoded: Bytes, isNull: bool) {
    && (IsTimed(ti.kind) ==> ti.Scale() <= 7)
    && (IsByteLength(ti.kind) && !isNull ==> 1 <= |encoded| <= 254 && ti.size != Some(MAX))
    && (IsShortLength(ti.kind) && !isNull && ti.size != Some(MAX) ==> |encoded| <= 65534)
  }

  lemma DefaultCollationBytes()
    ensures T.CollationBytes(DEFAULT_COLLATION) == DEFAULT_COLLATION_BYTES
  {
    LittleEndianStep(0x00d0_0481, 4);
    LittleEndianStep(0xd004, 3);
    LittleEndianStep(0xd0, 2);
    LittleEndianStep(0, 1);
  }

  /** The parameter writer and the TYPE_INFO grammar agree byte for byte. */
  lemma TypeInfoBytesAgree(ti: MssqlTypeInfo, len: nat, isNull: bool)
    requires TypeInfoBytes(ti, len, isNull).Ok?
    requires IsTimed(ti.kind) ==> ti.Scale() <= 7
    ensures TypeInfoBytes(ti, len, isNull).value == T.TypeInfoBytes(WireType(ti, len, isNull))
  {
    hide DeclaredSize, Le16, T.TimeSize;
    DefaultCollationBytes();
  }

  function TimedType(k: Kind): T.DataType {
    if k.Time? then T.TimeN else if k.DateTime2? then T.DateTime2N else T.DateTimeOffsetN
  }

  lemma TimedTypeInfo(ti: MssqlTypeInfo, len: nat, isNull: bool)
    requires IsTimed(ti.kind)
    ensures TypeInfoBytes(ti, len, isNull) == Ok([T.Code(TimedType(ti.kind)), ti.Scale()])
  {
    hide T.Code, DeclaredSize;
  }

  lemma LargeScaleRefused(ti: MssqlTypeInfo, len: nat, isNull: bool, tail: Bytes)
    requires IsTimed(ti.kind) && ti.Scale() > 7
    ensures TypeInfoBytes(ti, len, isNull).Ok?
    ensures T.GetTypeInfo(TypeInfoBytes(ti, len, isNull).value + tail) == Fail(InvalidScale(ti.Scale()))
  {
    hide TypeInfoBytes, T.Code, T.DataTypeOf;
    var ty := TimedType(ti.kind);
    TimedTypeInfo(ti, len, isNull);
    T.CodeRoundTrip(ty);
    assert [T.Code(ty), ti.Scale()] + tail == [T.Code(ty)] + ([ti.Scale()] + tail);
    ReadByteExact(T.Code(ty), [ti.Scale()] + tail);
    ReadByteExact(ti.Scale(), tail);
  }

  /** A written TYPE_INFO reads back as the wire type, or is refused for its scale. */
  lemma TypeInfoReadsBack(ti: MssqlTypeInfo, len: nat, isNull: bool, tail: Bytes)
    requires TypeInfoBytes(ti, len, isNull).Ok?
    ensures T.GetTypeInfo(TypeInfoBytes(ti, len, isNull).value + tail) ==
            if IsTimed(ti.kind) && ti.Scale() > 7 then Fail(InvalidScale(ti.Scale()))
            else Got(WireType(ti, len, isNull), tail)
  {
    hide WireType, T.Canonical, T.TypeInfoBytes, TypeInfoBytes, T.GetTypeInfo;
    if IsTimed(ti.kind) && ti.Scale() > 7 {
      LargeScaleRefused(ti, len, isNull, tail);
    } else {
      TypeInfoBytesAgree(ti, len, isNull);
      WireTypeCanonical(ti, len, isNull);
      T.TypeInfoReadsBack(WireType(ti, len, isNull), tail);
    }
  }

  lemma ByteLengthValueReads(t: T.TypeInfo, n: Byte, data: Bytes, tail: Bytes)
    requires T.LayoutOf(t.ty).ByteLen?
    ensures n == 0 || n == 0xff ==> T.GetValue(t, [n] + data + tail) == Got(None, data + tail)
    ensures 0 < n < 0xff && n == |data| ==> T.GetValue(t, [n] + data + tail) == Got(Some(data), tail)
    ensures 0 < n < 0xff && n <= |data + tail| ==>
              T.GetValue(t, [n] + data + tail) == Got(Some((data + tail)[..n]), (data + tail)[n..])
    ensures 0 < n < 0xff && n > |data + tail| ==> T.GetValue(t, [n] + data + tail) == Fail(EndOfInput)
  {
    assert [n] + data + tail == [n] + (data + tail);
    ReadByteExact(n, data + tail);
    TakeExact(data, tail);
  }

  lemma ShortLengthValueReads(t: T.TypeInfo, n: U16, data: Bytes, tail: Bytes)
    requires T.LayoutOf(t.ty).ShortLen? && t.size != 0xffff
    ensures n == 0xffff ==> T.GetValue(t, Le16(n) + data + tail) == Got(None, data + tail)
    ensures n < 0xffff && n == |data| ==> T.GetValue(t, Le16(n) + data + tail) == Got(Some(data), tail)
  {
    assert Le16(n) + data + tail == Le16(n) + (data + tail);
    ReadU16Exact(n, data + tail);
    TakeExact(data, tail);
  }

  function Expected(encoded: Bytes, isNull: bool): Option<Bytes> { if isNull then None else Some(encoded) }

  lemma ByteLengthRoundTripIff(ti: MssqlTypeInfo, encoded: Bytes, isNull: bool, t: T.TypeInfo, tail: Bytes)
    requires IsByteLength(ti.kind) && ValueBytes(ti, encoded, isNull).Ok? && T.LayoutOf(t.ty).ByteLen?
    ensures T.GetValue(t, ValueBytes(ti, encoded, isNull).value + tail) == Got(Expected(encoded, isNull), tail)
            <==> (!isNull ==> 1 <= |encoded| <= 254 && ti.size != Some(MAX))
  {
    if isNull {
      ByteLengthValueReads(t, 0, [], tail);
      assert [] + tail == tail;
    } else {
      var data := if ti.size != Some(MAX) then encoded else [];
      ByteLengthValueReads(t, |encoded|, data, tail);
      if 0 < |encoded| < 0xff && ti.size == Some(MAX) && |encoded| <= |data + tail| {
        assert |(data + tail)[|encoded|..]| < |tail|;
      }
    }
  }

  lemma ShortLengthRoundTripIff(ti: MssqlTypeInfo, encoded: Bytes, isNull: bool, t: T.TypeInfo, tail: Bytes)
    requires IsShortLength(ti.kind) && ValueBytes(ti, encoded, isNull).Ok? && T.LayoutOf(t.ty).ShortLen?
    requires DeclaredSize(ti, |encoded|, isNull) == Ok(t.size) && |encoded| <= T.MAX_CAPACITY
    ensures T.GetValue(t, ValueBytes(ti, encoded, isNull).value + tail) == Got(Expected(encoded, isNull), tail)
            <==> (!isNull && ti.size != Some(MAX) ==> |encoded| <= 65534)
  {
    if ti.size == Some(MAX) {
      var blob := T.PlpBytes(Expected(encoded, isNull));
      T.PlpReadsBack(Expected(encoded, isNull), tail);
      assert blob + [] == blob;
    } else if t.size == 0xffff {
      // No declared size and 65535 bytes: announced as a blob, written as a plain value.
      T.BlobConsumes(ValueBytes(ti, encoded, isNull).value + tail);
    } else if isNull {
      ShortLengthValueReads(t, MAX, [], tail);
      assert [] + tail == tail;
    } else {
      ShortLengthValueReads(t, |encoded|, encoded, tail);
    }
  }

  /** Parameter round trip across files: what the writer emits comes back from the readers as the same type,
      size, scale, precision and bytes, followed by exactly the suffix, if and only if the parameter is readable. */
  lemma ParameterRoundTripIff(ti: MssqlTypeInfo, encoded: Bytes, isNull: bool, tail: Bytes)
    requires TypeInfoBytes(ti, |encoded|, isNull).Ok? && ValueBytes(ti, encoded, isNull).Ok?
    requires |encoded| <= T.MAX_CAPACITY
    ensures var written := TypeInfoBytes(ti, |encoded|, isNull).value + ValueBytes(ti, encoded, isNull).value;
            ReadTyped(written + tail).Got? && (IsTimed(ti.kind) ==> ti.Scale() <= 7)
            && ReadTyped(written + tail) == Got((WireType(ti, |encoded|, isNull), Expected(encoded, isNull)), tail)
            <==> Readable(ti, encoded, isNull)
  {
    hide TypeInfoBytes, WireType, T.GetTypeInfo, T.GetValue, DeclaredSize, ValueBytes, T.LayoutOf;
    var info, value := TypeInfoBytes(ti, |encoded|, isNull).value, ValueBytes(ti, encoded, isNull).value;
    assert info + value + tail == info + (value + tail);
    TypeInfoReadsBack(ti, |encoded|, isNull, value + tail);
    if !(IsTimed(ti.kind) && ti.Scale() > 7) {
      var t := WireType(ti, |encoded|, isNull);
      WireTypeLaidOut(ti, |encoded|, isNull);
      if IsByteLength(ti.kind) {
        ByteLengthRoundTripIff(ti, encoded, isNull, t, tail);
      } else {
        ShortLengthRoundTripIff(ti, encoded, isNull, t, tail);
      }
    }
  }

  /** Readable parameters of every supported kind do get written. */
  lemma ReadableIsWritten(ti: MssqlTypeInfo, encoded: Bytes, isNull: bool)
    requires IsByteLength(ti.kind) || IsShortLength(ti.kind)
    requires Readable(ti, encoded, isNull)
    requires ti.kind.Decimal? && ti.size.Some? ==> ti.size.value <= 0xff
    requires |encoded| <= 0xffff || ti.size == Some(MAX)
    ensures TypeInfoBytes(ti, |encoded|, isNull).Ok? && ValueBytes(ti, encoded, isNull).Ok?
  {
  }

  /** Characters become their own units. */
  lemma AsciiUnits(s: string, k: nat)
    requires k < |s| && s[k] as int < 0x1_0000
    ensures |Ascii(s)| == |s| && Ascii(s)[k] == s[k] as int
  {
  }

  /** The TYPE_INFO of each kind byte by byte: its code, then a width, a little-endian size with the default collation
      behind text, precision and scale, or a scale. */
  lemma TypeInfoOnTheWire(ti: MssqlTypeInfo, len: nat, isNull: bool)
    ensures ti.kind.Bit? ==> TypeInfoBytes(ti, len, isNull) == Ok([0x68, 1])
    ensures ti.kind.TinyInt? ==> TypeInfoBytes(ti, len, isNull) == Ok([0x26, 1])
    ensures ti.kind.SmallInt? ==> TypeInfoBytes(ti, len, isNull) == Ok([0x26, 2])
    ensures ti.kind.Int? ==> TypeInfoBytes(ti, len, isNull) == Ok([0x26, 4])
    ensures ti.kind.BigInt? ==> TypeInfoBytes(ti, len, isNull) == Ok([0x26, 8])
    ensures ti.kind.Real? ==> TypeInfoBytes(ti, len, isNull) == Ok([0x6d, 4])
    ensures ti.kind.Float? ==> TypeInfoBytes(ti, len, isNull) == Ok([0x6d, 8])
    ensures ti.kind.UniqueIdentifier? ==> TypeInfoBytes(ti, len, isNull) == Ok([0x24, 16])
    ensures ti.kind.Date? ==> TypeInfoBytes(ti, len, isNull) == Ok([0x28])
    ensures ti.kind.Time? ==> TypeInfoBytes(ti, len, isNull) == Ok([0x29, ti.Scale()])
    ensures ti.kind.DateTime2? ==> TypeInfoBytes(ti, len, isNull) == Ok([0x2a, ti.Scale()])
    ensures ti.kind.DateTimeOffset? ==> TypeInfoBytes(ti, len, isNull) == Ok([0x2b, ti.Scale()])
    ensures ti.kind.Decimal? && ti.size.None? ==>
              TypeInfoBytes(ti, len, isNull) == Ok([0x6c, 17, if ti.Precision() == 0 then 1 else ti.Precision(), ti.Scale()])
    ensures ti.kind in {Null, Money, DateTime, Other} ==> TypeInfoBytes(ti, len, isNull) == Err(UnsupportedType)
  {
    hide DeclaredSize;
  }

  /** Text and binary types: code, little-endian size and, for text, the default collation. */
  lemma ShortTypeInfoOnTheWire(ti: MssqlTypeInfo, len: nat, isNull: bool, lo: Byte, hi: Byte)
    requires DeclaredSize(ti, len, isNull) == Ok(lo as int + 256 * hi as int)
    ensures ti.kind.NVarChar? ==>
              TypeInfoBytes(ti, len, isNull) == Ok([0xe7, lo, hi, 0x81, 0x04, 0xd0, 0x00, 0x34])
    ensures ti.kind.VarChar? ==>
              TypeInfoBytes(ti, len, isNull) == Ok([0xa7, lo, hi, 0x81, 0x04, 0xd0, 0x00, 0x34])
    ensures ti.kind.VarBinary? ==> TypeInfoBytes(ti, len, isNull) == Ok([0xa5, lo, hi])
  {
    SmallWord(lo, hi);
    hide DeclaredSize, Le16;
    assert [0xe7 as Byte] + [lo, hi] + DEFAULT_COLLATION_BYTES == [0xe7, lo, hi, 0x81, 0x04, 0xd0, 0x00, 0x34];
    assert [0xa7 as Byte] + [lo, hi] + DEFAULT_COLLATION_BYTES == [0xa7, lo, hi, 0x81, 0x04, 0xd0, 0x00, 0x34];
    assert [0xa5 as Byte] + [lo, hi] == [0xa5, lo, hi];
  }

  lemma SmallWord(lo: Byte, hi: Byte)
    ensures Le16(lo as int + 256 * hi as int) == [lo, hi]
  {
  }
}
