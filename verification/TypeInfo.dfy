/** TYPE_INFO, the values it announces and PLP blobs (sections 2.2.5.4 to 2.2.5.6 of [MS-TDS]). */
module TypeInfos {
  import opened Wire

  datatype DataType =
    | Null | TinyInt | Bit | SmallInt | Int | SmallDateTime | Real | Money | DateTime | Float | SmallMoney
    | BigInt | Guid | IntN | Decimal | Numeric | BitN | DecimalN | NumericN | FloatN | MoneyN | DateTimeN
    | DateN | TimeN | DateTime2N | DateTimeOffsetN | Char | VarChar | Binary | VarBinary | BigVarBinary
    | BigVarChar | BigBinary | BigChar | NVarChar | NChar | Xml | UserDefined | Text | Image | NText
    | Variant

  /** The byte that announces a type. */
  function Code(ty: DataType): Byte {
    match ty
    case Null => 0x1f
    case TinyInt => 0x30
    case Bit => 0x32
    case SmallInt => 0x34
    case Int => 0x38
    case SmallDateTime => 0x3a
    case Real => 0x3b
    case Money => 0x3c
    case DateTime => 0x3d
    case Float => 0x3e
    case SmallMoney => 0x7a
    case BigInt => 0x7f
    case Guid => 0x24
    case IntN => 0x26
    case Decimal => 0x37
    case Numeric => 0x3f
    case BitN => 0x68
    case DecimalN => 0x6a
    case NumericN => 0x6c
    case FloatN => 0x6d
    case MoneyN => 0x6e
    case DateTimeN => 0x6f
    case DateN => 0x28
    case TimeN => 0x29
    case DateTime2N => 0x2a
    case DateTimeOffsetN => 0x2b
    case Char => 0x2f
    case VarChar => 0x27
    case Binary => 0x2d
    case VarBinary => 0x25
    case BigVarBinary => 0xa5
    case BigVarChar => 0xa7
    case BigBinary => 0xad
    case BigChar => 0xaf
    case NVarChar => 0xe7
    case NChar => 0xef
    case Xml => 0xf1
    case UserDefined => 0xf0
    case Text => 0x23
    case Image => 0x22
    case NText => 0x63
    case Variant => 0x62
  }

  function DataTypeOf(code: Byte): Option<DataType> {
    match code
    case 0x1f => Some(Null)
    case 0x30 => Some(TinyInt)
    case 0x32 => Some(Bit)
    case 0x34 => Some(SmallInt)
    case 0x38 => Some(Int)
    case 0x3a => Some(SmallDateTime)
    case 0x3b => Some(Real)
    case 0x3c => Some(Money)
    case 0x3d => Some(DateTime)
    case 0x3e => Some(Float)
    case 0x7a => Some(SmallMoney)
    case 0x7f => Some(BigInt)
    case 0x24 => Some(Guid)
    case 0x26 => Some(IntN)
    case 0x37 => Some(Decimal)
    case 0x3f => Some(Numeric)
    case 0x68 => Some(BitN)
    case 0x6a => Some(DecimalN)
    case 0x6c => Some(NumericN)
    case 0x6d => Some(FloatN)
    case 0x6e => Some(MoneyN)
    case 0x6f => Some(DateTimeN)
    case 0x28 => Some(DateN)
    case 0x29 => Some(TimeN)
    case 0x2a => Some(DateTime2N)
    case 0x2b => Some(DateTimeOffsetN)
    case 0x2f => Some(Char)
    case 0x27 => Some(VarChar)
    case 0x2d => Some(Binary)
    case 0x25 => Some(VarBinary)
    case 0xa5 => Some(BigVarBinary)
    case 0xa7 => Some(BigVarChar)
    case 0xad => Some(BigBinary)
    case 0xaf => Some(BigChar)
    case 0xe7 => Some(NVarChar)
    case 0xef => Some(NChar)
    case 0xf1 => Some(Xml)
    case 0xf0 => Some(UserDefined)
    case 0x23 => Some(Text)
    case 0x22 => Some(Image)
    case 0x63 => Some(NText)
    case 0x62 => Some(Variant)
    case _ => None
  }

  lemma CodeRoundTrip(ty: DataType)
    ensures DataTypeOf(Code(ty)) == Some(ty)
  {
  }

  datatype Collation = Collation(locale: nat, flags: Byte, sort: Byte, version: Byte)

  datatype TypeInfo = TypeInfo(ty: DataType, size: U32, scale: Byte, precision: Byte, collation: Option<Collation>)

  function Plain(ty: DataType, size: U32): TypeInfo { TypeInfo(ty, size, 0, 0, None) }

  // ---- how a TYPE_INFO and its values are laid out ----

  /** What follows the type byte. */
  datatype Meta =
    | Bare(size: U32)
    | Scaled(dateSize: Byte)
    | ByteSize
    | NumericSize
    | ShortSize
    | ShortSizeCollation
    | Unsupported

  function MetaOf(ty: DataType): Meta {
    match ty
    case Null => Bare(0)
    case TinyInt | Bit => Bare(1)
    case SmallInt => Bare(2)
    case Int | SmallDateTime | Real | SmallMoney => Bare(4)
    case BigInt | Money | DateTime | Float => Bare(8)
    case DateN => Bare(3)
    case TimeN => Scaled(0)
    case DateTime2N => Scaled(3)
    case DateTimeOffsetN => Scaled(5)
    case Guid | IntN | BitN | FloatN | MoneyN | DateTimeN | Char | VarChar | Binary | VarBinary => ByteSize
    case Decimal | Numeric | DecimalN | NumericN => NumericSize
    case BigVarBinary | BigBinary => ShortSize
    case BigVarChar | BigChar | NVarChar | NChar => ShortSizeCollation
    case Xml | UserDefined | Text | Image | NText | Variant => Unsupported
  }

  /** How a value is delimited. */
  datatype Layout =
    | NoValue
    | Fixed
    | ByteLen          // a zero length or 0xff is NULL
    | ByteLenText      // only 0xff is NULL
    | ShortLen         // 0xffff is NULL, or a PLP blob when the declared size is 0xffff
    | LongLen

  function LayoutOf(ty: DataType): Layout {
    match ty
    case Null => NoValue
    case TinyInt | Bit | SmallInt | Int | SmallDateTime | Real | Money | DateTime | Float | SmallMoney | BigInt => Fixed
    case Guid | IntN | Decimal | Numeric | BitN | DecimalN | NumericN | FloatN | MoneyN | DateN | DateTimeN
       | TimeN | DateTime2N | DateTimeOffsetN => ByteLen
    case Char | VarChar | Binary | VarBinary => ByteLenText
    case BigVarBinary | BigVarChar | BigBinary | BigChar | NVarChar | NChar | Xml | UserDefined => ShortLen
    case Text | Image | NText | Variant => LongLen
  }

  function GetDataType(input: Bytes): Read<DataType> {
    var (code, rest) :- ReadByte(input);
    var ty := DataTypeOf(code);
    if ty.None? then Fail(UnknownDataType(code)) else Got(ty.value, rest)
  }

  function GetCollation(input: Bytes): Read<Collation> {
    var (bits, rest) :- ReadU32(input);
    var (sort, rest) :- ReadByte(rest);
    Got(Collation(bits % 0x10_0000, bits / 0x10_0000 % 0x40, sort, bits / 0x1000_0000), rest)
  }

  /** Bytes a time of day takes at each fractional-second scale. */
  function TimeSize(scale: Byte): U32
    requires scale <= 7
  {
    if scale <= 2 then 3 else if scale <= 4 then 4 else 5
  }

  function GetTypeInfo(input: Bytes): Read<TypeInfo> {
    var (ty, rest) :- GetDataType(input);
    GetMeta(MetaOf(ty), ty, rest)
  }

  function GetMeta(meta: Meta, ty: DataType, rest: Bytes): Read<TypeInfo> {
    match meta
    case Bare(size) => Got(Plain(ty, size), rest)
    case Scaled(dateSize) =>
      var (scale, rest) :- ReadByte(rest);
      if scale > 7 then Fail(InvalidScale(scale))
      else Got(TypeInfo(ty, TimeSize(scale) + dateSize, scale, 0, None), rest)
    case ByteSize =>
      var (size, rest) :- ReadByte(rest);
      Got(Plain(ty, size), rest)
    case NumericSize =>
      var (size, rest) :- ReadByte(rest);
      var (precision, rest) :- ReadByte(rest);
      var (scale, rest) :- ReadByte(rest);
      Got(TypeInfo(ty, size, scale, precision, None), rest)
    case ShortSize =>
      var (size, rest) :- ReadU16(rest);
      Got(Plain(ty, size), rest)
    case ShortSizeCollation =>
      var (size, rest) :- ReadU16(rest);
      var (collation, rest) :- GetCollation(rest);
      Got(TypeInfo(ty, size, 0, 0, Some(collation)), rest)
    case Unsupported => Fail(UnsupportedDataType)
  }

  // ---- writing a TYPE_INFO ----

  function CollationBytes(c: Collation): Bytes {
    LittleEndian(c.locale + 0x10_0000 * c.flags as int + 0x1000_0000 * c.version as int, 4) + [c.sort]
  }

  // Sizes too large for their field never occur in a canonical TYPE_INFO.
  function AsByte(n: U32): Byte { if n < 0x100 then n else 0 }
  function AsU16(n: U32): U16 { if n < 0x1_0000 then n else 0 }

  /** What follows the type byte, in the form the reader expects. */
  function MetaBytes(meta: Meta, t: TypeInfo): Bytes {
    match meta
    case Bare(_) => []
    case Scaled(_) => [t.scale]
    case ByteSize => [AsByte(t.size)]
    case NumericSize => [AsByte(t.size), t.precision, t.scale]
    case ShortSize => Le16(AsU16(t.size))
    case ShortSizeCollation => Le16(AsU16(t.size)) + if t.collation.Some? then CollationBytes(t.collation.value) else [0, 0, 0, 0, 0]
    case Unsupported => []
  }

  function TypeInfoBytes(t: TypeInfo): Bytes { [Code(t.ty)] + MetaBytes(MetaOf(t.ty), t) }

  predicate CanonicalCollation(c: Collation) { c.locale < 0x10_0000 && c.flags < 0x40 && c.version < 0x10 }

  /** The TYPE_INFO values the wire can express. */
  predicate Canonical(t: TypeInfo) { CanonicalAs(MetaOf(t.ty), t) }

  predicate CanonicalAs(meta: Meta, t: TypeInfo) {
    match meta
    case Bare(size) => t == Plain(t.ty, size)
    case Scaled(dateSize) => t.scale <= 7 && t == TypeInfo(t.ty, TimeSize(t.scale) + dateSize, t.scale, 0, None)
    case ByteSize => t.size < 0x100 && t == Plain(t.ty, t.size)
    case NumericSize => t.size < 0x100 && t.collation.None?
    case ShortSize => t.size < 0x1_0000 && t == Plain(t.ty, t.size)
    case ShortSizeCollation =>
      && t.size < 0x1_0000 && t.scale == 0 && t.precision == 0
      && t.collation.Some? && CanonicalCollation(t.collation.value)
    case Unsupported => false
  }

  lemma CollationBits(locale: int, flags: int, version: int, bits: int)
    requires 0 <= locale < 0x10_0000 && 0 <= flags < 0x40 && 0 <= version < 0x10
    requires bits == locale + 0x10_0000 * flags + 0x1000_0000 * version
    ensures bits % 0x10_0000 == locale && bits / 0x10_0000 % 0x40 == flags && bits / 0x1000_0000 == version
  {
    assert bits / 0x10_0000 == flags + 0x100 * version;
  }

  lemma CollationReadsBack(c: Collation, tail: Bytes)
    requires CanonicalCollation(c)
    ensures GetCollation(CollationBytes(c) + tail) == Got(c, tail)
  {
    var bits := c.locale + 0x10_0000 * c.flags as int + 0x1000_0000 * c.version as int;
    CollationBits(c.locale, c.flags, c.version, bits);
    ReadU32Front(bits, [c.sort], tail);
    ReadByteExact(c.sort, tail);
  }

  lemma NumericMetaReadsBack(t: TypeInfo, tail: Bytes)
    requires CanonicalAs(NumericSize, t)
    ensures GetMeta(NumericSize, t.ty, MetaBytes(NumericSize, t) + tail) == Got(t, tail)
  {
    assert MetaBytes(NumericSize, t) + tail == [t.size] + ([t.precision] + ([t.scale] + tail));
    ReadByteExact(t.size, [t.precision] + ([t.scale] + tail));
    ReadByteExact(t.precision, [t.scale] + tail);
    ReadByteExact(t.scale, tail);
  }

  lemma CollatedMeta(ty: DataType, size: U16, c: Collation, bytes: Bytes, tail: Bytes)
    requires GetCollation(bytes + tail) == Got(c, tail)
    ensures GetMeta(ShortSizeCollation, ty, Le16(size) + bytes + tail) == Got(TypeInfo(ty, size, 0, 0, Some(c)), tail)
  {
    ReadU16Exact(size, bytes + tail);
    Assoc(Le16(size), bytes, tail);
  }

  lemma CollatedMetaBytes(t: TypeInfo)
    requires CanonicalAs(ShortSizeCollation, t)
    ensures MetaBytes(ShortSizeCollation, t) == Le16(t.size) + CollationBytes(t.collation.value)
  {
  }

  lemma SizeAndCollationReadBack(t: TypeInfo, tail: Bytes)
    requires CanonicalAs(ShortSizeCollation, t)
    ensures GetMeta(ShortSizeCollation, t.ty, Le16(t.size) + CollationBytes(t.collation.value) + tail) == Got(t, tail)
  {
    CollationReadsBack(t.collation.value, tail);
    CollatedMeta(t.ty, t.size, t.collation.value, CollationBytes(t.collation.value), tail);
  }

  lemma CollatedMetaReadsBack(t: TypeInfo, tail: Bytes)
    requires CanonicalAs(ShortSizeCollation, t)
    ensures GetMeta(ShortSizeCollation, t.ty, MetaBytes(ShortSizeCollation, t) + tail) == Got(t, tail)
  {
    CollatedMetaBytes(t);
    SizeAndCollationReadBack(t, tail);
  }

  lemma ShortMetaReadsBack(meta: Meta, t: TypeInfo, tail: Bytes)
    requires CanonicalAs(meta, t) && (meta.Bare? || meta.Scaled? || meta.ByteSize? || meta.ShortSize?)
    ensures GetMeta(meta, t.ty, MetaBytes(meta, t) + tail) == Got(t, tail)
  {
    match meta {
      case Bare(_) => assert [] + tail == tail;
      case Scaled(_) => ReadByteExact(t.scale, tail);
      case ByteSize => ReadByteExact(t.size, tail);
      case ShortSize => ReadU16Exact(t.size, tail);
    }
  }

  lemma MetaReadsBack(meta: Meta, t: TypeInfo, tail: Bytes)
    requires CanonicalAs(meta, t)
    ensures GetMeta(meta, t.ty, MetaBytes(meta, t) + tail) == Got(t, tail)
  {
    match meta {
      case NumericSize => NumericMetaReadsBack(t, tail);
      case ShortSizeCollation => CollatedMetaReadsBack(t, tail);
      case Unsupported =>
      case _ => ShortMetaReadsBack(meta, t, tail);
    }
  }

  /** Every expressible TYPE_INFO survives the wire, whatever follows it. */
  lemma TypeInfoReadsBack(t: TypeInfo, tail: Bytes)
    requires Canonical(t)
    ensures GetTypeInfo(TypeInfoBytes(t) + tail) == Got(t, tail)
  {
    var meta := MetaBytes(MetaOf(t.ty), t);
    Assoc([Code(t.ty)], meta, tail);
    ReadByteExact(Code(t.ty), meta + tail);
    CodeRoundTrip(t.ty);
    MetaReadsBack(MetaOf(t.ty), t, tail);
  }

  lemma CollationIsCanonical(input: Bytes)
    requires GetCollation(input).Got?
    ensures CanonicalCollation(GetCollation(input).value)
  {
  }

  lemma MetaIsCanonical(meta: Meta, ty: DataType, rest: Bytes)
    requires GetMeta(meta, ty, rest).Got?
    ensures CanonicalAs(meta, GetMeta(meta, ty, rest).value) && GetMeta(meta, ty, rest).value.ty == ty
  {
    if meta.ShortSizeCollation? {
      CollationIsCanonical(ReadU16(rest).rest);
    }
  }

  /** And the reader produces nothing else. */
  lemma ReadTypeInfoIsCanonical(input: Bytes)
    requires GetTypeInfo(input).Got?
    ensures Canonical(GetTypeInfo(input).value)
  {
    var ty := GetDataType(input).value;
    MetaIsCanonical(MetaOf(ty), ty, input[1..]);
  }

  // ---- values ----

  /** Chunks up to the empty one that ends a PLP blob. */
  function GetChunks(input: Bytes): Read<Bytes>
    decreases |input|
  {
    var (n, rest) :- ReadU32(input);
    if n == 0 then Got([], rest)
    else
      var (chunk, rest) :- Take(rest, n);
      var (more, rest) :- GetChunks(rest);
      Got(chunk + more, rest)
  }

  const PLP_NULL: U64 := 0xffff_ffff_ffff_ffff
  const PLP_UNKNOWN: U64 := 0xffff_ffff_ffff_fffe

  /** The most bytes a buffer can be asked to hold. */
  const MAX_CAPACITY: nat := 0x7fff_ffff_ffff_ffff

  function GetBigBlob(input: Bytes): Read<Option<Bytes>> {
    var (len, rest) :- ReadU64(input);
    if len == PLP_NULL then Got(None, rest)
    else if len != PLP_UNKNOWN && len > MAX_CAPACITY then Fail(CapacityOverflow)
    else
      var (data, rest) :- GetChunks(rest);
      Got(Some(data), rest)
  }

  function GetValue(t: TypeInfo, input: Bytes): Read<Option<Bytes>> { GetLaidOut(LayoutOf(t.ty), t.size, input) }

  function GetLaidOut(layout: Layout, declared: U32, input: Bytes): Read<Option<Bytes>> {
    match layout
    case NoValue => Got(None, input)
    case Fixed =>
      var (data, rest) :- Take(input, declared);
      Got(Some(data), rest)
    case ByteLen =>
      var (size, rest) :- ReadByte(input);
      if size == 0 || size == 0xff then Got(None, rest)
      else
        var (data, rest) :- Take(rest, size);
        Got(Some(data), rest)
    case ByteLenText =>
      var (size, rest) :- ReadByte(input);
      if size == 0xff then Got(None, rest)
      else
        var (data, rest) :- Take(rest, size);
        Got(Some(data), rest)
    case ShortLen =>
      if declared == 0xffff then GetBigBlob(input)
      else
        var (size, rest) :- ReadU16(input);
        if size == 0xffff then Got(None, rest)
        else
          var (data, rest) :- Take(rest, size);
          Got(Some(data), rest)
    case LongLen =>
      var (size, rest) :- ReadU32(input);
      if size == 0xffff_ffff then Got(None, rest)
      else
        var (data, rest) :- Take(rest, size);
        Got(Some(data), rest)
  }

  /** The blob reader as the driver runs it: one buffer grown chunk by chunk. */
  method ReadBigBlob(input: Bytes) returns (r: Read<Option<Bytes>>)
    ensures r == GetBigBlob(input)
  {
    var header := ReadU64(input);
    if header.Fail? {
      return Fail(header.error);
    }
    if header.value == PLP_NULL {
      return Got(None, header.rest);
    }
    if header.value != PLP_UNKNOWN && header.value > MAX_CAPACITY {
      return Fail(CapacityOverflow);
    }
    var rest, data := header.rest, [];
    assert GetChunks(rest).Got? ==> [] + GetChunks(rest).value == GetChunks(rest).value;
    while true
      invariant GetChunks(header.rest) == Onto(data, GetChunks(rest))
      decreases |rest|
    {
      var size := ReadU32(rest);
      if size.Fail? {
        return Fail(size.error);
      }
      if size.value == 0 {
        assert data + [] == data;
        return Got(Some(data), size.rest);
      }
      var chunk := Take(size.rest, size.value);
      if chunk.Fail? {
        return Fail(chunk.error);
      }
      var later := GetChunks(chunk.rest);
      assert later.Got? ==> data + (chunk.value + later.value) == data + chunk.value + later.value;
      data := data + chunk.value;
      rest := chunk.rest;
    }
  }

  // ---- PLP blobs ----

  function ChunkBytes(chunks: seq<Bytes>): Bytes {
    if |chunks| == 0 then LittleEndian(0, 4)
    else LittleEndian(|chunks[0]|, 4) + chunks[0] + ChunkBytes(chunks[1..])
  }

  function Join(chunks: seq<Bytes>): Bytes {
    if |chunks| == 0 then [] else chunks[0] + Join(chunks[1..])
  }

  predicate LegalChunks(chunks: seq<Bytes>) {
    forall c <- chunks :: 0 < |c| <= U32_MAX
  }

  lemma {:induction false} ChunksReadBack(chunks: seq<Bytes>, tail: Bytes)
    requires LegalChunks(chunks)
    ensures GetChunks(ChunkBytes(chunks) + tail) == Got(Join(chunks), tail)
    decreases |chunks|
  {
    if |chunks| == 0 {
      ReadU32Exact(0, tail);
    } else {
      var c, later := chunks[0], ChunkBytes(chunks[1..]) + tail;
      assert ChunkBytes(chunks) + tail == LittleEndian(|c|, 4) + (c + later);
      ReadU32Exact(|c|, c + later);
      TakeExact(c, later);
      ChunksReadBack(chunks[1..], tail);
    }
  }

  /** A blob of known or unknown length comes back as the concatenation of its chunks, however it was chunked. */
  lemma AnyChunkingReadsBack(len: U64, chunks: seq<Bytes>, tail: Bytes)
    requires LegalChunks(chunks) && (len <= MAX_CAPACITY || len == PLP_UNKNOWN)
    ensures GetBigBlob(LittleEndian(len, 8) + ChunkBytes(chunks) + tail) == Got(Some(Join(chunks)), tail)
  {
    ReadU64Front(len, ChunkBytes(chunks), tail);
    ChunksReadBack(chunks, tail);
  }

  const PLP_CHUNK_SIZE: nat := 8192

  /** The chunks the writers cut a value into. */
  function Chop(b: Bytes): (chunks: seq<Bytes>)
    decreases |b|
  {
    if |b| == 0 then []
    else if |b| <= PLP_CHUNK_SIZE then [b]
    else [b[..PLP_CHUNK_SIZE]] + Chop(b[PLP_CHUNK_SIZE..])
  }

  lemma {:induction false} ChopJoins(b: Bytes)
    ensures Join(Chop(b)) == b && LegalChunks(Chop(b))
    ensures forall c <- Chop(b) :: |c| <= PLP_CHUNK_SIZE
    decreases |b|
  {
    if 0 < |b| <= PLP_CHUNK_SIZE {
      assert Join([b]) == b + Join([]);
    } else if |b| > PLP_CHUNK_SIZE {
      ChopJoins(b[PLP_CHUNK_SIZE..]);
      assert Chop(b)[1..] == Chop(b[PLP_CHUNK_SIZE..]);
      assert b == b[..PLP_CHUNK_SIZE] + b[PLP_CHUNK_SIZE..];
    }
  }

  /** What both blob writers emit. */
  function PlpBytes(value: Option<Bytes>): Bytes {
    match value
    case None => LittleEndian(PLP_NULL, 8)
    case Some(b) => LittleEndian(|b|, 8) + ChunkBytes(Chop(b))
  }

  lemma PlpReadsBack(value: Option<Bytes>, tail: Bytes)
    requires value.Some? ==> |value.value| <= MAX_CAPACITY
    ensures GetBigBlob(PlpBytes(value) + tail) == Got(value, tail)
  {
    match value {
      case None => ReadU64Exact(PLP_NULL, tail);
      case Some(b) =>
        ChopJoins(b);
        AnyChunkingReadsBack(|b|, Chop(b), tail);
    }
  }

  /** A blob read back never holds more bytes than were there besides its length fields. */
  lemma {:induction false} ChunksConsume(input: Bytes)
    ensures GetChunks(input).Got? ==> |GetChunks(input).value| + 4 + |GetChunks(input).rest| <= |input|
    decreases |input|
  {
    var size := ReadU32(input);
    if size.Got? && size.value != 0 && Take(size.rest, size.value).Got? {
      ChunksConsume(Take(size.rest, size.value).rest);
    }
  }

  lemma BlobConsumes(input: Bytes)
    ensures GetBigBlob(input).Got? && GetBigBlob(input).value.Some? ==>
              |GetBigBlob(input).value.value| + 12 + |GetBigBlob(input).rest| <= |input|
  {
    if ReadU64(input).Got? {
      ChunksConsume(ReadU64(input).rest);
    }
  }

  lemma ChopStep(b: Bytes)
    requires |b| > 0
    ensures var c := b[..if |b| <= PLP_CHUNK_SIZE then |b| else PLP_CHUNK_SIZE];
            ChunkBytes(Chop(b)) == LittleEndian(|c|, 4) + c + ChunkBytes(Chop(b[|c|..]))
  {
    if |b| <= PLP_CHUNK_SIZE {
      assert b[..|b|] == b && b[|b|..] == [];
      assert Chop(b)[1..] == [];
    } else {
      assert Chop(b)[1..] == Chop(b[PLP_CHUNK_SIZE..]);
    }
  }

  /** The parameter writer: a loop over what is left of the value. */
  method WritePlpValue(out: Bytes, encoded: Bytes, isNull: bool) returns (r: Bytes)
    ensures r == out + PlpBytes(if isNull then None else Some(encoded))
  {
    if isNull {
      return out + LittleEndian(PLP_NULL, 8);
    }
    r := out + LittleEndian(|encoded|, 8);
    var rest := encoded;
    while |rest| > 0
      invariant out + PlpBytes(Some(encoded)) == r + ChunkBytes(Chop(rest))
      decreases |rest|
    {
      ChopStep(rest);
      var chunk := rest[..if |rest| <= PLP_CHUNK_SIZE then |rest| else PLP_CHUNK_SIZE];
      var size := LittleEndian(|chunk|, 4);
      Assoc(r, size + chunk, ChunkBytes(Chop(rest[|chunk|..])));
      Assoc(r, size, chunk);
      r := r + size + chunk;
      rest := rest[|chunk|..];
    }
    r := r + LittleEndian(0, 4);
  }

  /** The TYPE_INFO writer: the value is encoded into a buffer of its own and sent chunk by chunk from an offset. */
  method PutBigBlob(out: Bytes, value: Option<Bytes>) returns (r: Bytes)
    ensures r == out + PlpBytes(value)
  {
    if value.None? {
      return out + LittleEndian(PLP_NULL, 8);
    }
    var buffer := value.value;
    r := out + LittleEndian(|buffer|, 8);
    var offset := 0;
    assert buffer[0..] == buffer;
    while offset < |buffer|
      invariant offset <= |buffer|
      invariant out + PlpBytes(value) == r + ChunkBytes(Chop(buffer[offset..]))
    {
      ChopStep(buffer[offset..]);
      var end := if |buffer| - offset <= PLP_CHUNK_SIZE then |buffer| else offset + PLP_CHUNK_SIZE;
      var chunk := buffer[offset..end];
      assert chunk == buffer[offset..][..|chunk|] && buffer[offset..][|chunk|..] == buffer[end..];
      var size := LittleEndian(|chunk|, 4);
      Assoc(r, size + chunk, ChunkBytes(Chop(buffer[end..])));
      Assoc(r, size, chunk);
      r := r + size;
      r := r + chunk;
      offset := end;
    }
    assert buffer[offset..] == [];
    r := r + LittleEndian(0, 4);
  }

  // ---- locality ----

  lemma GetTypeInfoLocal(input: Bytes, tail: Bytes)
    requires GetTypeInfo(input).Got?
    ensures GetTypeInfo(input + tail) == GetTypeInfo(input).Before(tail)
  {
    ReadersLocal(input, tail);
    var ty := GetDataType(input).value;
    GetMetaLocal(MetaOf(ty), ty, input[1..], tail);
  }

  lemma GetCollationLocal(input: Bytes, tail: Bytes)
    requires GetCollation(input).Got?
    ensures GetCollation(input + tail) == GetCollation(input).Before(tail)
  {
    ReadersLocal(input, tail);
    ReadersLocal(ReadU32(input).rest, tail);
  }

  lemma NumericMetaLocal(ty: DataType, input: Bytes, tail: Bytes)
    requires GetMeta(NumericSize, ty, input).Got?
    ensures GetMeta(NumericSize, ty, input + tail) == GetMeta(NumericSize, ty, input).Before(tail)
  {
    assert (input + tail)[1..] == input[1..] + tail;
    assert (input[1..] + tail)[1..] == input[1..][1..] + tail;
    assert (input[1..][1..] + tail)[1..] == input[1..][1..][1..] + tail;
  }

  lemma CollatedMetaLocal(ty: DataType, input: Bytes, tail: Bytes)
    requires GetMeta(ShortSizeCollation, ty, input).Got?
    ensures GetMeta(ShortSizeCollation, ty, input + tail) == GetMeta(ShortSizeCollation, ty, input).Before(tail)
  {
    assert (input + tail)[2..] == input[2..] + tail;
    GetCollationLocal(input[2..], tail);
  }

  lemma GetMetaLocal(meta: Meta, ty: DataType, input: Bytes, tail: Bytes)
    requires GetMeta(meta, ty, input).Got?
    ensures GetMeta(meta, ty, input + tail) == GetMeta(meta, ty, input).Before(tail)
  {
    match meta {
      case NumericSize => NumericMetaLocal(ty, input, tail);
      case ShortSizeCollation => CollatedMetaLocal(ty, input, tail);
      case _ => ReadersLocal(input, tail);
    }
  }

  lemma {:induction false} GetChunksLocal(input: Bytes, tail: Bytes)
    requires GetChunks(input).Got?
    ensures GetChunks(input + tail) == GetChunks(input).Before(tail)
    decreases |input|
  {
    ReadersLocal(input, tail);
    var size := ReadU32(input);
    if size.value != 0 {
      TakeLocal(size.rest, size.value, tail);
      GetChunksLocal(Take(size.rest, size.value).rest, tail);
    }
  }

  lemma GetValueLocal(t: TypeInfo, input: Bytes, tail: Bytes)
    requires GetValue(t, input).Got?
    ensures GetValue(t, input + tail) == GetValue(t, input).Before(tail)
  {
    LaidOutLocal(LayoutOf(t.ty), t.size, input, tail);
  }

  lemma LaidOutLocal(layout: Layout, declared: U32, input: Bytes, tail: Bytes)
    requires GetLaidOut(layout, declared, input).Got?
    ensures GetLaidOut(layout, declared, input + tail) == GetLaidOut(layout, declared, input).Before(tail)
  {
    ReadersLocal(input, tail);
    match layout {
      case NoValue =>
      case Fixed => TakeLocal(input, declared, tail);
      case ByteLen | ByteLenText =>
        if GetLaidOut(layout, declared, input).value.Some? { TakeLocal(input[1..], input[0], tail); }
      case ShortLen =>
        if declared == 0xffff {
          var header := ReadU64(input);
          if header.value != PLP_NULL { GetChunksLocal(header.rest, tail); }
        } else if GetLaidOut(layout, declared, input).value.Some? {
          TakeLocal(input[2..], ReadU16(input).value, tail);
        }
      case LongLen =>
        if GetLaidOut(layout, declared, input).value.Some? { TakeLocal(ReadU32(input).rest, ReadU32(input).value, tail); }
    }
  }

  // ---- a reader never leaves more than it was given ----

  lemma TypeInfoShrinks(input: Bytes)
    requires GetTypeInfo(input).Got?
    ensures |GetTypeInfo(input).rest| < |input|
  {
    hide DataTypeOf, MetaOf;
    MetaShrinks(MetaOf(GetDataType(input).value), GetDataType(input).value, input[1..]);
  }

  lemma MetaShrinks(meta: Meta, ty: DataType, input: Bytes)
    requires GetMeta(meta, ty, input).Got?
    ensures |GetMeta(meta, ty, input).rest| <= |input|
  {
  }

  lemma ValueShrinks(t: TypeInfo, input: Bytes)
    requires GetValue(t, input).Got?
    ensures |GetValue(t, input).rest| <= |input|
  {
    LaidOutShrinks(LayoutOf(t.ty), t.size, input);
  }

  lemma LaidOutShrinks(layout: Layout, declared: U32, input: Bytes)
    requires GetLaidOut(layout, declared, input).Got?
    ensures |GetLaidOut(layout, declared, input).rest| <= |input|
  {
    if layout.ShortLen? && declared == 0xffff && ReadU64(input).Got? {
      ChunksConsume(ReadU64(input).rest);
    }
  }

  /** The two lengths that are no lengths: eight bytes 0xff are NULL, and 0xfe in front of seven of them announce chunks
      of an unknown total. */
  lemma PlpMarkers(chunks: seq<Bytes>, tail: Bytes)
    requires LegalChunks(chunks)
    ensures PlpBytes(None) == [0xff, 0xff, 0xff, 0xff, 0xff, 0xff, 0xff, 0xff]
    ensures GetBigBlob([0xff, 0xff, 0xff, 0xff, 0xff, 0xff, 0xff, 0xff] + tail) == Got(None, tail)
    ensures GetBigBlob([0xfe, 0xff, 0xff, 0xff, 0xff, 0xff, 0xff, 0xff] + ChunkBytes(chunks) + tail)
            == Got(Some(Join(chunks)), tail)
  {
    hide LittleEndian, GetBigBlob, ChunkBytes, Join;
    LittleEndianFour(0xff, 0xff, 0xff, 0xff);
    LittleEndianEight(0xff, 0xff, 0xff, 0xff, U32_MAX);
    LittleEndianEight(0xfe, 0xff, 0xff, 0xff, U32_MAX);
    assert [0xff as Byte, 0xff, 0xff, 0xff] + [0xff, 0xff, 0xff, 0xff] == [0xff, 0xff, 0xff, 0xff, 0xff, 0xff, 0xff, 0xff];
    assert [0xfe as Byte, 0xff, 0xff, 0xff] + [0xff, 0xff, 0xff, 0xff] == [0xfe, 0xff, 0xff, 0xff, 0xff, 0xff, 0xff, 0xff];
    PlpReadsBack(None, tail);
    AnyChunkingReadsBack(PLP_UNKNOWN, chunks, tail);
  }
}
