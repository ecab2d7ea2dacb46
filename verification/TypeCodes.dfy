/** TYPE_INFO and values by their raw type codes (sections 2.2.5.4.1 to 2.2.5.4.3 of [MS-TDS]). */
module TypeCodes {
  import opened Wire
  import T = TypeInfos
  import Arguments
  import Query
  import StatementHandles
  import Numeric

  /** The code is followed by these description bytes, the value by whatever comes next. */
  predicate ReadsAs(code: Byte, meta: Bytes, body: Bytes, tail: Bytes, size: nat, value: Option<Bytes>) {
    var r := Arguments.ReadTyped([code] + (meta + (body + tail)));
    r.Got? && r.value.0.size == size && r.value.1 == value && r.rest == tail
  }

  // ---- the table of codes ----

  function MetaFor(code: Byte): Option<T.Meta> {
    var ty := T.DataTypeOf(code);
    if ty.None? then None else Some(T.MetaOf(ty.value))
  }

  function LayoutFor(code: Byte): Option<T.Layout> {
    var ty := T.DataTypeOf(code);
    if ty.None? then None else Some(T.LayoutOf(ty.value))
  }

  lemma FixedCodes(code: Byte)
    ensures code in {0x30, 0x32} ==> MetaFor(code) == Some(T.Bare(1)) && LayoutFor(code) == Some(T.Fixed)
    ensures code == 0x34 ==> MetaFor(code) == Some(T.Bare(2)) && LayoutFor(code) == Some(T.Fixed)
    ensures code in {0x38, 0x3a, 0x3b, 0x7a} ==> MetaFor(code) == Some(T.Bare(4)) && LayoutFor(code) == Some(T.Fixed)
    ensures code in {0x3c, 0x3d, 0x3e, 0x7f} ==> MetaFor(code) == Some(T.Bare(8)) && LayoutFor(code) == Some(T.Fixed)
    ensures code == 0x1f ==> MetaFor(code) == Some(T.Bare(0)) && LayoutFor(code) == Some(T.NoValue)
    ensures code == 0x28 ==> MetaFor(code) == Some(T.Bare(3)) && LayoutFor(code) == Some(T.ByteLen)
  {
  }

  lemma ByteSizedCodes(code: Byte)
    ensures code in {0x24, 0x26, 0x68, 0x6d, 0x6e, 0x6f} ==>
              MetaFor(code) == Some(T.ByteSize) && LayoutFor(code) == Some(T.ByteLen)
    ensures code in {0x2f, 0x27, 0x2d, 0x25} ==> MetaFor(code) == Some(T.ByteSize) && LayoutFor(code) == Some(T.ByteLenText)
    ensures code == 0x26 ==> T.DataTypeOf(code) == Some(T.IntN)
  {
  }

  lemma DecimalCodes(code: Byte)
    requires code in {0x37, 0x3f, 0x6a, 0x6c}
    ensures MetaFor(code) == Some(T.NumericSize) && LayoutFor(code) == Some(T.ByteLen)
    ensures T.DataTypeOf(code).value in {T.Decimal, T.Numeric, T.DecimalN, T.NumericN}
  {
  }

  lemma TimedCodes(code: Byte)
    requires code in {0x29, 0x2a, 0x2b}
    ensures MetaFor(code) == Some(T.Scaled(if code == 0x29 then 0 else if code == 0x2a then 3 else 5))
    ensures LayoutFor(code) == Some(T.ByteLen)
  {
  }

  lemma BigCodes(code: Byte)
    requires code in {0xa5, 0xad, 0xa7, 0xaf, 0xe7, 0xef}
    ensures MetaFor(code) == Some(if code in {0xa5, 0xad} then T.ShortSize else T.ShortSizeCollation)
    ensures LayoutFor(code) == Some(T.ShortLen)
  {
  }

  lemma RefusedCodes(code: Byte)
    ensures code in {0x22, 0x23, 0x62, 0x63, 0xf0, 0xf1} ==> MetaFor(code) == Some(T.Unsupported)
  {
  }

  // ---- reading by code ----

  lemma CodeRead(code: Byte, rest: Bytes)
    ensures T.DataTypeOf(code).Some? ==>
              T.GetTypeInfo([code] + rest) == T.GetMeta(T.MetaOf(T.DataTypeOf(code).value), T.DataTypeOf(code).value, rest)
    ensures T.DataTypeOf(code).None? ==> T.GetTypeInfo([code] + rest) == Fail(UnknownDataType(code))
  {
    hide T.DataTypeOf, T.MetaOf, T.GetMeta;
    ReadByteExact(code, rest);
  }

  lemma Nothing(body: Bytes, tail: Bytes)
    ensures [] + (body + tail) == body + tail && [] + tail == tail && body + [] == body
  {
  }

  /** Fixed types: the code alone says how many bytes the value takes, and no value of them is NULL. */
  lemma FixedValues(code: Byte, body: Bytes, tail: Bytes)
    requires match |body|
             case 1 => code in {0x30, 0x32}
             case 2 => code == 0x34
             case 4 => code in {0x38, 0x3a, 0x3b, 0x7a}
             case 8 => code in {0x3c, 0x3d, 0x3e, 0x7f}
             case _ => false
    ensures ReadsAs(code, [], body, tail, |body|, Some(body))
  {
    FixedCodes(code);
    hide T.DataTypeOf, T.MetaOf, T.LayoutOf;
    Nothing(body, tail);
    CodeRead(code, body + tail);
    TakeExact(body, tail);
  }

  /** The null type takes no bytes at all. */
  lemma NullValue(tail: Bytes)
    ensures ReadsAs(0x1f, [], [], tail, 0, None)
  {
    FixedCodes(0x1f);
    hide T.DataTypeOf, T.MetaOf, T.LayoutOf;
    Nothing([], tail);
    CodeRead(0x1f, tail);
  }

  /** Value bytes behind a one-byte length. */
  lemma CountedByByte(t: T.TypeInfo, n: Byte, data: Bytes, tail: Bytes)
    requires T.LayoutOf(t.ty).ByteLen? || T.LayoutOf(t.ty).ByteLenText?
    ensures n == 0xff || (n == 0 && T.LayoutOf(t.ty).ByteLen?) ==> T.GetValue(t, [n] + tail) == Got(None, tail)
    ensures n == |data| && n < 0xff && (n > 0 || T.LayoutOf(t.ty).ByteLenText?) ==>
              T.GetValue(t, [n] + data + tail) == Got(Some(data), tail)
  {
    hide T.LayoutOf;
    ReadByteExact(n, tail);
    ReadByteExact(n, data + tail);
    Assoc([n], data, tail);
    TakeExact(data, tail);
  }

  /** Nullable numbers, dates, times and the unique identifier: a length byte of 0 or 0xff is NULL, any other counts the
      value's bytes. */
  lemma ByteCountedValues(code: Byte, declared: Byte, n: Byte, data: Bytes, tail: Bytes)
    requires code in {0x24, 0x26, 0x68, 0x6d, 0x6e, 0x6f}
    ensures n == 0 || n == 0xff ==> ReadsAs(code, [declared], [n], tail, declared, None)
    ensures n == |data| && 0 < n < 0xff ==> ReadsAs(code, [declared], [n] + data, tail, declared, Some(data))
  {
    ByteSizedCodes(code);
    hide T.DataTypeOf, T.MetaOf, T.LayoutOf, T.GetTypeInfo, T.GetValue;
    SizedByByte(code, declared, [n] + tail);
    SizedByByte(code, declared, [n] + data + tail);
    CountedByByte(T.Plain(T.DataTypeOf(code).value, declared), n, data, tail);
  }

  lemma SizedByByte(code: Byte, declared: Byte, rest: Bytes)
    requires code in {0x24, 0x26, 0x68, 0x6d, 0x6e, 0x6f, 0x2f, 0x27, 0x2d, 0x25}
    ensures T.DataTypeOf(code).Some?
    ensures T.GetTypeInfo([code] + ([declared] + rest)) == Got(T.Plain(T.DataTypeOf(code).value, declared), rest)
  {
    ByteSizedCodes(code);
    hide T.DataTypeOf, T.MetaOf, T.LayoutOf;
    CodeRead(code, [declared] + rest);
    ReadByteExact(declared, rest);
  }

  /** The old text and binary types: only a length byte of 0xff is NULL, so that an empty value is a value. */
  lemma LegacyTextValues(code: Byte, declared: Byte, n: Byte, data: Bytes, tail: Bytes)
    requires code in {0x2f, 0x27, 0x2d, 0x25}
    ensures n == 0xff ==> ReadsAs(code, [declared], [n], tail, declared, None)
    ensures n == |data| && n < 0xff ==> ReadsAs(code, [declared], [n] + data, tail, declared, Some(data))
  {
    ByteSizedCodes(code);
    hide T.DataTypeOf, T.MetaOf, T.LayoutOf, T.GetTypeInfo, T.GetValue;
    SizedByByte(code, declared, [n] + tail);
    SizedByByte(code, declared, [n] + data + tail);
    CountedByByte(T.Plain(T.DataTypeOf(code).value, declared), n, data, tail);
  }

  /** Decimals announce size, precision and scale, in this order. */
  lemma DecimalInfo(code: Byte, size: Byte, precision: Byte, scale: Byte, rest: Bytes)
    requires code in {0x37, 0x3f, 0x6a, 0x6c}
    ensures var r := T.GetTypeInfo([code] + ([size, precision, scale] + rest));
            && r.Got? && r.rest == rest && r.value.size == size && r.value.precision == precision && r.value.scale == scale
            && StatementHandles.IsDecimal(r.value) && T.LayoutOf(r.value.ty).ByteLen?
  {
    DecimalCodes(code);
    hide T.DataTypeOf, T.MetaOf, T.LayoutOf;
    CodeRead(code, [size, precision, scale] + rest);
    assert [size, precision, scale] + rest == [size] + ([precision] + ([scale] + rest));
    ReadByteExact(size, [precision] + ([scale] + rest));
    ReadByteExact(precision, [scale] + rest);
    ReadByteExact(scale, rest);
  }

  lemma DecimalValues(code: Byte, size: Byte, precision: Byte, scale: Byte, n: Byte, data: Bytes, tail: Bytes)
    requires code in {0x37, 0x3f, 0x6a, 0x6c}
    ensures n == 0 || n == 0xff ==> ReadsAs(code, [size, precision, scale], [n], tail, size, None)
    ensures n == |data| && 0 < n < 0xff ==> ReadsAs(code, [size, precision, scale], [n] + data, tail, size, Some(data))
  {
    hide T.GetTypeInfo, T.GetValue, T.LayoutOf, StatementHandles.IsDecimal;
    DecimalInfo(code, size, precision, scale, [n] + tail);
    DecimalInfo(code, size, precision, scale, [n] + data + tail);
    CountedByByte(T.GetTypeInfo([code] + ([size, precision, scale] + ([n] + tail))).value, n, data, tail);
    CountedByByte(T.GetTypeInfo([code] + ([size, precision, scale] + ([n] + data + tail))).value, n, data, tail);
  }

  /** Bytes of a time of day at a scale. */
  function TimeBytes(scale: Byte): nat { if scale < 3 then 3 else if scale < 5 then 4 else 5 }

  /** Dates take three bytes; times by their scale, which is at most seven, with three or five bytes of date and
      offset behind. */
  lemma TimedInfo(code: Byte, scale: Byte, rest: Bytes)
    requires code in {0x29, 0x2a, 0x2b}
    ensures var r := T.GetTypeInfo([code] + ([scale] + rest));
            if scale > 7 then r == Fail(InvalidScale(scale))
            else
              && r.Got? && r.rest == rest && r.value.scale == scale && T.LayoutOf(r.value.ty).ByteLen?
              && r.value.size == TimeBytes(scale) + (if code == 0x29 then 0 else if code == 0x2a then 3 else 5)
  {
    TimedCodes(code);
    hide T.DataTypeOf, T.MetaOf, T.LayoutOf;
    CodeRead(code, [scale] + rest);
    ReadByteExact(scale, rest);
  }

  lemma TimedValues(code: Byte, scale: Byte, n: Byte, data: Bytes, tail: Bytes)
    requires code in {0x29, 0x2a, 0x2b} && scale <= 7
    ensures var size := TimeBytes(scale) + (if code == 0x29 then 0 else if code == 0x2a then 3 else 5);
            && (n == 0 || n == 0xff ==> ReadsAs(code, [scale], [n], tail, size, None))
            && (n == |data| && 0 < n < 0xff ==> ReadsAs(code, [scale], [n] + data, tail, size, Some(data)))
  {
    hide T.GetTypeInfo, T.GetValue, T.LayoutOf, TimeBytes;
    TimedInfo(code, scale, [n] + tail);
    TimedInfo(code, scale, [n] + data + tail);
    CountedByByte(T.GetTypeInfo([code] + ([scale] + ([n] + tail))).value, n, data, tail);
    CountedByByte(T.GetTypeInfo([code] + ([scale] + ([n] + data + tail))).value, n, data, tail);
  }

  lemma DateInfo(rest: Bytes)
    ensures var r := T.GetTypeInfo([0x28] + rest);
            r.Got? && r.rest == rest && r.value.size == 3 && T.LayoutOf(r.value.ty).ByteLen?
  {
    FixedCodes(0x28);
    hide T.DataTypeOf, T.MetaOf, T.LayoutOf;
    CodeRead(0x28, rest);
  }

  lemma DateValues(n: Byte, data: Bytes, tail: Bytes)
    ensures n == 0 || n == 0xff ==> ReadsAs(0x28, [], [n], tail, 3, None)
    ensures n == |data| && 0 < n < 0xff ==> ReadsAs(0x28, [], [n] + data, tail, 3, Some(data))
  {
    DateInfo([n] + tail);
    DateInfo([n] + data + tail);
    hide T.GetTypeInfo, T.GetValue, T.LayoutOf;
    Nothing([n], tail);
    Nothing([n] + data, tail);
    CountedByByte(T.GetTypeInfo([0x28] + ([n] + tail)).value, n, data, tail);
    CountedByByte(T.GetTypeInfo([0x28] + ([n] + data + tail)).value, n, data, tail);
  }

  /** The big binary types announce a two-byte size, the text types a five-byte collation behind it. */
  lemma BigInfo(code: Byte, lo: Byte, hi: Byte, collation: Bytes, rest: Bytes)
    requires if code in {0xa5, 0xad} then collation == [] else code in {0xa7, 0xaf, 0xe7, 0xef} && |collation| == 5
    ensures var r := T.GetTypeInfo([code] + ([lo, hi] + collation + rest));
            && r.Got? && r.rest == rest && r.value.size == lo as int + 256 * hi as int && T.LayoutOf(r.value.ty).ShortLen?
            && (r.value.collation.Some? <==> collation != [])
            && (collation != [] ==> r.value.collation.value.sort == collation[4])
  {
    BigCodes(code);
    hide T.DataTypeOf, T.MetaOf, T.LayoutOf, T.GetCollation;
    CodeRead(code, [lo, hi] + collation + rest);
    assert ([lo, hi] + collation + rest)[2..] == collation + rest;
    if collation == [] {
      assert collation + rest == rest;
    } else {
      CollationRead(collation, rest);
    }
  }

  lemma CollationRead(collation: Bytes, rest: Bytes)
    requires |collation| == 5
    ensures T.GetCollation(collation + rest).Got? && T.GetCollation(collation + rest).rest == rest
    ensures T.GetCollation(collation + rest).value.sort == collation[4]
  {
    assert (collation + rest)[4..] == [collation[4]] + rest;
    ReadByteExact(collation[4], rest);
  }

  lemma CountedByWord(t: T.TypeInfo, lo: Byte, hi: Byte, data: Bytes, tail: Bytes)
    requires T.LayoutOf(t.ty).ShortLen? && t.size != 0xffff
    ensures lo == 0xff && hi == 0xff ==> T.GetValue(t, [lo, hi] + tail) == Got(None, tail)
    ensures lo as int + 256 * hi as int == |data| < 0xffff ==> T.GetValue(t, [lo, hi] + data + tail) == Got(Some(data), tail)
  {
    hide T.LayoutOf;
    assert ([lo, hi] + tail)[2..] == tail;
    assert ([lo, hi] + data + tail)[2..] == data + tail;
    TakeExact(data, tail);
  }

  /** Their values: 0xffff is NULL and any other two-byte length counts the value's bytes, unless the announced size is
      0xffff. */
  lemma BigValues(code: Byte, sizeLo: Byte, sizeHi: Byte, collation: Bytes, lo: Byte, hi: Byte, data: Bytes, tail: Bytes)
    requires if code in {0xa5, 0xad} then collation == [] else code in {0xa7, 0xaf, 0xe7, 0xef} && |collation| == 5
    requires sizeLo < 0xff || sizeHi < 0xff
    ensures var meta, size := [sizeLo, sizeHi] + collation, sizeLo as int + 256 * sizeHi as int;
            && (lo == 0xff && hi == 0xff ==> ReadsAs(code, meta, [lo, hi], tail, size, None))
            && (lo as int + 256 * hi as int == |data| < 0xffff ==> ReadsAs(code, meta, [lo, hi] + data, tail, size, Some(data)))
  {
    hide T.GetTypeInfo, T.GetValue, T.LayoutOf;
    BigInfo(code, sizeLo, sizeHi, collation, [lo, hi] + tail);
    BigInfo(code, sizeLo, sizeHi, collation, [lo, hi] + data + tail);
    var meta := [sizeLo, sizeHi] + collation;
    Assoc([sizeLo, sizeHi], collation, [lo, hi] + tail);
    Assoc([sizeLo, sizeHi], collation, [lo, hi] + data + tail);
    CountedByWord(T.GetTypeInfo([code] + (meta + ([lo, hi] + tail))).value, lo, hi, data, tail);
    CountedByWord(T.GetTypeInfo([code] + (meta + ([lo, hi] + data + tail))).value, lo, hi, data, tail);
  }

  /** No other code is read: six are known and refused, the rest are unknown. */
  lemma OtherCodes(code: Byte, rest: Bytes)
    ensures code in {0x22, 0x23, 0x62, 0x63, 0xf0, 0xf1} ==> T.GetTypeInfo([code] + rest) == Fail(UnsupportedDataType)
    ensures code !in {0x1f, 0x22, 0x23, 0x24, 0x25, 0x26, 0x27, 0x28, 0x29, 0x2a, 0x2b, 0x2d, 0x2f, 0x30, 0x32, 0x34, 0x37,
                      0x38, 0x3a, 0x3b, 0x3c, 0x3d, 0x3e, 0x3f, 0x62, 0x63, 0x68, 0x6a, 0x6c, 0x6d, 0x6e, 0x6f, 0x7a, 0x7f,
                      0xa5, 0xa7, 0xad, 0xaf, 0xe7, 0xef, 0xf0, 0xf1} ==>
              T.GetTypeInfo([code] + rest) == Fail(UnknownDataType(code))
  {
    RefusedCodes(code);
    if T.DataTypeOf(code).Some? {
      KnownCodes(code);
    }
    hide T.DataTypeOf, T.MetaOf;
    CodeRead(code, rest);
  }

  lemma KnownCodes(code: Byte)
    requires T.DataTypeOf(code).Some?
    ensures code in {0x1f, 0x22, 0x23, 0x24, 0x25, 0x26, 0x27, 0x28, 0x29, 0x2a, 0x2b, 0x2d, 0x2f, 0x30, 0x32, 0x34, 0x37,
                     0x38, 0x3a, 0x3b, 0x3c, 0x3d, 0x3e, 0x3f, 0x62, 0x63, 0x68, 0x6a, 0x6c, 0x6d, 0x6e, 0x6f, 0x7a, 0x7f,
                     0xa5, 0xa7, 0xad, 0xaf, 0xe7, 0xef, 0xf0, 0xf1}
  {
  }

  /** A handle byte by byte: the nullable integer type 0x26 of four bytes, then four little-endian bytes. */
  lemma HandleOnTheWire(id: int, tail: Bytes)
    requires -0x8000_0000 <= id < 0x8000_0000
    ensures Numeric.InWidth(id, 4)
    ensures var r := Query.GetTypedValue([0x26, 4, 4] + Numeric.SignedBytes(id, 4) + tail);
            r.Got? && r.rest == tail && StatementHandles.FirstI32([r.value]) == Ok(Some(id))
  {
    Pow256Values();
    var bytes := Numeric.SignedBytes(id, 4);
    hide Numeric.SignedBytes, Pow256, T.GetTypeInfo, T.GetValue, StatementHandles.FirstI32;
    assert [0x26, 4, 4] + bytes + tail == [0x26] + ([4] + ([4] + bytes + tail));
    ByteSizedCodes(0x26);
    hide T.DataTypeOf, T.MetaOf;
    SizedByByte(0x26, 4, [4] + bytes + tail);
    CountedByByte(T.Plain(T.IntN, 4), 4, bytes, tail);
    StatementHandles.HandleArrives(id, []);
    assert [Query.TypedValue(T.Plain(T.IntN, 4), Some(bytes))] + [] == [Query.TypedValue(T.Plain(T.IntN, 4), Some(bytes))];
  }
}
