/** ROW and NBCROW tokens (sections 2.2.7.19 and 2.2.7.13 of [MS-TDS]). */
module Rows {
  import opened Wire
  import T = TypeInfos

  type Value = Option<Bytes>

  function BitmapLength(columns: nat): nat { (columns + 7) / 8 }

  /** Bit `index` of a null bitmap, lowest bit of the first byte first. */
  predicate NullBit(nulls: Bytes, index: nat)
    requires index / 8 < |nulls|
  {
    nulls[index / 8] / Pow2(index % 8) % 2 == 1
  }

  /** Is the value of column `index` only a bit in the bitmap? */
  predicate Skipped(nulls: Option<Bytes>, index: nat, columns: nat)
    requires index < columns && (nulls.Some? ==> |nulls.value| == BitmapLength(columns))
  {
    nulls.Some? && NullBit(nulls.value, index)
  }

  function GetCells(nulls: Option<Bytes>, columns: seq<T.TypeInfo>, index: nat, input: Bytes): (r: Read<seq<Value>>)
    requires index <= |columns| && (nulls.Some? ==> |nulls.value| == BitmapLength(|columns|))
    ensures r.Got? ==> |r.value| == |columns| - index
    decreases |columns| - index
  {
    if index == |columns| then Got([], input)
    else if Skipped(nulls, index, |columns|) then
      var (later, rest) :- GetCells(nulls, columns, index + 1, input);
      Got([None] + later, rest)
    else
      var (value, rest) :- T.GetValue(columns[index], input);
      var (later, rest) :- GetCells(nulls, columns, index + 1, rest);
      Got([value] + later, rest)
  }

  /** A row has one value for each column, or it is not read at all. */
  function GetRow(nullable: bool, columns: seq<T.TypeInfo>, input: Bytes): (r: Read<seq<Value>>)
    ensures r.Got? ==> |r.value| == |columns|
  {
    if nullable then
      var (nulls, rest) :- Take(input, BitmapLength(|columns|));
      GetCells(Some(nulls), columns, 0, rest)
    else GetCells(None, columns, 0, input)
  }

  /** The driver's row reader: a loop over the columns that pushes values. */
  method RowGet(input: Bytes, nullable: bool, columns: seq<T.TypeInfo>) returns (r: Read<seq<Value>>)
    ensures r == GetRow(nullable, columns, input)
  {
    hide T.GetValue, NullBit, BitmapLength;
    var nulls: Option<Bytes> := None;
    var rest := input;
    if nullable {
      var bitmap := Take(input, BitmapLength(|columns|));
      if bitmap.Fail? {
        return Fail(bitmap.error);
      }
      nulls, rest := Some(bitmap.value), bitmap.rest;
    }
    ghost var start := rest;
    var values: seq<Value> := [];
    var index := 0;
    OntoStep([], [], GetCells(nulls, columns, 0, start));
    while index < |columns|
      invariant index <= |columns|
      invariant GetCells(nulls, columns, 0, start) == Onto(values, GetCells(nulls, columns, index, rest))
    {
      var value: Value := None;
      if !Skipped(nulls, index, |columns|) {
        var read := T.GetValue(columns[index], rest);
        if read.Fail? {
          return Fail(read.error);
        }
        value, rest := read.value, read.rest;
      }
      OntoStep(values, [value], GetCells(nulls, columns, index + 1, rest));
      values := values + [value];
      index := index + 1;
    }
    assert values + [] == values;
    return Got(values, rest);
  }

  // ---- what a server sends ----

  /** Values a column of the given layout can carry in a row. */
  predicate Expressible(layout: T.Layout, size: U32, value: Value) {
    match layout
    case NoValue => value.None?
    case Fixed => value.Some? && |value.value| == size
    case ByteLen => value.Some? ==> 0 < |value.value| < 0xff
    case ByteLenText => value.Some? ==> |value.value| < 0xff
    case ShortLen => value.Some? ==> if size == 0xffff then |value.value| <= T.MAX_CAPACITY else |value.value| < 0xffff
    case LongLen => value.Some? ==> |value.value| < 0xffff_ffff
  }

  function CellBytes(layout: T.Layout, size: U32, value: Value): Bytes
    requires Expressible(layout, size, value)
  {
    match layout
    case NoValue => []
    case Fixed => value.value
    case ByteLen => if value.None? then [0] else [|value.value|] + value.value
    case ByteLenText => if value.None? then [0xff] else [|value.value|] + value.value
    case ShortLen =>
      if size == 0xffff then T.PlpBytes(value)
      else if value.None? then Le16(0xffff) else Le16(|value.value|) + value.value
    case LongLen =>
      if value.None? then LittleEndian(0xffff_ffff, 4) else LittleEndian(|value.value|, 4) + value.value
  }

  lemma CellReadsBack(layout: T.Layout, size: U32, value: Value, tail: Bytes)
    requires Expressible(layout, size, value)
    ensures T.GetLaidOut(layout, size, CellBytes(layout, size, value) + tail) == Got(value, tail)
  {
    hide T.GetBigBlob, T.PlpBytes, LittleEndian, ReadU32;
    match layout {
      case NoValue => assert [] + tail == tail;
      case Fixed => TakeExact(value.value, tail);
      case ByteLen | ByteLenText =>
        if value.Some? {
          Assoc([|value.value|], value.value, tail);
          ReadByteExact(|value.value|, value.value + tail);
          TakeExact(value.value, tail);
        } else {
          ReadByteExact(CellBytes(layout, size, value)[0], tail);
        }
      case ShortLen =>
        if size == 0xffff {
          T.PlpReadsBack(value, tail);
        } else if value.Some? {
          Assoc(Le16(|value.value|), value.value, tail);
          ReadU16Exact(|value.value|, value.value + tail);
          TakeExact(value.value, tail);
        } else {
          ReadU16Exact(0xffff, tail);
        }
      case LongLen =>
        if value.Some? {
          ReadU32Front(|value.value|, value.value, tail);
          TakeExact(value.value, tail);
        } else {
          ReadU32Exact(0xffff_ffff, tail);
        }
    }
  }

  predicate CellFits(t: T.TypeInfo, value: Value) { Expressible(T.LayoutOf(t.ty), t.size, value) }

  function Cell(t: T.TypeInfo, value: Value): Bytes
    requires CellFits(t, value)
  {
    CellBytes(T.LayoutOf(t.ty), t.size, value)
  }

  /** Rows a ROW token can carry. */
  predicate RowFits(columns: seq<T.TypeInfo>, values: seq<Value>) {
    |values| == |columns| && forall i | 0 <= i < |columns| :: CellFits(columns[i], values[i])
  }

  /** Rows an NBCROW token can carry: nulls of any type, since they are bits only. */
  predicate NbcRowFits(columns: seq<T.TypeInfo>, values: seq<Value>) {
    |values| == |columns| && forall i | 0 <= i < |columns| :: values[i].Some? ==> CellFits(columns[i], values[i])
  }

  function RowBytes(columns: seq<T.TypeInfo>, values: seq<Value>, index: nat): Bytes
    requires RowFits(columns, values) && index <= |columns|
    decreases |columns| - index
  {
    if index == |columns| then [] else Cell(columns[index], values[index]) + RowBytes(columns, values, index + 1)
  }

  function PresentBytes(columns: seq<T.TypeInfo>, values: seq<Value>, index: nat): Bytes
    requires NbcRowFits(columns, values) && index <= |columns|
    decreases |columns| - index
  {
    if index == |columns| then []
    else if values[index].None? then PresentBytes(columns, values, index + 1)
    else Cell(columns[index], values[index]) + PresentBytes(columns, values, index + 1)
  }

  /** A bitmap for these values; the padding bits behind the last column may be anything. */
  predicate Marks(nulls: Bytes, values: seq<Value>) {
    && |nulls| == BitmapLength(|values|)
    && forall i | 0 <= i < |values| :: NullBit(nulls, i) <==> values[i].None?
  }

  lemma {:induction false} RowReadsBackFrom(columns: seq<T.TypeInfo>, values: seq<Value>, index: nat, tail: Bytes)
    requires RowFits(columns, values) && index <= |columns|
    ensures GetCells(None, columns, index, RowBytes(columns, values, index) + tail) == Got(values[index..], tail)
    decreases |columns| - index
  {
    hide T.GetLaidOut, CellBytes, T.LayoutOf, Expressible;
    if index == |columns| {
      assert [] + tail == tail;
    } else {
      var later := RowBytes(columns, values, index + 1);
      Assoc(Cell(columns[index], values[index]), later, tail);
      CellReadsBack(T.LayoutOf(columns[index].ty), columns[index].size, values[index], later + tail);
      RowReadsBackFrom(columns, values, index + 1, tail);
      assert values[index..] == [values[index]] + values[index + 1..];
    }
  }

  lemma {:induction false} PresentReadsBackFrom(nulls: Bytes, columns: seq<T.TypeInfo>, values: seq<Value>, index: nat, tail: Bytes)
    requires NbcRowFits(columns, values) && Marks(nulls, values) && index <= |columns|
    ensures GetCells(Some(nulls), columns, index, PresentBytes(columns, values, index) + tail) == Got(values[index..], tail)
    decreases |columns| - index
  {
    hide T.GetLaidOut, CellBytes, T.LayoutOf, Expressible, NullBit;
    if index == |columns| {
      assert [] + tail == tail;
    } else {
      var later := PresentBytes(columns, values, index + 1);
      if values[index].Some? {
        Assoc(Cell(columns[index], values[index]), later, tail);
        CellReadsBack(T.LayoutOf(columns[index].ty), columns[index].size, values[index], later + tail);
      }
      PresentReadsBackFrom(nulls, columns, values, index + 1, tail);
      assert values[index..] == [values[index]] + values[index + 1..];
    }
  }

  /** For any number of columns: a ROW decodes to exactly its values and consumes exactly its bytes. */
  lemma RowReadsBack(columns: seq<T.TypeInfo>, values: seq<Value>, tail: Bytes)
    requires RowFits(columns, values)
    ensures GetRow(false, columns, RowBytes(columns, values, 0) + tail) == Got(values, tail)
  {
    RowReadsBackFrom(columns, values, 0, tail);
    assert values[0..] == values;
  }

  /** And so does an NBCROW, whatever its padding bits. */
  lemma NbcRowReadsBack(nulls: Bytes, columns: seq<T.TypeInfo>, values: seq<Value>, tail: Bytes)
    requires NbcRowFits(columns, values) && Marks(nulls, values)
    ensures GetRow(true, columns, nulls + PresentBytes(columns, values, 0) + tail) == Got(values, tail)
  {
    hide NullBit;
    Assoc(nulls, PresentBytes(columns, values, 0), tail);
    TakeExact(nulls, PresentBytes(columns, values, 0) + tail);
    PresentReadsBackFrom(nulls, columns, values, 0, tail);
    assert values[0..] == values;
  }

  /** Where both forms exist they decode to the same row. */
  lemma FormsAgree(nulls: Bytes, columns: seq<T.TypeInfo>, values: seq<Value>, tail: Bytes)
    requires RowFits(columns, values) && Marks(nulls, values)
    ensures NbcRowFits(columns, values)
    ensures GetRow(true, columns, nulls + PresentBytes(columns, values, 0) + tail)
            == GetRow(false, columns, RowBytes(columns, values, 0) + tail)
            == Got(values, tail)
  {
    RowReadsBack(columns, values, tail);
    NbcRowReadsBack(nulls, columns, values, tail);
  }

  // ---- every row has a bitmap ----

  /** The byte whose bit `k` says whether value `k` is missing, for the first eight values. */
  function MarkByte(values: seq<Value>, upTo: nat): (b: nat)
    requires upTo <= 8
    ensures b < Pow2(upTo)
  {
    if upTo == 0 then 0
    else MarkByte(values, upTo - 1) + if upTo <= |values| && values[upTo - 1].None? then Pow2(upTo - 1) else 0
  }

  lemma HighBitGone(b: nat, p: nat, d: nat)
    requires p > 0 && d > 0
    ensures (b + 2 * p * d) / p % 2 == b / p % 2
  {
    QuotientUnique(b + 2 * p * d, p, b / p + 2 * d, b % p);
  }

  lemma TopBit(low: nat, p: nat)
    requires low < p
    ensures (low + p) / p % 2 == 1 && low / p % 2 == 0
  {
    QuotientUnique(low + p, p, 1, low);
    QuotientUnique(low, p, 0, low);
  }

  lemma DoubledProduct(a: int, b: int)
    ensures 2 * (2 * a * b) == 2 * a * (2 * b)
  {
  }

  lemma {:induction false} Pow2Splits(k: nat, n: nat)
    requires k < n
    ensures Pow2(n) == 2 * Pow2(k) * Pow2(n - 1 - k)
    decreases n
  {
    if n > k + 1 {
      Pow2Splits(k, n - 1);
      DoubledProduct(Pow2(k), Pow2(n - 2 - k));
    }
  }

  /** Each bit of the byte is the one that was put there. */
  lemma {:induction false} MarkByteBits(values: seq<Value>, upTo: nat, k: nat)
    requires k < upTo <= 8
    ensures MarkByte(values, upTo) / Pow2(k) % 2 == 1 <==> k < |values| && values[k].None?
    decreases upTo
  {
    hide Pow2;
    var low := MarkByte(values, upTo - 1);
    if k == upTo - 1 {
      TopBit(low, Pow2(k));
    } else {
      MarkByteBits(values, upTo - 1, k);
      Pow2Splits(k, upTo - 1);
      HighBitGone(low, Pow2(k), Pow2(upTo - 2 - k));
    }
  }

  function Bitmap(values: seq<Value>): (nulls: Bytes)
    ensures |nulls| == BitmapLength(|values|)
    decreases |values|
  {
    if |values| == 0 then []
    else
      Pow2Values();
      [MarkByte(values, 8)] + Bitmap(if |values| <= 8 then [] else values[8..])
  }

  lemma ShiftedBit(b: Byte, nulls: Bytes, i: nat)
    requires 8 <= i && (i - 8) / 8 < |nulls|
    ensures i / 8 == (i - 8) / 8 + 1
    ensures NullBit([b] + nulls, i) == NullBit(nulls, i - 8)
  {
    hide Pow2;
    assert i % 8 == (i - 8) % 8;
  }

  lemma FirstByteBit(values: seq<Value>, nulls: Bytes, i: nat)
    requires i < 8 && i < |values| && MarkByte(values, 8) < 256
    ensures NullBit([MarkByte(values, 8)] + nulls, i) <==> values[i].None?
  {
    hide Pow2, MarkByte;
    MarkByteBits(values, 8, i);
  }

  lemma {:induction false} BitmapMarks(values: seq<Value>)
    ensures Marks(Bitmap(values), values)
    decreases |values|
  {
    hide Pow2, MarkByte, NullBit;
    Pow2Values();
    if |values| > 0 {
      var later := if |values| <= 8 then [] else values[8..];
      BitmapMarks(later);
      forall i | 0 <= i < |values| ensures NullBit(Bitmap(values), i) <==> values[i].None? {
        if i < 8 {
          FirstByteBit(values, Bitmap(later), i);
        } else {
          ShiftedBit(MarkByte(values, 8), Bitmap(later), i);
          assert values[i] == later[i - 8];
        }
      }
    }
  }

  // ---- locality ----

  lemma {:induction false} GetCellsLocal(nulls: Option<Bytes>, columns: seq<T.TypeInfo>, index: nat, input: Bytes, tail: Bytes)
    requires index <= |columns| && (nulls.Some? ==> |nulls.value| == BitmapLength(|columns|))
    requires GetCells(nulls, columns, index, input).Got?
    ensures GetCells(nulls, columns, index, input + tail) == GetCells(nulls, columns, index, input).Before(tail)
    decreases |columns| - index
  {
    hide T.GetValue, NullBit;
    if index < |columns| {
      if Skipped(nulls, index, |columns|) {
        GetCellsLocal(nulls, columns, index + 1, input, tail);
      } else {
        T.GetValueLocal(columns[index], input, tail);
        GetCellsLocal(nulls, columns, index + 1, T.GetValue(columns[index], input).rest, tail);
      }
    }
  }

  lemma GetRowLocal(nullable: bool, columns: seq<T.TypeInfo>, input: Bytes, tail: Bytes)
    requires GetRow(nullable, columns, input).Got?
    ensures GetRow(nullable, columns, input + tail) == GetRow(nullable, columns, input).Before(tail)
  {
    if nullable {
      TakeLocal(input, BitmapLength(|columns|), tail);
      GetCellsLocal(Some(Take(input, BitmapLength(|columns|)).value), columns, 0, Take(input, BitmapLength(|columns|)).rest, tail);
    } else {
      GetCellsLocal(None, columns, 0, input, tail);
    }
  }

  lemma {:induction false} CellsShrink(nulls: Option<Bytes>, columns: seq<T.TypeInfo>, index: nat, input: Bytes)
    requires index <= |columns| && (nulls.Some? ==> |nulls.value| == BitmapLength(|columns|))
    requires GetCells(nulls, columns, index, input).Got?
    ensures |GetCells(nulls, columns, index, input).rest| <= |input|
    decreases |columns| - index
  {
    hide T.GetValue, NullBit;
    if index < |columns| {
      if Skipped(nulls, index, |columns|) {
        CellsShrink(nulls, columns, index + 1, input);
      } else {
        T.ValueShrinks(columns[index], input);
        CellsShrink(nulls, columns, index + 1, T.GetValue(columns[index], input).rest);
      }
    }
  }

  lemma RowShrinks(nullable: bool, columns: seq<T.TypeInfo>, input: Bytes)
    requires GetRow(nullable, columns, input).Got?
    ensures |GetRow(nullable, columns, input).rest| <= |input|
  {
    hide T.GetValue, NullBit;
    if nullable {
      var bitmap := Take(input, BitmapLength(|columns|));
      CellsShrink(Some(bitmap.value), columns, 0, bitmap.rest);
    } else {
      CellsShrink(None, columns, 0, input);
    }
  }

  /** Bit `j` of byte `k`, counted from the lowest, marks column 8k + j. */
  lemma LowestBitFirst(nulls: Bytes, k: nat, j: nat, high: nat, bit: nat, low: nat)
    requires k < |nulls| && j < 8 && bit <= 1 && low < Pow2(j)
    requires nulls[k] as int == Pow2(j) * (2 * high + bit) + low
    ensures NullBit(nulls, 8 * k + j) <==> bit == 1
  {
    hide Pow2;
    assert (8 * k + j) / 8 == k && (8 * k + j) % 8 == j;
    QuotientUnique(nulls[k], Pow2(j), 2 * high + bit, low);
  }
}
