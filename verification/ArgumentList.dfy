/** The argument buffer of a request: parameter bytes, declarations, and the readers that see them. */
module ArgumentList {
  import opened Wire
  import T = TypeInfos
  import opened Arguments

  // ---- declarations ----

  function Digits(n: nat): (s: string)
    ensures |s| > 0
  {
    var last := [('0' as int + n % 10) as char];
    if n < 10 then last else Digits(n / 10) + last
  }

  predicate IsDigitChar(c: char) { '0' <= c <= '9' }

  /** The number a run of digit characters denotes. */
  function CharsValue(s: string): nat
    requires forall c <- s :: IsDigitChar(c)
  {
    if |s| == 0 then 0
    else
      var last := s[|s| - 1];
      assert last in s && IsDigitChar(last);
      10 * CharsValue(s[..|s| - 1]) + (last as int - '0' as int)
  }

  /** Digits are decimal: they denote the number, without leading zeros. */
  lemma {:induction false} DigitsDenote(n: nat)
    ensures forall c <- Digits(n) :: IsDigitChar(c)
    ensures CharsValue(Digits(n)) == n
    ensures n > 0 ==> Digits(n)[0] != '0'
    decreases n
  {
    var s := Digits(n);
    if n < 10 {
      assert s[..0] == [];
    } else {
      DigitsDenote(n / 10);
      assert s[..|s| - 1] == Digits(n / 10);
      assert s[0] == Digits(n / 10)[0];
    }
  }

  function SizedDeclaration(keyword: string, size: U16, unit: nat): string
    requires unit > 0
  {
    keyword + if size == MAX then "(max)" else "(" + Digits(size / unit) + ")"
  }

  function Declaration(ti: MssqlTypeInfo, len: nat, isNull: bool): Result<string, ArgumentError> {
    match ti.kind
    case Bit => Ok("bit")
    case TinyInt => Ok("tinyint")
    case SmallInt => Ok("smallint")
    case Int => Ok("int")
    case BigInt => Ok("bigint")
    case Real => Ok("real")
    case Float => Ok("float")
    case NVarChar =>
      var size := DeclaredSize(ti, len, isNull);
      if size.Err? then Err(size.error) else Ok(SizedDeclaration("nvarchar", size.value, 2))
    case VarChar =>
      var size := DeclaredSize(ti, len, isNull);
      if size.Err? then Err(size.error) else Ok(SizedDeclaration("varchar", size.value, 1))
    case VarBinary =>
      var size := DeclaredSize(ti, len, isNull);
      if size.Err? then Err(size.error) else Ok(SizedDeclaration("varbinary", size.value, 1))
    case Decimal => Ok("decimal(" + Digits(AtLeastOne(ti.Precision())) + "," + Digits(ti.Scale()) + ")")
    case Date => Ok("date")
    case Time => Ok("time(" + Digits(ti.Scale()) + ")")
    case DateTime2 => Ok("datetime2(" + Digits(ti.Scale()) + ")")
    case DateTimeOffset => Ok("datetimeoffset(" + Digits(ti.Scale()) + ")")
    case UniqueIdentifier => Ok("uniqueidentifier")
    case _ => Err(UnsupportedType)
  }

  /** The protocol module's own rendering of a TYPE_INFO, for the types parameters use. */
  function Rendered(t: T.TypeInfo): string {
    match t.ty
    case BitN => "bit"
    case IntN => if t.size == 1 then "tinyint" else if t.size == 2 then "smallint" else if t.size == 4 then "int" else "bigint"
    case FloatN => if t.size == 4 then "real" else "float"
    case NVarChar => "nvarchar" + if t.size == 0xffff then "(max)" else "(" + Digits(t.size / 2) + ")"
    case BigVarChar => "bigvarchar" + if t.size == 0xffff then "(max)" else "(" + Digits(t.size) + ")"
    case BigVarBinary => "varbinary" + if t.size == 0xffff then "(max)" else "(" + Digits(t.size) + ")"
    case NumericN => "numeric(" + Digits(t.precision) + "," + Digits(t.scale) + ")"
    case DateN => "date"
    case TimeN => "time(" + Digits(t.scale) + ")"
    case DateTime2N => "datetime2(" + Digits(t.scale) + ")"
    case DateTimeOffsetN => "datetimeoffset(" + Digits(t.scale) + ")"
    case Guid => "uniqueidentifier"
    case _ => ""
  }

  lemma PlainDeclarations(ti: MssqlTypeInfo, len: nat, isNull: bool)
    requires WidthOf(ti.kind).Some?
    ensures Declaration(ti, len, isNull) == Ok(Rendered(WireType(ti, len, isNull)))
  {
    hide Digits, T.Code, T.MetaOf, T.LayoutOf, DeclaredSize;
  }

  lemma ShortDeclaration(ti: MssqlTypeInfo, len: nat, isNull: bool, size: U16)
    requires IsShortLength(ti.kind) && DeclaredSize(ti, len, isNull) == Ok(size)
    ensures Declaration(ti, len, isNull) == Ok(
              if ti.kind.NVarChar? then SizedDeclaration("nvarchar", size, 2)
              else SizedDeclaration(if ti.kind.VarChar? then "varchar" else "varbinary", size, 1))
  {
    hide DeclaredSize, SizedDeclaration;
  }

  lemma ShortRendered(ti: MssqlTypeInfo, len: nat, isNull: bool, size: U16)
    requires IsShortLength(ti.kind) && TypeInfoBytes(ti, len, isNull).Ok? && DeclaredSize(ti, len, isNull) == Ok(size)
    ensures Rendered(WireType(ti, len, isNull)) ==
            if ti.kind.NVarChar? then SizedDeclaration("nvarchar", size, 2)
            else SizedDeclaration(if ti.kind.VarChar? then "bigvarchar" else "varbinary", size, 1)
  {
    hide Digits, T.Code, T.MetaOf, T.LayoutOf, DeclaredSize, Le16;
    assert size / 1 == size;
  }

  lemma Spelled(size: U16)
    ensures "big" + SizedDeclaration("varchar", size, 1) == SizedDeclaration("bigvarchar", size, 1)
  {
    hide Digits;
    assert "big" + "varchar" == "bigvarchar";
  }

  lemma TextDeclarations(ti: MssqlTypeInfo, len: nat, isNull: bool)
    requires IsShortLength(ti.kind) && TypeInfoBytes(ti, len, isNull).Ok?
    ensures ti.kind.VarChar? ==> Declaration(ti, len, isNull).Ok?
                                 && "big" + Declaration(ti, len, isNull).value == Rendered(WireType(ti, len, isNull))
    ensures !ti.kind.VarChar? ==> Declaration(ti, len, isNull) == Ok(Rendered(WireType(ti, len, isNull)))
  {
    var size := DeclaredSize(ti, len, isNull).value;
    hide DeclaredSize, Declaration, Rendered, WireType, SizedDeclaration;
    ShortDeclaration(ti, len, isNull, size);
    ShortRendered(ti, len, isNull, size);
    Spelled(size);
  }

  lemma ScaledDeclarations(ti: MssqlTypeInfo, len: nat, isNull: bool)
    requires ti.kind.Date? || (IsTimed(ti.kind) && ti.Scale() <= 7)
    ensures Declaration(ti, len, isNull) == Ok(Rendered(WireType(ti, len, isNull)))
  {
    hide Digits, T.Code, T.MetaOf, T.LayoutOf, DeclaredSize, T.TimeSize;
  }

  lemma DecimalDeclarations(ti: MssqlTypeInfo, len: nat, isNull: bool)
    requires ti.kind.Decimal? && TypeInfoBytes(ti, len, isNull).Ok?
    ensures var suffix := "(" + Digits(AtLeastOne(ti.Precision())) + "," + Digits(ti.Scale()) + ")";
            Declaration(ti, len, isNull) == Ok("decimal" + suffix)
            && Rendered(WireType(ti, len, isNull)) == "numeric" + suffix
  {
    hide Digits, T.Code, T.MetaOf, T.LayoutOf, DeclaredSize;
    var suffix := "(" + Digits(AtLeastOne(ti.Precision())) + "," + Digits(ti.Scale()) + ")";
    assert "decimal(" + Digits(AtLeastOne(ti.Precision())) + "," + Digits(ti.Scale()) + ")" == "decimal" + suffix;
    assert "numeric(" + Digits(AtLeastOne(ti.Precision())) + "," + Digits(ti.Scale()) + ")" == "numeric" + suffix;
  }

  /** The two renderings of a type spell two names differently. */
  function RespellDeclaration(k: Kind, declared: string): string {
    if k.VarChar? then "big" + declared
    else if k.Decimal? && |declared| >= 7 then "numeric" + declared[7..]
    else declared
  }

  lemma SupportedKinds(ti: MssqlTypeInfo, len: nat, isNull: bool)
    requires TypeInfoBytes(ti, len, isNull).Ok?
    ensures WidthOf(ti.kind).Some? || IsShortLength(ti.kind) || ti.kind.Decimal? || ti.kind.Date? || IsTimed(ti.kind)
    ensures WidthOf(ti.kind).Some? ==> !IsShortLength(ti.kind) && !ti.kind.Decimal?
  {
  }

  /** The declaration of a parameter says what the TYPE_INFO sent with it renders as. */
  lemma DeclarationMatchesTypeInfo(ti: MssqlTypeInfo, len: nat, isNull: bool)
    requires TypeInfoBytes(ti, len, isNull).Ok? && (IsTimed(ti.kind) ==> ti.Scale() <= 7)
    ensures Declaration(ti, len, isNull).Ok?
    ensures Rendered(WireType(ti, len, isNull)) == RespellDeclaration(ti.kind, Declaration(ti, len, isNull).value)
  {
    hide Declaration, Rendered, WireType, TypeInfoBytes, Digits;
    SupportedKinds(ti, len, isNull);
    if WidthOf(ti.kind).Some? {
      PlainDeclarations(ti, len, isNull);
    } else if IsShortLength(ti.kind) {
      TextDeclarations(ti, len, isNull);
    } else if ti.kind.Decimal? {
      DecimalDeclarations(ti, len, isNull);
      var suffix := "(" + Digits(AtLeastOne(ti.Precision())) + "," + Digits(ti.Scale()) + ")";
      assert ("decimal" + suffix)[7..] == suffix;
    } else {
      ScaledDeclarations(ti, len, isNull);
    }
  }

  predicate EndsWith(s: string, suffix: string) {
    |suffix| <= |s| && s[|s| - |suffix|..] == suffix
  }

  lemma DigitsEndInDigit(n: nat)
    ensures '0' <= Digits(n)[|Digits(n)| - 1] <= '9'
  {
  }

  lemma MaxEndsInX(s: string)
    ensures EndsWith(s, "(max)") ==> s[|s| - 2] == 'x'
  {
    if EndsWith(s, "(max)") {
      assert s[|s| - 5..][3] == s[|s| - 2];
    }
  }

  lemma SizedDeclarationEnds(keyword: string, size: U16, unit: nat)
    requires unit > 0
    ensures EndsWith(SizedDeclaration(keyword, size, unit), "(max)") <==> size == MAX
  {
    var s := SizedDeclaration(keyword, size, unit);
    if size == MAX {
      assert s[|keyword|..] == "(max)";
    } else {
      var digits := Digits(size / unit);
      DigitsEndInDigit(size / unit);
      hide Digits;
      assert s == keyword + "(" + digits + ")";
      assert s[|s| - 2] == digits[|digits| - 1] != 'x';
      MaxEndsInX(s);
    }
  }

  /** For every readable parameter that is written, (max) is declared exactly when the size says blob, and then, and
      only then, the value is sent as a blob; everything else goes out as a counted value or the NULL sentinel. */
  lemma MaxExactlyWhenBlob(ti: MssqlTypeInfo, encoded: Bytes, isNull: bool)
    requires IsShortLength(ti.kind) && Readable(ti, encoded, isNull)
    requires TypeInfoBytes(ti, |encoded|, isNull).Ok? && ValueBytes(ti, encoded, isNull).Ok?
    ensures Declaration(ti, |encoded|, isNull).Ok?
    ensures EndsWith(Declaration(ti, |encoded|, isNull).value, "(max)") <==> ti.size == Some(MAX)
    ensures WireType(ti, |encoded|, isNull).size == 0xffff <==> ti.size == Some(MAX)
    ensures ValueBytes(ti, encoded, isNull).value ==
            if ti.size == Some(MAX) then T.PlpBytes(Expected(encoded, isNull))
            else if isNull then Le16(MAX)
            else Le16(|encoded|) + encoded
  {
    ShortValue(ti, encoded, isNull);
    ShortSize(ti, encoded, isNull);
    var size := DeclaredSize(ti, |encoded|, isNull).value;
    hide ValueBytes, TypeInfoBytes, WireType, Declaration, DeclaredSize, Readable;
    ShortDeclaration(ti, |encoded|, isNull, size);
    SizedDeclarationEnds("nvarchar", size, 2);
    SizedDeclarationEnds(if ti.kind.VarChar? then "varchar" else "varbinary", size, 1);
  }

  lemma ShortSize(ti: MssqlTypeInfo, encoded: Bytes, isNull: bool)
    requires IsShortLength(ti.kind) && Readable(ti, encoded, isNull) && TypeInfoBytes(ti, |encoded|, isNull).Ok?
    ensures DeclaredSize(ti, |encoded|, isNull).Ok?
    ensures DeclaredSize(ti, |encoded|, isNull).value == MAX <==> ti.size == Some(MAX)
    ensures WireType(ti, |encoded|, isNull).size == DeclaredSize(ti, |encoded|, isNull).value
  {
    hide T.Code, Le16;
  }

  lemma ShortValue(ti: MssqlTypeInfo, encoded: Bytes, isNull: bool)
    requires IsShortLength(ti.kind) && ValueBytes(ti, encoded, isNull).Ok?
    ensures ValueBytes(ti, encoded, isNull).value ==
            if ti.size == Some(MAX) then T.PlpBytes(Expected(encoded, isNull))
            else if isNull then Le16(MAX)
            else Le16(|encoded|) + encoded
  {
    hide T.PlpBytes, Le16;
    assert T.PlpBytes(Expected(encoded, isNull)) + [] == T.PlpBytes(Expected(encoded, isNull));
    assert Le16(MAX) + [] == Le16(MAX);
  }

  // ---- the list ----

  datatype Added = Added(ti: MssqlTypeInfo, encoded: Bytes, isNull: bool)

  function Name(k: nat): string { "@p" + Digits(k) }

  /** No two parameters share a name. */
  lemma NamesDiffer(j: nat, k: nat)
    ensures Name(j) == Name(k) <==> j == k
  {
    hide Digits;
    DigitsDenote(j);
    DigitsDenote(k);
    assert Name(j)[2..] == Digits(j) && Name(k)[2..] == Digits(k);
  }

  // How a declaration is taken apart again: a name of @p and digits, a blank, and a type.

  function FirstBlank(s: string): (i: nat)
    ensures i <= |s|
  {
    if |s| == 0 || s[0] == ' ' then 0 else 1 + FirstBlank(s[1..])
  }

  function ReadDeclared(s: string): Option<(nat, string)> {
    var i := FirstBlank(s);
    if 2 < i < |s| && s[..2] == "@p" && (forall c <- s[2..i] :: IsDigitChar(c))
    then Some((CharsValue(s[2..i]), s[i + 1..])) else None
  }

  lemma {:induction false} FirstBlankAfter(word: string, rest: string)
    requires ' ' !in word
    ensures FirstBlank(word + " " + rest) == |word|
    decreases |word|
  {
    var s := word + " " + rest;
    if |word| > 0 {
      assert word[0] in word;
      assert s[1..] == word[1..] + " " + rest;
      FirstBlankAfter(word[1..], rest);
    }
  }

  /** Number and type of a declared parameter can be read off its declaration, whatever the type. */
  lemma DeclaredReadsBack(k: nat, declaration: string)
    ensures ReadDeclared(Name(k) + " " + declaration) == Some((k, declaration))
  {
    hide Digits;
    DigitsDenote(k);
    var name := Name(k);
    assert name[2..] == Digits(k);
    assert ' ' !in name;
    FirstBlankAfter(name, declaration);
    var s := name + " " + declaration;
    assert s[..2] == "@p" && s[2..|name|] == Digits(k) && s[|name| + 1..] == declaration;
  }

  function ItemDeclaration(k: nat, a: Added): Result<string, ArgumentError> {
    var d := Declaration(a.ti, |a.encoded|, a.isNull);
    if d.Err? then d else Ok(Name(k) + " " + d.value)
  }

  function ItemBytes(k: nat, a: Added): Result<Bytes, ArgumentError> {
    ParameterBytes(Name(k), 0, a.ti, a.encoded, a.isNull)
  }

  predicate CanAdd(k: nat, a: Added) { ItemDeclaration(k, a).Ok? && ItemBytes(k, a).Ok? }

  /** Everything added so far can be declared and written. */
  predicate Writable(added: seq<Added>)
    decreases |added|
  {
    |added| > 0 ==> Writable(added[..|added| - 1]) && CanAdd(|added|, added[|added| - 1])
  }

  function AllBytes(added: seq<Added>): Bytes
    requires Writable(added)
    decreases |added|
  {
    if |added| == 0 then []
    else AllBytes(added[..|added| - 1]) + ItemBytes(|added|, added[|added| - 1]).value
  }

  function JoinWith(separator: string, parts: seq<string>): string {
    if |parts| == 0 then ""
    else if |parts| == 1 then parts[0]
    else JoinWith(separator, parts[..|parts| - 1]) + separator + parts[|parts| - 1]
  }

  function DeclarationParts(added: seq<Added>): (parts: seq<string>)
    requires Writable(added)
    ensures |parts| == |added|
    ensures forall p <- parts :: |p| > 0
    decreases |added|
  {
    if |added| == 0 then []
    else DeclarationParts(added[..|added| - 1]) + [ItemDeclaration(|added|, added[|added| - 1]).value]
  }

  lemma JoinNonEmpty(separator: string, parts: seq<string>)
    requires |parts| > 0 && forall p <- parts :: |p| > 0
    ensures |JoinWith(separator, parts)| > 0
  {
    assert parts[|parts| - 1] in parts;
  }

  /** Declaration `k` of the list names parameter k + 1 and declares that argument's own type. */
  lemma {:induction false} DeclarationPartReads(added: seq<Added>, k: nat)
    requires Writable(added) && k < |added|
    ensures Declaration(added[k].ti, |added[k].encoded|, added[k].isNull).Ok?
    ensures ReadDeclared(DeclarationParts(added)[k]) ==
            Some((k + 1, Declaration(added[k].ti, |added[k].encoded|, added[k].isNull).value))
    decreases |added|
  {
    hide Declaration, ReadDeclared, Name, ItemBytes;
    var n := |added| - 1;
    if k == n {
      DeclaredReadsBack(n + 1, Declaration(added[n].ti, |added[n].encoded|, added[n].isNull).value);
    } else {
      DeclarationPartReads(added[..n], k);
    }
  }

  lemma AddedOne(added: seq<Added>, a: Added)
    requires Writable(added) && CanAdd(|added| + 1, a)
    ensures Writable(added + [a])
    ensures AllBytes(added + [a]) == AllBytes(added) + ItemBytes(|added| + 1, a).value
    ensures JoinWith(",", DeclarationParts(added)) == "" <==> added == []
    ensures JoinWith(",", DeclarationParts(added + [a])) ==
            JoinWith(",", DeclarationParts(added)) + (if added == [] then "" else ",")
            + ItemDeclaration(|added| + 1, a).value
  {
    hide ItemDeclaration, ItemBytes;
    assert (added + [a])[..|added|] == added;
    var parts := DeclarationParts(added);
    assert DeclarationParts(added + [a])[..|added|] == parts;
    if |added| > 0 {
      JoinNonEmpty(",", parts);
    }
  }

  /** The arguments of one request, appended to in place. */
  class MssqlArguments {
    var len: nat
    var data: Bytes
    var declarations: string
    ghost var added: seq<Added>

    /** Holds as long as every add succeeded. */
    ghost predicate Valid()
      reads this
    {
      && len == |added| && Writable(added)
      && data == AllBytes(added)
      && declarations == JoinWith(",", DeclarationParts(added))
    }

    constructor ()
      ensures Valid() && added == []
    {
      len, data, declarations, added := 0, [], "", [];
    }

    method AddParameter(ti: MssqlTypeInfo, encoded: Bytes, isNull: bool) returns (error: Option<ArgumentError>)
      requires Valid()
      modifies this
      ensures len == old(len) + 1
      ensures error.None? <==> CanAdd(len, Added(ti, encoded, isNull))
      ensures error.None? ==> Valid() && added == old(added) + [Added(ti, encoded, isNull)]
      ensures error.Some? ==> added == old(added)
    {
      hide Declaration, ParameterBytes, Name, JoinWith, AllBytes, DeclarationParts, Writable;
      len := len + 1;
      var name := Name(len);
      if declarations != "" {
        declarations := declarations + ",";
      }
      var declared := Declaration(ti, |encoded|, isNull);
      if declared.Err? {
        return Some(declared.error);
      }
      declarations := declarations + (name + " " + declared.value);
      var written := WriteParameterWithStatus(data, name, 0, ti, encoded, isNull);
      if written.Err? {
        return Some(written.error);
      }
      data := written.value;
      AddedOne(added, Added(ti, encoded, isNull));
      added := added + [Added(ti, encoded, isNull)];
      return None;
    }
  }

  // ---- reading the list back ----

  datatype Parameter = Parameter(name: Text, status: Byte, ty: T.TypeInfo, value: Option<Bytes>)

  function ReadParameter(input: Bytes): Read<Parameter> {
    var (name, rest) :- ReadBVarChar(input);
    var (status, rest) :- ReadByte(rest);
    var (typed, rest) :- ReadTyped(rest);
    Got(Parameter(name, status, typed.0, typed.1), rest)
  }

  predicate ItemReadable(a: Added) {
    |a.encoded| <= T.MAX_CAPACITY && Readable(a.ti, a.encoded, a.isNull)
  }

  function SeenParameter(name: string, status: Byte, a: Added): Parameter
    requires TypeInfoBytes(a.ti, |a.encoded|, a.isNull).Ok? && ItemReadable(a)
  {
    Parameter(Ascii(name), status, WireType(a.ti, |a.encoded|, a.isNull), Expected(a.encoded, a.isNull))
  }

  lemma ParameterReadsBack(name: string, status: Byte, a: Added, tail: Bytes)
    requires ParameterBytes(name, status, a.ti, a.encoded, a.isNull).Ok? && ItemReadable(a)
    ensures TypeInfoBytes(a.ti, |a.encoded|, a.isNull).Ok?
    ensures ReadParameter(ParameterBytes(name, status, a.ti, a.encoded, a.isNull).value + tail)
            == Got(SeenParameter(name, status, a), tail)
  {
    hide TypeInfoBytes, ValueBytes, WireType, ReadTyped;
    var head := BVarCharBytes(name).value;
    var body := TypeInfoBytes(a.ti, |a.encoded|, a.isNull).value + ValueBytes(a.ti, a.encoded, a.isNull).value;
    assert ParameterBytes(name, status, a.ti, a.encoded, a.isNull).value + tail == head + ([status] + (body + tail));
    ReadBVarCharExact(Ascii(name), [status] + (body + tail));
    ReadByteExact(status, body + tail);
    ParameterRoundTripIff(a.ti, a.encoded, a.isNull, tail);
  }

  lemma WrittenHasTypeInfo(k: nat, a: Added)
    requires ItemBytes(k, a).Ok?
    ensures TypeInfoBytes(a.ti, |a.encoded|, a.isNull).Ok?
  {
    hide TypeInfoBytes, ValueBytes, Digits;
  }

  function SeenList(added: seq<Added>): (seen: seq<Parameter>)
    requires Writable(added) && forall a <- added :: ItemReadable(a)
    ensures |seen| == |added|
    decreases |added|
  {
    if |added| == 0 then []
    else
      var n := |added|;
      assert added[n - 1] in added;
      WrittenHasTypeInfo(n, added[n - 1]);
      SeenList(added[..n - 1]) + [SeenParameter(Name(n), 0, added[n - 1])]
  }

  /** After any number of successful adds the data parses back, with the driver's own readers, to exactly the
      added parameters, named @p1, @p2 and so on, and nothing is left over. */
  lemma {:induction false} ArgumentsReadBack(added: seq<Added>, tail: Bytes)
    requires Writable(added) && forall a <- added :: ItemReadable(a)
    ensures ReadMany(ReadParameter, |added|, AllBytes(added) + tail) == Got(SeenList(added), tail)
    decreases |added|
  {
    hide ReadParameter, ParameterBytes, SeenParameter, ItemReadable, Declaration;
    if |added| > 0 {
      var n := |added|;
      var a, item := added[n - 1], ItemBytes(n, added[n - 1]).value;
      assert a in added;
      Assoc(AllBytes(added[..n - 1]), item, tail);
      ArgumentsReadBack(added[..n - 1], item + tail);
      ParameterReadsBack(Name(n), 0, a, tail);
      ReadOneMore(ReadParameter, n - 1, AllBytes(added) + tail, SeenList(added[..n - 1]), SeenParameter(Name(n), 0, a), tail);
    } else {
      assert [] + tail == tail;
    }
  }

  // ---- the list by position ----

  /** Where part `k` of a joined text starts. */
  function PartStart(separator: string, parts: seq<string>, k: nat): nat
    requires k <= |parts|
  {
    if k == 0 then 0 else PartStart(separator, parts, k - 1) + |parts[k - 1]| + |separator|
  }

  lemma {:induction false} PartStartOfPrefix(separator: string, parts: seq<string>, n: nat, k: nat)
    requires k <= n <= |parts|
    ensures PartStart(separator, parts[..n], k) == PartStart(separator, parts, k)
    decreases k
  {
    if k > 0 {
      PartStartOfPrefix(separator, parts, n, k - 1);
    }
  }

  lemma {:induction false} JoinLength(separator: string, parts: seq<string>)
    requires |parts| > 0
    ensures |JoinWith(separator, parts)| + |separator| == PartStart(separator, parts, |parts|)
    decreases |parts|
  {
    var n := |parts| - 1;
    if n > 0 {
      JoinLength(separator, parts[..n]);
      PartStartOfPrefix(separator, parts, n, n);
    }
  }

  /** A stretch of a text. */
  predicate StandsAt(s: string, start: nat, part: string) {
    start + |part| <= |s| && s[start..start + |part|] == part
  }

  lemma StandsLonger(s: string, start: nat, part: string, more: string)
    requires StandsAt(s, start, part)
    ensures StandsAt(s + more, start, part)
  {
  }

  lemma JoinedAt(s: string, separator: string, part: string)
    ensures StandsAt(s + separator + part, |s|, separator)
    ensures StandsAt(s + separator + part, |s| + |separator|, part)
  {
  }

  /** Joined parts stand in order, one separator between each two of them and none at the ends. */
  lemma {:induction false} PartOfJoin(separator: string, parts: seq<string>, k: nat)
    requires k < |parts|
    ensures StandsAt(JoinWith(separator, parts), PartStart(separator, parts, k), parts[k])
    ensures k + 1 < |parts| ==>
              StandsAt(JoinWith(separator, parts), PartStart(separator, parts, k) + |parts[k]|, separator)
    decreases |parts|
  {
    hide StandsAt, PartStart;
    var n := |parts| - 1;
    if n == 0 {
      OnePart(separator, parts);
    } else {
      var shorter := parts[..n];
      var s := JoinWith(separator, shorter);
      LastPart(separator, parts);
      if k < n {
        PartOfJoin(separator, shorter, k);
        PartStartOfPrefix(separator, parts, n, k);
        Assoc(s, separator, parts[n]);
        StandsLonger(s, PartStart(separator, parts, k), parts[k], separator + parts[n]);
        if k + 1 < n {
          StandsLonger(s, PartStart(separator, parts, k) + |parts[k]|, separator, separator + parts[n]);
        }
      }
    }
  }

  lemma OnePart(separator: string, parts: seq<string>)
    requires |parts| == 1
    ensures StandsAt(JoinWith(separator, parts), PartStart(separator, parts, 0), parts[0])
  {
  }

  lemma LastPart(separator: string, parts: seq<string>)
    requires |parts| > 1
    ensures var n, s := |parts| - 1, JoinWith(separator, parts);
            && StandsAt(s, PartStart(separator, parts, n - 1) + |parts[n - 1]|, separator)
            && StandsAt(s, PartStart(separator, parts, n), parts[n])
  {
    hide StandsAt;
    var n := |parts| - 1;
    JoinLength(separator, parts[..n]);
    PartStartOfPrefix(separator, parts, n, n);
    JoinedAt(JoinWith(separator, parts[..n]), separator, parts[n]);
  }

  /** Argument k as the server sees it: named @p and k + 1, an input, with its own TYPE_INFO and its own bytes. */
  lemma {:induction false} SeenAt(added: seq<Added>, k: nat)
    requires Writable(added) && (forall a <- added :: ItemReadable(a)) && k < |added|
    ensures var a := added[k];
            && a in added && TypeInfoBytes(a.ti, |a.encoded|, a.isNull).Ok?
            && SeenList(added)[k] == Parameter(Ascii("@p" + Digits(k + 1)), 0, WireType(a.ti, |a.encoded|, a.isNull),
                                               if a.isNull then None else Some(a.encoded))
    decreases |added|
  {
    hide Digits, ItemReadable, WireType, TypeInfoBytes, ParameterBytes, Declaration;
    var n := |added| - 1;
    assert added[n] in added;
    if k == n {
      WrittenHasTypeInfo(n + 1, added[n]);
    } else {
      SeenAt(added[..n], k);
      assert SeenList(added)[k] == SeenList(added[..n])[k];
    }
  }

  /** The T-SQL type each argument is declared with. */
  lemma DeclaredNames(ti: MssqlTypeInfo, len: nat, isNull: bool)
    ensures ti.kind.Bit? ==> Declaration(ti, len, isNull) == Ok("bit")
    ensures ti.kind.TinyInt? ==> Declaration(ti, len, isNull) == Ok("tinyint")
    ensures ti.kind.SmallInt? ==> Declaration(ti, len, isNull) == Ok("smallint")
    ensures ti.kind.Int? ==> Declaration(ti, len, isNull) == Ok("int")
    ensures ti.kind.BigInt? ==> Declaration(ti, len, isNull) == Ok("bigint")
    ensures ti.kind.Real? ==> Declaration(ti, len, isNull) == Ok("real")
    ensures ti.kind.Float? ==> Declaration(ti, len, isNull) == Ok("float")
    ensures ti.kind.Date? ==> Declaration(ti, len, isNull) == Ok("date")
    ensures ti.kind.UniqueIdentifier? ==> Declaration(ti, len, isNull) == Ok("uniqueidentifier")
    ensures ti.kind.Time? ==> Declaration(ti, len, isNull) == Ok("time(" + Digits(ti.Scale()) + ")")
    ensures ti.kind.DateTime2? ==> Declaration(ti, len, isNull) == Ok("datetime2(" + Digits(ti.Scale()) + ")")
    ensures ti.kind.DateTimeOffset? ==> Declaration(ti, len, isNull) == Ok("datetimeoffset(" + Digits(ti.Scale()) + ")")
    ensures ti.kind.Decimal? && ti.Precision() > 0 ==>
              Declaration(ti, len, isNull) == Ok("decimal(" + Digits(ti.Precision()) + "," + Digits(ti.Scale()) + ")")
    ensures IsShortLength(ti.kind) && ti.size == Some(MAX) ==>
              Declaration(ti, len, isNull) ==
              Ok(if ti.kind.NVarChar? then "nvarchar(max)" else if ti.kind.VarChar? then "varchar(max)" else "varbinary(max)")
    ensures ti.kind.NVarChar? && ti.size.None? && !isNull && 2 <= len < 0xffff ==>
              Declaration(ti, len, isNull) == Ok("nvarchar(" + Digits(len / 2) + ")")
    ensures ti.kind.VarChar? && ti.size.None? && !isNull && 1 <= len < 0xffff ==>
              Declaration(ti, len, isNull) == Ok("varchar(" + Digits(len) + ")")
    ensures ti.kind.VarBinary? && ti.size.None? && !isNull && 1 <= len < 0xffff ==>
              Declaration(ti, len, isNull) == Ok("varbinary(" + Digits(len) + ")")
  {
    hide Digits;
    assert "nvarchar" + "(max)" == "nvarchar(max)" && "varchar" + "(max)" == "varchar(max)";
    assert "varbinary" + "(max)" == "varbinary(max)";
    assert "nvarchar" + ("(" + Digits(len / 2) + ")") == "nvarchar(" + Digits(len / 2) + ")";
    assert "varchar" + ("(" + Digits(len) + ")") == "varchar(" + Digits(len) + ")";
    assert "varbinary" + ("(" + Digits(len) + ")") == "varbinary(" + Digits(len) + ")";
  }
}
