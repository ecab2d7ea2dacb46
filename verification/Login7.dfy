/** The LOGIN7 message (section 2.2.6.4 of [MS-TDS]). */
module Login7 {
  import opened Wire

  const FIXED_LEN: nat := 94
  const TDS_VERSION_74: U32 := 0x7400_0004

  datatype LoginError = FieldTooLong | MessageTooLarge

  datatype LoginOptions = LoginOptions(
    hostname: Text, username: Text, password: Option<Text>, appName: Text, serverName: Text,
    clientInterfaceName: Text, language: Text, database: Text,
    packetSize: U32, clientProgramVersion: U32, clientPid: U32)

  // ---- password obfuscation ----

  /** Bitwise exclusive or of the low `bits` bits. */
  function Xor(a: nat, b: nat, bits: nat): (r: nat) {
    if bits == 0 then 0 else (if a % 2 == b % 2 then 0 else 1) + 2 * Xor(a / 2, b / 2, bits - 1)
  }

  lemma {:induction false} XorInverts(a: nat, b: nat, bits: nat)
    requires a < Pow2(bits)
    ensures Xor(a, b, bits) < Pow2(bits)
    ensures Xor(Xor(a, b, bits), b, bits) == a
  {
    if bits > 0 {
      XorInverts(a / 2, b / 2, bits - 1);
      assert Xor(a, b, bits) / 2 == Xor(a / 2, b / 2, bits - 1);
    }
  }

  /** Rotation by four bits exchanges the two halves of a byte. */
  function RotateFour(b: Byte): Byte { b % 16 * 16 + b / 16 }

  lemma RotateTwice(b: Byte)
    ensures RotateFour(RotateFour(b)) == b
  {
    QuotientUnique(RotateFour(b), 16, b % 16, b / 16);
  }

  const MASK: Byte := 0xa5

  function XorByte(b: Byte, mask: Byte): Byte {
    Pow2Values();
    XorInverts(b, mask, 8);
    Xor(b, mask, 8)
  }

  function Obfuscate(b: Byte): Byte { XorByte(RotateFour(b), MASK) }

  /** What a server does to a password byte. */
  function Unmask(b: Byte): Byte { RotateFour(XorByte(b, MASK)) }

  lemma ObfuscationInverts(b: Byte)
    ensures Unmask(Obfuscate(b)) == b
  {
    hide Xor, RotateFour;
    Pow2Values();
    XorInverts(RotateFour(b), MASK, 8);
    RotateTwice(b);
  }

  function Map(f: Byte -> Byte, b: Bytes): (r: Bytes)
    ensures |r| == |b|
  {
    seq(|b|, i requires 0 <= i < |b| => f(b[i]))
  }

  function Encoded(value: Text, obfuscate: bool): (b: Bytes)
    ensures |b| == 2 * |value|
  {
    if obfuscate then Map(Obfuscate, Utf16(value)) else Utf16(value)
  }

  /** The text a server gets out of a field. */
  function Decoded(b: Bytes, obfuscated: bool): Text
    requires |b| % 2 == 0
  {
    Units(if obfuscated then Map(Unmask, b) else b)
  }

  lemma FieldReadsBack(value: Text, obfuscate: bool)
    ensures Decoded(Encoded(value, obfuscate), obfuscate) == value
  {
    hide Obfuscate, Unmask;
    Utf16RoundTrip(value);
    if obfuscate {
      var b := Utf16(value);
      forall i | 0 <= i < |b| ensures Map(Unmask, Map(Obfuscate, b))[i] == b[i] { ObfuscationInverts(b[i]); }
      assert Map(Unmask, Map(Obfuscate, b)) == b;
    }
  }

  /** UTF-16 bytes, rewritten in place for a password. */
  method EncodeUtf16Le(value: Text, obfuscate: bool) returns (out: Bytes)
    ensures out == Encoded(value, obfuscate)
  {
    hide Obfuscate;
    out := [];
    var i := 0;
    assert value[0..] == value;
    while i < |value|
      invariant i <= |value| && Utf16(value) == out + Utf16(value[i..])
    {
      assert value[i..][1..] == value[i + 1..];
      Assoc(out, [value[i] % 256, value[i] / 256], Utf16(value[i + 1..]));
      out := out + Le16(value[i]);
      i := i + 1;
    }
    assert out + [] == out;
    ghost var plain := out;
    if obfuscate {
      i := 0;
      while i < |out|
        invariant i <= |out| == |plain|
        invariant forall k | 0 <= k < |out| :: out[k] == if k < i then Obfuscate(plain[k]) else plain[k]
      {
        out := out[i := Obfuscate(out[i])];
        i := i + 1;
      }
      assert out == Map(Obfuscate, plain);
    }
  }

  // ---- fields ----

  datatype Field = Field(text: Text, obfuscate: bool)

  datatype FieldOffset = FieldOffset(offset: U16, lenChars: U16)

  function TotalUnits(fields: seq<Field>): nat {
    if |fields| == 0 then 0 else TotalUnits(fields[..|fields| - 1]) + |fields[|fields| - 1].text|
  }

  function EncodedFields(fields: seq<Field>): (b: Bytes)
    ensures |b| == 2 * TotalUnits(fields)
  {
    if |fields| == 0 then []
    else EncodedFields(fields[..|fields| - 1]) + Encoded(fields[|fields| - 1].text, fields[|fields| - 1].obfuscate)
  }

  /** Where field `i` starts when the fields follow each other behind the fixed part. */
  function StartOf(fields: seq<Field>, i: nat): nat
    requires i <= |fields|
  {
    FIXED_LEN + 2 * TotalUnits(fields[..i])
  }

  /** What stops a field from being added behind these. */
  function PushError(pushed: seq<Field>, text: Text): Option<LoginError> {
    if |text| > 0xffff then Some(FieldTooLong)
    else if FIXED_LEN + 2 * TotalUnits(pushed) + 2 * |text| > 0xffff then Some(MessageTooLarge)
    else None
  }

  class Login7Fields {
    var data: Bytes
    var nextOffset: U16
    ghost var pushed: seq<Field>

    ghost predicate Valid()
      reads this
    {
      data == EncodedFields(pushed) && nextOffset == FIXED_LEN + 2 * TotalUnits(pushed)
    }

    constructor ()
      ensures Valid() && pushed == []
    {
      data, nextOffset, pushed := [], FIXED_LEN, [];
    }

    /** Appends one field, or leaves everything as it was. */
    method PushText(value: Text, obfuscate: bool) returns (r: Result<FieldOffset, LoginError>)
      requires Valid()
      modifies this
      ensures Valid()
      ensures match PushError(old(pushed), value)
              case Some(e) => r == Err(e) && pushed == old(pushed)
              case None =>
                && r == Ok(FieldOffset(old(nextOffset), |value|))
                && pushed == old(pushed) + [Field(value, obfuscate)]
    {
      hide Encoded;
      var offset := nextOffset;
      if |value| > 0xffff {
        return Err(FieldTooLong);
      }
      var encoded := EncodeUtf16Le(value, obfuscate);
      if |encoded| > 0xffff {
        return Err(MessageTooLarge);
      }
      if nextOffset as int + |encoded| > 0xffff {
        return Err(MessageTooLarge);
      }
      nextOffset := nextOffset + |encoded|;
      data := data + encoded;
      ghost var before := pushed;
      pushed := pushed + [Field(value, obfuscate)];
      assert pushed[..|before|] == before;
      return Ok(FieldOffset(offset, |value|));
    }
  }

  // ---- the message ----

  function TextFields(o: LoginOptions): seq<Field> {
    [Field(o.hostname, false), Field(o.username, false),
     Field(if o.password.Some? then o.password.value else [], true),
     Field(o.appName, false), Field(o.serverName, false),
     Field(o.clientInterfaceName, false), Field(o.language, false), Field(o.database, false)]
  }

  /** The first field that does not fit, if any, among the first `n`. */
  function FirstError(fields: seq<Field>, n: nat): Option<LoginError>
    requires n <= |fields|
  {
    if n == 0 then None
    else
      var earlier := FirstError(fields, n - 1);
      if earlier.Some? then earlier else PushError(fields[..n - 1], fields[n - 1].text)
  }

  lemma {:induction false} TotalStep(fields: seq<Field>, i: nat)
    requires i < |fields|
    ensures TotalUnits(fields[..i + 1]) == TotalUnits(fields[..i]) + |fields[i].text|
  {
    assert fields[..i + 1][..i] == fields[..i];
  }

  lemma {:induction false} TotalMonotone(fields: seq<Field>, i: nat, j: nat)
    requires i <= j <= |fields|
    ensures TotalUnits(fields[..i]) <= TotalUnits(fields[..j])
    decreases j
  {
    if i < j {
      TotalStep(fields, j - 1);
      TotalMonotone(fields, i, j - 1);
    }
  }

  /** All fields fit exactly when the fixed part and two bytes per unit stay within 16-bit offsets. */
  lemma {:induction false} NoErrorIff(fields: seq<Field>, n: nat)
    requires n <= |fields|
    ensures FirstError(fields, n).None? <==> FIXED_LEN + 2 * TotalUnits(fields[..n]) <= 0xffff
  {
    if n == 0 {
      assert fields[..0] == [];
    } else {
      NoErrorIff(fields, n - 1);
      TotalStep(fields, n - 1);
    }
  }

  function FieldAt(fields: seq<Field>, i: nat): FieldOffset
    requires i < |fields| && StartOf(fields, |fields|) <= 0xffff
  {
    TotalStep(fields, i);
    TotalMonotone(fields, i + 1, |fields|);
    FieldOffset(StartOf(fields, i), |fields[i].text|)
  }

  function EmptyAt(offset: U16): FieldOffset { FieldOffset(offset, 0) }

  function OffsetBytes(f: FieldOffset): (b: Bytes)
    ensures |b| == 4
  {
    Le16(f.offset) + Le16(f.lenChars)
  }

  function AllOffsets(fs: seq<FieldOffset>): (b: Bytes)
    ensures |b| == 4 * |fs|
  {
    if |fs| == 0 then [] else AllOffsets(fs[..|fs| - 1]) + OffsetBytes(fs[|fs| - 1])
  }

  function Preamble(o: LoginOptions, total: U32): (b: Bytes)
    ensures |b| == 36
  {
    LittleEndian(total, 4) + LittleEndian(TDS_VERSION_74, 4) + LittleEndian(o.packetSize, 4)
    + LittleEndian(o.clientProgramVersion, 4) + LittleEndian(o.clientPid, 4) + LittleEndian(0, 4)
    + [0xe0, 0x03, 0x00, 0x00] + LittleEndian(0, 4) + LittleEndian(0, 4)
  }

  /** The nine descriptors in front of the client id; the sixth is unused. */
  function Descriptors(fields: seq<Field>): (ds: seq<FieldOffset>)
    requires |fields| == 8 && StartOf(fields, 8) <= 0xffff
    ensures |ds| == 9
  {
    TotalMonotone(fields, 5, 8);
    [FieldAt(fields, 0), FieldAt(fields, 1), FieldAt(fields, 2), FieldAt(fields, 3), FieldAt(fields, 4),
     EmptyAt(StartOf(fields, 5)), FieldAt(fields, 5), FieldAt(fields, 6), FieldAt(fields, 7)]
  }

  function Header(o: LoginOptions): (b: Bytes)
    requires StartOf(TextFields(o), 8) <= 0xffff
    ensures |b| == FIXED_LEN
  {
    var fields := TextFields(o);
    var end := StartOf(fields, 8);
    Preamble(o, end) + AllOffsets(Descriptors(fields)) + [0, 0, 0, 0, 0, 0]
    + AllOffsets([EmptyAt(end), EmptyAt(end), EmptyAt(end)]) + LittleEndian(0, 4)
  }

  function Payload(o: LoginOptions): Bytes
    requires StartOf(TextFields(o), 8) <= 0xffff
  {
    Header(o) + EncodedFields(TextFields(o))
  }

  /** The whole result: the first error, or the payload. */
  function Built(o: LoginOptions): Result<Bytes, LoginError> {
    NoErrorIff(TextFields(o), 8);
    var error := FirstError(TextFields(o), 8);
    if error.Some? then Err(error.value) else Ok(Payload(o))
  }

  lemma {:induction false} FirstErrorStays(fields: seq<Field>, k: nat, n: nat)
    requires k <= n <= |fields| && FirstError(fields, k).Some?
    ensures FirstError(fields, n) == FirstError(fields, k)
    decreases n
  {
    if k < n {
      FirstErrorStays(fields, k, n - 1);
    }
  }

  /** Pushes field `k` of a list whose earlier fields are already in. */
  method PushNext(fields: Login7Fields, value: Text, obfuscate: bool, ghost all: seq<Field>, ghost k: nat)
    returns (r: Result<FieldOffset, LoginError>)
    requires fields.Valid() && k < |all| && all[k] == Field(value, obfuscate)
    requires fields.pushed == all[..k] && FirstError(all, k).None?
    modifies fields
    ensures fields.Valid()
    ensures r.Ok? ==> FirstError(all, k + 1).None? && fields.pushed == all[..k + 1]
    ensures r.Ok? ==> r.value.offset == StartOf(all, k) && r.value.lenChars == |value|
    ensures r.Err? ==> FirstError(all, |all|) == Some(r.error)
  {
    hide EncodedFields, TotalUnits;
    r := fields.PushText(value, obfuscate);
    if r.Err? {
      FirstErrorStays(all, k + 1, |all|);
    }
  }

  method PlaceFields(o: LoginOptions, fields: Login7Fields) returns (r: Result<seq<FieldOffset>, LoginError>)
    requires fields.Valid() && fields.pushed == []
    modifies fields
    ensures fields.Valid()
    ensures match FirstError(TextFields(o), 8)
            case Some(e) => r == Err(e)
            case None =>
              && fields.pushed == TextFields(o) && StartOf(TextFields(o), 8) == fields.nextOffset
              && r == Ok(Descriptors(TextFields(o)))
  {
    hide EncodedFields, TotalUnits, FirstError;
    ghost var all := TextFields(o);
    NoErrorIff(all, 0);
    assert all[..0] == [];
    var hostname := PushNext(fields, o.hostname, false, all, 0);
    if hostname.Err? {
      return Err(hostname.error);
    }
    var username := PushNext(fields, o.username, false, all, 1);
    if username.Err? {
      return Err(username.error);
    }
    var password := PushNext(fields, if o.password.Some? then o.password.value else [], true, all, 2);
    if password.Err? {
      return Err(password.error);
    }
    var appName := PushNext(fields, o.appName, false, all, 3);
    if appName.Err? {
      return Err(appName.error);
    }
    var serverName := PushNext(fields, o.serverName, false, all, 4);
    if serverName.Err? {
      return Err(serverName.error);
    }
    var unused := EmptyAt(fields.nextOffset);
    var clientInterfaceName := PushNext(fields, o.clientInterfaceName, false, all, 5);
    if clientInterfaceName.Err? {
      return Err(clientInterfaceName.error);
    }
    var language := PushNext(fields, o.language, false, all, 6);
    if language.Err? {
      return Err(language.error);
    }
    var database := PushNext(fields, o.database, false, all, 7);
    if database.Err? {
      return Err(database.error);
    }
    assert all[..8] == all;
    return Ok([hostname.value, username.value, password.value, appName.value, serverName.value, unused,
               clientInterfaceName.value, language.value, database.value]);
  }

  method BuildLogin7Payload(o: LoginOptions) returns (r: Result<Bytes, LoginError>)
    ensures r == Built(o)
  {
    hide Preamble, AllOffsets, EncodedFields, StartOf, FirstError, Descriptors, LittleEndian;
    var fields := new Login7Fields();
    var placed := PlaceFields(o, fields);
    NoErrorIff(TextFields(o), 8);
    if placed.Err? {
      return Err(placed.error);
    }
    var sspi, attachDbFile, changePassword := EmptyAt(fields.nextOffset), EmptyAt(fields.nextOffset), EmptyAt(fields.nextOffset);
    var out := WritePreamble(o, fields.nextOffset);
    out := out + AllOffsets(placed.value);
    out := out + [0, 0, 0, 0, 0, 0];
    out := out + AllOffsets([sspi, attachDbFile, changePassword]);
    out := out + LittleEndian(0, 4);
    return Ok(out + fields.data);
  }

  method WritePreamble(o: LoginOptions, total: U32) returns (out: Bytes)
    ensures out == Preamble(o, total)
  {
    out := LittleEndian(total, 4);
    out := out + LittleEndian(TDS_VERSION_74, 4);
    out := out + LittleEndian(o.packetSize, 4);
    out := out + LittleEndian(o.clientProgramVersion, 4);
    out := out + LittleEndian(o.clientPid, 4);
    out := out + LittleEndian(0, 4);
    out := out + [0xe0, 0x03, 0x00, 0x00];
    out := out + LittleEndian(0, 4);
    out := out + LittleEndian(0, 4);
  }

  // ---- what a server finds ----

  /** Descriptor `k` of the nine behind the preamble. */
  function DescriptorAt(payload: Bytes, k: nat): FieldOffset
    requires 36 + 4 * k + 4 <= |payload|
  {
    var at := 36 + 4 * k;
    FieldOffset(Word(payload[at], payload[at + 1]), Word(payload[at + 2], payload[at + 3]))
  }

  /** Position of text field `i` among the descriptors: the unused one comes sixth. */
  function DescriptorIndex(i: nat): nat { if i < 5 then i else i + 1 }

  lemma {:induction false} OffsetsAt(fs: seq<FieldOffset>, k: nat)
    requires k < |fs|
    ensures AllOffsets(fs)[4 * k..4 * k + 4] == OffsetBytes(fs[k])
    decreases |fs|
  {
    hide OffsetBytes;
    if k < |fs| - 1 {
      OffsetsAt(fs[..|fs| - 1], k);
      assert AllOffsets(fs)[4 * k..4 * k + 4] == AllOffsets(fs[..|fs| - 1])[4 * k..4 * k + 4];
    }
  }

  lemma OffsetBytesRead(f: FieldOffset)
    ensures var b := OffsetBytes(f); FieldOffset(Word(b[0], b[1]), Word(b[2], b[3])) == f
  {
  }

  lemma HeaderHoldsDescriptors(o: LoginOptions, k: nat)
    requires StartOf(TextFields(o), 8) <= 0xffff && k < 9
    ensures DescriptorAt(Payload(o), k) == Descriptors(TextFields(o))[k]
  {
    hide Preamble, AllOffsets, EncodedFields, StartOf, Descriptors, LittleEndian, OffsetBytes, Word;
    var ds := Descriptors(TextFields(o));
    OffsetsAt(ds, k);
    OffsetBytesRead(ds[k]);
    var end := StartOf(TextFields(o), 8);
    var pre, table := Preamble(o, end), AllOffsets(ds);
    var rest := [0, 0, 0, 0, 0, 0] + AllOffsets([EmptyAt(end), EmptyAt(end), EmptyAt(end)]) + LittleEndian(0, 4)
                + EncodedFields(TextFields(o));
    assert Payload(o) == pre + table + rest;
    SliceOfMiddle(pre, table, rest, 4 * k, 4);
    assert Payload(o)[36 + 4 * k..36 + 4 * k + 4] == OffsetBytes(ds[k]);
  }

  lemma SliceOfMiddle(a: Bytes, b: Bytes, c: Bytes, at: nat, n: nat)
    requires at + n <= |b|
    ensures (a + b + c)[|a| + at..|a| + at + n] == b[at..at + n]
  {
  }

  lemma {:induction false} FieldSlice(fields: seq<Field>, i: nat)
    requires i < |fields|
    ensures 2 * TotalUnits(fields[..i]) + 2 * |fields[i].text| <= |EncodedFields(fields)|
    ensures EncodedFields(fields)[2 * TotalUnits(fields[..i])..2 * TotalUnits(fields[..i]) + 2 * |fields[i].text|]
            == Encoded(fields[i].text, fields[i].obfuscate)
    decreases |fields|
  {
    hide Encoded;
    var shorter := fields[..|fields| - 1];
    if i < |fields| - 1 {
      FieldSlice(shorter, i);
      assert shorter[..i] == fields[..i];
    }
  }

  lemma LengthWord(o: LoginOptions)
    requires StartOf(TextFields(o), 8) <= 0xffff
    ensures |Payload(o)| == StartOf(TextFields(o), 8)
    ensures ReadU32(Payload(o)).Got? && ReadU32(Payload(o)).value == |Payload(o)|
  {
    var end := StartOf(TextFields(o), 8);
    assert TextFields(o)[..8] == TextFields(o);
    hide AllOffsets, EncodedFields, StartOf, Descriptors, LittleEndian, ReadU32;
    var rest := Payload(o)[4..];
    assert Payload(o) == LittleEndian(end, 4) + rest;
    ReadU32Exact(end, rest);
  }

  lemma PayloadSlice(o: LoginOptions, i: nat)
    requires StartOf(TextFields(o), 8) <= 0xffff && i < 8
    ensures var fields := TextFields(o);
            && StartOf(fields, i) + 2 * |fields[i].text| <= |Payload(o)|
            && Payload(o)[StartOf(fields, i)..StartOf(fields, i) + 2 * |fields[i].text|]
               == Encoded(fields[i].text, fields[i].obfuscate)
  {
    hide Header, EncodedFields, TotalUnits, Encoded;
    var fields := TextFields(o);
    FieldSlice(fields, i);
    SliceOfMiddle(Header(o), EncodedFields(fields), [], 2 * TotalUnits(fields[..i]), 2 * |fields[i].text|);
    assert Header(o) + EncodedFields(fields) + [] == Payload(o);
  }

  lemma BuildsIff(o: LoginOptions)
    ensures Built(o).Ok? <==> FIXED_LEN + 2 * TotalUnits(TextFields(o)) <= 0xffff
    ensures Built(o).Ok? ==> StartOf(TextFields(o), 8) <= 0xffff && Built(o).value == Payload(o)
  {
    hide Payload, FirstError, TotalUnits;
    assert TextFields(o)[..8] == TextFields(o);
    NoErrorIff(TextFields(o), 8);
  }

  lemma DescriptorPlacesField(o: LoginOptions, i: nat)
    requires StartOf(TextFields(o), 8) <= 0xffff && i < 8
    ensures StartOf(TextFields(o), i) + 2 * |TextFields(o)[i].text| <= 0xffff
    ensures DescriptorAt(Payload(o), DescriptorIndex(i)) == FieldOffset(StartOf(TextFields(o), i), |TextFields(o)[i].text|)
  {
    hide Payload, TotalUnits, DescriptorAt;
    TotalStep(TextFields(o), i);
    TotalMonotone(TextFields(o), i + 1, 8);
    HeaderHoldsDescriptors(o, DescriptorIndex(i));
  }

  function EndOf(d: FieldOffset): nat { d.offset + 2 * d.lenChars }

  /** The fields follow each other without gap or overlap, from byte 94 to the end of the payload. */
  lemma FieldsAreContiguous(o: LoginOptions, i: nat)
    requires StartOf(TextFields(o), 8) <= 0xffff && i < 8
    ensures |Payload(o)| == StartOf(TextFields(o), 8)
    ensures DescriptorAt(Payload(o), 0).offset == FIXED_LEN
    ensures EndOf(DescriptorAt(Payload(o), DescriptorIndex(i))) ==
            if i < 7 then DescriptorAt(Payload(o), DescriptorIndex(i + 1)).offset else |Payload(o)|
  {
    hide Payload, TotalUnits, DescriptorAt;
    LengthWord(o);
    DescriptorPlacesField(o, 0);
    assert TextFields(o)[..0] == [];
    EmptyTotal();
    DescriptorPlacesField(o, i);
    TotalStep(TextFields(o), i);
    if i < 7 {
      DescriptorPlacesField(o, i + 1);
    }
  }

  lemma EmptyTotal()
    ensures TotalUnits([]) == 0
  {
  }

  /** The descriptor of a text field lies inside the payload and gives a server the text back. */
  predicate HoldsField(payload: Bytes, i: nat, field: Field)
    requires i < 8 && FIXED_LEN <= |payload|
  {
    var d := DescriptorAt(payload, DescriptorIndex(i));
    && EndOf(d) <= |payload| && d.lenChars == |field.text|
    && Decoded(payload[d.offset..EndOf(d)], field.obfuscate) == field.text
  }

  /** LOGIN7 layout. The payload exists exactly when its offsets fit in 16 bits; its first word is its own length;
      and every descriptor gives a server its field back, the obfuscated password included. */
  lemma LoginPayloadReadsBack(o: LoginOptions, i: nat)
    requires i < 8
    ensures Built(o).Ok? <==> FIXED_LEN + 2 * TotalUnits(TextFields(o)) <= 0xffff
    ensures Built(o).Ok? ==> |Built(o).value| == FIXED_LEN + 2 * TotalUnits(TextFields(o))
    ensures Built(o).Ok? ==> ReadU32(Built(o).value).Got? && ReadU32(Built(o).value).value == |Built(o).value|
    ensures Built(o).Ok? ==> HoldsField(Built(o).value, i, TextFields(o)[i])
  {
    BuildsIff(o);
    hide Payload, TotalUnits, DescriptorAt, Built, ReadU32, Decoded, Encoded;
    if Built(o).Ok? {
      assert TextFields(o)[..8] == TextFields(o);
      LengthWord(o);
      DescriptorPlacesField(o, i);
      PayloadSlice(o, i);
      FieldReadsBack(TextFields(o)[i].text, TextFields(o)[i].obfuscate);
    }
  }

  /** The numbers in front of the flags, as a server reads them. */
  datatype Numbers = Numbers(total: U32, version: U32, packetSize: U32, programVersion: U32, pid: U32, connectionId: U32)

  function ReadNumbers(payload: Bytes): Read<Numbers> {
    var (total, rest) :- ReadU32(payload);
    var (version, rest) :- ReadU32(rest);
    var (packetSize, rest) :- ReadU32(rest);
    var (programVersion, rest) :- ReadU32(rest);
    var (pid, rest) :- ReadU32(rest);
    var (connectionId, rest) :- ReadU32(rest);
    Got(Numbers(total, version, packetSize, programVersion, pid, connectionId), rest)
  }

  lemma SixNumbersRead(a: U32, b: U32, c: U32, d: U32, e: U32, f: U32, tail: Bytes)
    ensures ReadNumbers(LittleEndian(a, 4) + LittleEndian(b, 4) + LittleEndian(c, 4) + LittleEndian(d, 4)
                        + LittleEndian(e, 4) + LittleEndian(f, 4) + tail) == Got(Numbers(a, b, c, d, e, f), tail)
  {
    hide LittleEndian, ReadU32;
    var six := LittleEndian(f, 4) + tail;
    var five := LittleEndian(e, 4) + six;
    var four := LittleEndian(d, 4) + five;
    var three := LittleEndian(c, 4) + four;
    var two := LittleEndian(b, 4) + three;
    assert LittleEndian(a, 4) + LittleEndian(b, 4) + LittleEndian(c, 4) + LittleEndian(d, 4)
           + LittleEndian(e, 4) + LittleEndian(f, 4) + tail == LittleEndian(a, 4) + two;
    ReadU32Exact(a, two);
    ReadU32Exact(b, three);
    ReadU32Exact(c, four);
    ReadU32Exact(d, five);
    ReadU32Exact(e, six);
    ReadU32Exact(f, tail);
  }

  lemma PreambleNumbers(o: LoginOptions, total: U32)
    ensures Preamble(o, total) ==
            LittleEndian(total, 4) + LittleEndian(TDS_VERSION_74, 4) + LittleEndian(o.packetSize, 4)
            + LittleEndian(o.clientProgramVersion, 4) + LittleEndian(o.clientPid, 4) + LittleEndian(0, 4)
            + ([0xe0, 0x03, 0x00, 0x00] + LittleEndian(0, 4) + LittleEndian(0, 4))
  {
    hide LittleEndian;
  }

  lemma NumbersIgnoreRest(o: LoginOptions, total: U32, rest: Bytes)
    ensures ReadNumbers(Preamble(o, total) + rest).Got?
    ensures ReadNumbers(Preamble(o, total) + rest).value ==
            Numbers(total, TDS_VERSION_74, o.packetSize, o.clientProgramVersion, o.clientPid, 0)
  {
    hide LittleEndian, ReadNumbers;
    PreambleNumbers(o, total);
    var tail := [0xe0, 0x03, 0x00, 0x00] + LittleEndian(0, 4) + LittleEndian(0, 4);
    Assoc(LittleEndian(total, 4) + LittleEndian(TDS_VERSION_74, 4) + LittleEndian(o.packetSize, 4)
          + LittleEndian(o.clientProgramVersion, 4) + LittleEndian(o.clientPid, 4) + LittleEndian(0, 4), tail, rest);
    SixNumbersRead(total, TDS_VERSION_74, o.packetSize, o.clientProgramVersion, o.clientPid, 0, tail + rest);
  }

  lemma PayloadParts(o: LoginOptions, end: U16)
    requires StartOf(TextFields(o), 8) == end
    ensures var middle := AllOffsets(Descriptors(TextFields(o))) + [0, 0, 0, 0, 0, 0];
            var closing := AllOffsets([EmptyAt(end), EmptyAt(end), EmptyAt(end)]);
            var back := LittleEndian(0, 4) + EncodedFields(TextFields(o));
            && Payload(o) == Preamble(o, end) + middle + closing + back
            && Payload(o) == Preamble(o, end) + (middle + closing + back)
  {
    hide Preamble, AllOffsets, EncodedFields, StartOf, Descriptors, LittleEndian, TextFields;
  }

  /** The numbers of the login arrive in their places, the length among them. */
  lemma LoginNumbersReadBack(o: LoginOptions, end: U16)
    requires StartOf(TextFields(o), 8) == end
    ensures |Payload(o)| == end && ReadNumbers(Payload(o)).Got?
    ensures ReadNumbers(Payload(o)).value ==
            Numbers(end, TDS_VERSION_74, o.packetSize, o.clientProgramVersion, o.clientPid, 0)
  {
    LengthWord(o);
    PayloadParts(o, end);
    hide Preamble, AllOffsets, EncodedFields, StartOf, Descriptors, LittleEndian, ReadNumbers, TextFields, Payload;
    var middle := AllOffsets(Descriptors(TextFields(o))) + [0, 0, 0, 0, 0, 0];
    var closing := AllOffsets([EmptyAt(end), EmptyAt(end), EmptyAt(end)]);
    var back := LittleEndian(0, 4) + EncodedFields(TextFields(o));
    NumbersIgnoreRest(o, end, middle + closing + back);
  }

  /** The three descriptors behind the client id are empty and point at the end of the payload. */
  lemma ClosingDescriptorsEmpty(o: LoginOptions, end: U16)
    requires StartOf(TextFields(o), 8) == end
    ensures |Payload(o)| >= 90 && Payload(o)[78..90] == AllOffsets([EmptyAt(end), EmptyAt(end), EmptyAt(end)])
  {
    PayloadParts(o, end);
    hide Preamble, AllOffsets, EncodedFields, StartOf, Descriptors, LittleEndian, TextFields, Payload;
    var middle := AllOffsets(Descriptors(TextFields(o))) + [0, 0, 0, 0, 0, 0];
    var closing := AllOffsets([EmptyAt(end), EmptyAt(end), EmptyAt(end)]);
    var back := LittleEndian(0, 4) + EncodedFields(TextFields(o));
    SliceOfMiddle(Preamble(o, end) + middle, closing, back, 0, 12);
    assert closing[0..12] == closing;
  }

  // ---- the message byte by byte ----

  lemma XorStep(a: nat, x: nat, m: nat, y: nat, bits: nat)
    requires x <= 1 && y <= 1
    ensures y == 0 ==> Xor(2 * a + x, 2 * m + y, bits + 1) == 2 * Xor(a, m, bits) + x
    ensures y == 1 ==> Xor(2 * a + x, 2 * m + y, bits + 1) == 2 * Xor(a, m, bits) + (1 - x)
  {
    assert (2 * a + x) / 2 == a && (2 * m + y) / 2 == m && (2 * a + x) % 2 == x && (2 * m + y) % 2 == y;
  }

  lemma XorNothing()
    ensures Xor(0, 0, 0) == 0
  {
  }

  /** Two more bits, against the mask bits 10. */
  lemma XorTen(a: nat, x: nat, y: nat, m: nat, bits: nat)
    requires x <= 1 && y <= 1
    ensures Xor(4 * a + 2 * x + y, 4 * m + 2, bits + 2) == 4 * Xor(a, m, bits) + 2 * (1 - x) + y
  {
    hide Xor;
    XorStep(a, x, m, 1, bits);
    XorStep(2 * a + x, y, 2 * m + 1, 0, bits + 1);
  }

  /** The same against 01. */
  lemma XorOne(a: nat, x: nat, y: nat, m: nat, bits: nat)
    requires x <= 1 && y <= 1
    ensures Xor(4 * a + 2 * x + y, 4 * m + 1, bits + 2) == 4 * Xor(a, m, bits) + 2 * x + (1 - y)
  {
    hide Xor;
    XorStep(a, x, m, 0, bits);
    XorStep(2 * a + x, y, 2 * m, 1, bits + 1);
  }

  /** Four bits, highest first. */
  function Nibble(b3: nat, b2: nat, b1: nat, b0: nat): nat { 4 * (2 * b3 + b2) + 2 * b1 + b0 }

  lemma NibbleBound(b3: nat, b2: nat, b1: nat, b0: nat)
    requires b3 <= 1 && b2 <= 1 && b1 <= 1 && b0 <= 1
    ensures Nibble(b3, b2, b1, b0) < 16
  {
  }

  /** Four more bits, against the first half of the mask. */
  lemma XorHigh(a: nat, b3: nat, b2: nat, b1: nat, b0: nat, m: nat, bits: nat)
    requires b3 <= 1 && b2 <= 1 && b1 <= 1 && b0 <= 1
    ensures Xor(16 * a + Nibble(b3, b2, b1, b0), 16 * m + 10, bits + 4)
            == 16 * Xor(a, m, bits) + Nibble(1 - b3, b2, 1 - b1, b0)
  {
    hide Xor;
    var pair := 2 * b3 + b2;
    XorTen(a, b3, b2, m, bits);
    XorTen(4 * a + pair, b1, b0, 4 * m + 2, bits + 2);
  }

  /** The same against the second half. */
  lemma XorLow(a: nat, b3: nat, b2: nat, b1: nat, b0: nat, m: nat, bits: nat)
    requires b3 <= 1 && b2 <= 1 && b1 <= 1 && b0 <= 1
    ensures Xor(16 * a + Nibble(b3, b2, b1, b0), 16 * m + 5, bits + 4)
            == 16 * Xor(a, m, bits) + Nibble(b3, 1 - b2, b1, 1 - b0)
  {
    hide Xor;
    var pair := 2 * b3 + b2;
    XorOne(a, b3, b2, m, bits);
    XorOne(4 * a + pair, b1, b0, 4 * m + 1, bits + 2);
  }

  lemma HalvesSwap(high: nat, low: nat)
    requires high < 16 && low < 16
    ensures RotateFour(16 * high + low) == 16 * low + high
  {
  }

  lemma ObfuscateHalves(high: nat, low: nat)
    requires high < 16 && low < 16
    ensures Obfuscate(16 * high + low) == Xor(16 * low + high, 0xa5, 8)
  {
    hide Xor, RotateFour;
    HalvesSwap(high, low);
  }

  /** A password byte on the wire: its halves change places, and the first and third bit of the new high half and
      the second and fourth of the new low half are flipped. */
  lemma ObfuscatedBits(h3: nat, h2: nat, h1: nat, h0: nat, l3: nat, l2: nat, l1: nat, l0: nat)
    requires h3 <= 1 && h2 <= 1 && h1 <= 1 && h0 <= 1 && l3 <= 1 && l2 <= 1 && l1 <= 1 && l0 <= 1
    ensures var byte := 16 * Nibble(h3, h2, h1, h0) + Nibble(l3, l2, l1, l0);
            byte < 256 && Obfuscate(byte) == 16 * Nibble(1 - l3, l2, 1 - l1, l0) + Nibble(h3, 1 - h2, h1, 1 - h0)
  {
    hide Xor, Nibble, Obfuscate;
    XorNothing();
    var high, low := Nibble(h3, h2, h1, h0), Nibble(l3, l2, l1, l0);
    NibbleBound(h3, h2, h1, h0);
    NibbleBound(l3, l2, l1, l0);
    ObfuscateHalves(high, low);
    XorHigh(0, l3, l2, l1, l0, 0, 0);
    XorLow(low, h3, h2, h1, h0, 10, 4);
  }

  /** What a server finds through the four descriptor bytes at `at`: a little-endian offset and a count of UTF-16 units. */
  predicate TextAt(payload: Bytes, at: nat, value: Text) {
    at + 4 <= |payload| &&
    var start := payload[at] as int + 256 * payload[at + 1] as int;
    && payload[at + 2] as int + 256 * payload[at + 3] as int == |value| && start + 2 * |value| <= |payload|
    && forall k | 0 <= k < |value| ::
         payload[start + 2 * k] as int + 256 * payload[start + 2 * k + 1] as int == value[k]
  }

  predicate MaskedTextAt(payload: Bytes, at: nat, value: Text) {
    at + 4 <= |payload| &&
    var start := payload[at] as int + 256 * payload[at + 1] as int;
    && payload[at + 2] as int + 256 * payload[at + 3] as int == |value| && start + 2 * |value| <= |payload|
    && forall k | 0 <= k < |value| ::
         Unmask(payload[start + 2 * k]) as int + 256 * Unmask(payload[start + 2 * k + 1]) as int == value[k]
  }

  lemma UnitsHead(b: Bytes)
    requires |b| % 2 == 0 && |b| > 0
    ensures Units(b)[0] == b[0] as int + 256 * b[1] as int
  {
  }

  lemma {:induction false} UnitsAt(b: Bytes, k: nat)
    requires |b| % 2 == 0 && k < |b| / 2
    ensures |Units(b)| == |b| / 2 && Units(b)[k] == b[2 * k] as int + 256 * b[2 * k + 1] as int
    decreases |b|
  {
    hide Word;
    if k == 0 {
      UnitsHead(b);
    } else {
      UnitsAt(b[2..], k - 1);
      assert b[2..][2 * (k - 1)] == b[2 * k] && b[2..][2 * (k - 1) + 1] == b[2 * k + 1];
    }
  }

  lemma HeldText(payload: Bytes, i: nat, field: Field)
    requires i < 8 && FIXED_LEN <= |payload| && HoldsField(payload, i, field)
    ensures field.obfuscate ==> MaskedTextAt(payload, 36 + 4 * DescriptorIndex(i), field.text)
    ensures !field.obfuscate ==> TextAt(payload, 36 + 4 * DescriptorIndex(i), field.text)
  {
    hide Unmask, Units;
    var d := DescriptorAt(payload, DescriptorIndex(i));
    var b := payload[d.offset..EndOf(d)];
    var shown := if field.obfuscate then Map(Unmask, b) else b;
    forall k | 0 <= k < |field.text|
      ensures shown[2 * k] as int + 256 * shown[2 * k + 1] as int == field.text[k]
    {
      UnitsAt(shown, k);
    }
  }

  /** The two payload bytes per unit of every text of the login. */
  function TextBytes(o: LoginOptions): nat {
    2 * (|o.hostname| + |o.username| + (if o.password.Some? then |o.password.value| else 0) + |o.appName|
         + |o.serverName| + |o.clientInterfaceName| + |o.language| + |o.database|)
  }

  lemma TotalOfTexts(o: LoginOptions)
    ensures 2 * TotalUnits(TextFields(o)) == TextBytes(o)
  {
    var fields := TextFields(o);
    EmptyTotal();
    assert fields[..0] == [] && fields[..8] == fields;
    TotalsOfEight(fields);
  }

  lemma TotalsOfEight(fields: seq<Field>)
    requires |fields| == 8
    ensures TotalUnits(fields[..8]) == TotalUnits(fields[..0])
      + |fields[0].text| + |fields[1].text| + |fields[2].text| + |fields[3].text|
      + |fields[4].text| + |fields[5].text| + |fields[6].text| + |fields[7].text|
  {
    hide TotalUnits;
    TotalStep(fields, 0);
    TotalStep(fields, 1);
    TotalStep(fields, 2);
    TotalStep(fields, 3);
    TotalStep(fields, 4);
    TotalStep(fields, 5);
    TotalStep(fields, 6);
    TotalStep(fields, 7);
  }

  lemma FieldByName(o: LoginOptions, i: nat)
    requires Built(o).Ok? && i < 8
    ensures var field, at := TextFields(o)[i], 36 + 4 * DescriptorIndex(i);
            if field.obfuscate then MaskedTextAt(Built(o).value, at, field.text) else TextAt(Built(o).value, at, field.text)
  {
    hide HoldsField, TextAt, MaskedTextAt, Built, TotalUnits;
    LoginPayloadReadsBack(o, i);
    HeldText(Built(o).value, i, TextFields(o)[i]);
  }

  /** A login is built exactly when its texts and the fixed part take at most 65535 bytes, and is that long. */
  lemma LoginBuildsIff(o: LoginOptions)
    ensures Built(o).Ok? <==> 94 + TextBytes(o) <= 0xffff
    ensures Built(o).Ok? ==> |Built(o).value| == 94 + TextBytes(o)
  {
    hide HoldsField, Built, TotalUnits, TextBytes, ReadU32;
    TotalOfTexts(o);
    LoginPayloadReadsBack(o, 0);
  }

  /** Every option is in its own place: what a server reads through the descriptor at each byte position of the
      header. Only the password is obfuscated, and an absent one is the empty text. */
  lemma LoginFieldsByName(o: LoginOptions)
    requires Built(o).Ok?
    ensures var payload := Built(o).value;
            && TextAt(payload, 36, o.hostname)
            && TextAt(payload, 40, o.username)
            && MaskedTextAt(payload, 44, if o.password.Some? then o.password.value else [])
            && TextAt(payload, 48, o.appName)
            && TextAt(payload, 52, o.serverName)
            && TextAt(payload, 60, o.clientInterfaceName)
            && TextAt(payload, 64, o.language)
            && TextAt(payload, 68, o.database)
  {
    hide TextAt, MaskedTextAt, Built;
    FieldByName(o, 0);
    FieldByName(o, 1);
    FieldByName(o, 2);
    FieldByName(o, 3);
    FieldByName(o, 4);
    FieldByName(o, 5);
    FieldByName(o, 6);
    FieldByName(o, 7);
  }

  /** The bytes between the texts' descriptors: flags, time zone and locale, the unused descriptor pointing where
      the next one does, the client id, and the three empty descriptors at the payload's end. */
  lemma LoginConstants(o: LoginOptions)
    requires Built(o).Ok?
    ensures var payload := Built(o).value;
            && |payload| >= 94
            && payload[4..8] == [4, 0, 0, 0x74]
            && payload[20..36] == [0, 0, 0, 0, 0xe0, 3, 0, 0, 0, 0, 0, 0, 0, 0, 0, 0]
            && payload[56] == payload[60] && payload[57] == payload[61] && payload[58] == 0 && payload[59] == 0
            && payload[72..78] == [0, 0, 0, 0, 0, 0]
            && EmptyEnd(payload, 78) && EmptyEnd(payload, 82) && EmptyEnd(payload, 86)
            && payload[90..94] == [0, 0, 0, 0]
  {
    BuildsIff(o);
    var end := StartOf(TextFields(o), 8);
    LengthWord(o);
    PayloadParts(o, end);
    ConstantsOfParts(o, end);
    UnusedDescriptor(o, Payload(o));
  }

  /** A descriptor of no units at the end of the payload. */
  predicate EmptyEnd(payload: Bytes, at: nat) {
    && at + 4 <= |payload| && payload[at] as int + 256 * payload[at + 1] as int == |payload|
    && payload[at + 2] == 0 && payload[at + 3] == 0
  }

  lemma ZeroBytes()
    ensures LittleEndian(0, 4) == [0, 0, 0, 0]
    ensures LittleEndian(TDS_VERSION_74, 4) == [4, 0, 0, 0x74]
  {
    LittleEndianFour(0, 0, 0, 0);
    LittleEndianFour(4, 0, 0, 0x74);
  }

  lemma PreambleConstants(o: LoginOptions, total: U32)
    ensures Preamble(o, total)[4..8] == [4, 0, 0, 0x74]
    ensures Preamble(o, total)[20..36] == [0, 0, 0, 0, 0xe0, 3, 0, 0, 0, 0, 0, 0, 0, 0, 0, 0]
  {
    ZeroBytes();
    hide LittleEndian;
    assert Preamble(o, total)[4..8] == LittleEndian(TDS_VERSION_74, 4);
    assert Preamble(o, total)[20..36] == [0, 0, 0, 0] + [0xe0, 3, 0, 0] + [0, 0, 0, 0] + [0, 0, 0, 0];
  }

  lemma EmptyAtBytes(end: U16)
    ensures var b := OffsetBytes(EmptyAt(end));
            b[0] as int + 256 * b[1] as int == end && b[2] == 0 && b[3] == 0
    ensures AllOffsets([EmptyAt(end), EmptyAt(end), EmptyAt(end)])
            == OffsetBytes(EmptyAt(end)) + OffsetBytes(EmptyAt(end)) + OffsetBytes(EmptyAt(end))
  {
    var e := EmptyAt(end);
    assert [e, e, e][..2] == [e, e] && [e, e][..1] == [e] && [e][..0] == [];
    hide OffsetBytes;
    assert AllOffsets([e]) == OffsetBytes(e);
    assert AllOffsets([e, e]) == OffsetBytes(e) + OffsetBytes(e);
  }

  lemma ConstantsOfParts(o: LoginOptions, end: U16)
    requires StartOf(TextFields(o), 8) == end && |Payload(o)| == end
    ensures var payload := Payload(o);
            && |payload| >= 94
            && payload[4..8] == [4, 0, 0, 0x74]
            && payload[20..36] == [0, 0, 0, 0, 0xe0, 3, 0, 0, 0, 0, 0, 0, 0, 0, 0, 0]
            && payload[72..78] == [0, 0, 0, 0, 0, 0]
            && EmptyEnd(payload, 78) && EmptyEnd(payload, 82) && EmptyEnd(payload, 86)
            && payload[90..94] == [0, 0, 0, 0]
  {
    PayloadParts(o, end);
    PreambleConstants(o, end);
    EmptyAtBytes(end);
    ZeroBytes();
    hide Preamble, AllOffsets, EncodedFields, StartOf, Descriptors, LittleEndian, TextFields, Payload, OffsetBytes;
    var pre, table, fields := Preamble(o, end), AllOffsets(Descriptors(TextFields(o))), EncodedFields(TextFields(o));
    var e := OffsetBytes(EmptyAt(end));
    assert Payload(o) == pre + (table + [0, 0, 0, 0, 0, 0]) + (e + e + e) + ([0, 0, 0, 0] + fields);
    ConstantsAt(pre, table, e, fields);
  }

  lemma ConstantsAt(pre: Bytes, table: Bytes, e: Bytes, fields: Bytes)
    requires |pre| == 36 && |table| == 36 && |e| == 4
    ensures var p := pre + (table + [0, 0, 0, 0, 0, 0]) + (e + e + e) + ([0, 0, 0, 0] + fields);
            && p[4..8] == pre[4..8] && p[20..36] == pre[20..36] && p[72..78] == [0, 0, 0, 0, 0, 0]
            && p[78..82] == e && p[82..86] == e && p[86..90] == e && p[90..94] == [0, 0, 0, 0]
  {
    var id, zero := [0, 0, 0, 0, 0, 0], [0, 0, 0, 0];
    PartsAt(pre, table, id, e, zero, fields);
  }

  lemma PartsAt(pre: Bytes, table: Bytes, id: Bytes, e: Bytes, zero: Bytes, fields: Bytes)
    requires |pre| == 36 && |table| == 36 && |id| == 6 && |e| == 4 && |zero| == 4
    ensures var p := pre + (table + id) + (e + e + e) + (zero + fields);
            && p[4..8] == pre[4..8] && p[20..36] == pre[20..36] && p[72..78] == id
            && p[78..82] == e && p[82..86] == e && p[86..90] == e && p[90..94] == zero
  {
    var ends, back := e + e + e, zero + fields;
    var p := pre + (table + id) + ends + back;
    assert p[78..90] == ends;
    assert p[78..90][0..4] == p[78..82] && p[78..90][4..8] == p[82..86] && p[78..90][8..12] == p[86..90];
    EndsAt(e);
  }

  lemma EndsAt(e: Bytes)
    requires |e| == 4
    ensures (e + e + e)[0..4] == e && (e + e + e)[4..8] == e && (e + e + e)[8..12] == e
  {
  }

  lemma UnusedDescriptor(o: LoginOptions, payload: Bytes)
    requires StartOf(TextFields(o), 8) <= 0xffff && payload == Payload(o) && |payload| >= 94
    ensures payload[56] == payload[60] && payload[57] == payload[61] && payload[58] == 0 && payload[59] == 0
  {
    assert |TextFields(o)| == 8;
    hide Payload, TextFields, StartOf, Descriptors, DescriptorAt;
    SixthPointsAtSeventh(TextFields(o));
    HeaderHoldsDescriptors(o, 5);
    HeaderHoldsDescriptors(o, 6);
    UnusedBytes(payload, DescriptorAt(payload, 5), DescriptorAt(payload, 6));
  }

  lemma UnusedBytes(payload: Bytes, unused: FieldOffset, next: FieldOffset)
    requires |payload| >= 94 && DescriptorAt(payload, 5) == unused && DescriptorAt(payload, 6) == next
    requires unused.lenChars == 0 && unused.offset == next.offset
    ensures payload[56] == payload[60] && payload[57] == payload[61] && payload[58] == 0 && payload[59] == 0
  {
    WordsEqual(payload[56], payload[57], payload[60], payload[61]);
    WordsEqual(payload[58], payload[59], 0, 0);
  }

  lemma WordsEqual(a: Byte, b: Byte, c: Byte, d: Byte)
    ensures Word(a, b) == Word(c, d) ==> a == c && b == d
  {
  }

  lemma SixthPointsAtSeventh(fields: seq<Field>)
    requires |fields| == 8 && StartOf(fields, 8) <= 0xffff
    ensures Descriptors(fields)[5].lenChars == 0 && Descriptors(fields)[5].offset == Descriptors(fields)[6].offset
  {
    hide TotalUnits;
    TotalMonotone(fields, 5, 8);
  }
}
