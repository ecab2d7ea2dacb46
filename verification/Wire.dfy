/** Bytes, fixed-width integers and the cursor primitives shared by every codec. */
module Wire {

  type Byte = x: int | 0 <= x < 0x100
  type U16 = x: int | 0 <= x < 0x1_0000
  type U32 = x: int | 0 <= x < 0x1_0000_0000
  type U64 = x: int | 0 <= x < 0x1_0000_0000_0000_0000

  type Bytes = seq<Byte>

  /** Text is a sequence of UTF-16 code units. */
  type Text = seq<U16>

  const U32_MAX: nat := 0xffff_ffff

  datatype Option<+T> = None | Some(value: T)

  datatype Result<+T, +E> = Ok(value: T) | Err(error: E)

  /** Everything that can stop a cursor reader. */
  datatype ReadError =
    | EndOfInput
    | UnknownDataType(code: Byte)
    | UnsupportedDataType
    | InvalidScale(scale: Byte)
    | InvalidNumberSize   // an IntN/FloatN width the driver treats as unreachable
    | CapacityOverflow    // a declared blob length no buffer can be reserved for
    | BadPacketSize       // ENVCHANGE packet size text that is not a 32-bit number
    | UnsupportedToken(token: Byte)
    | TrailingTokenBytes(count: nat)
    | ServerError(info: ServerErrorInfo)

  /** What the server says about a failed request. */
  datatype ServerErrorInfo = ServerErrorInfo(
    number: U32, state: Byte, severity: Byte, message: Text, serverName: Text, procedureName: Text, lineNumber: U32)

  /** Outcome of reading one item from the front of a cursor: the item and what is left. */
  datatype Read<+T> = Got(value: T, rest: Bytes) | Fail(error: ReadError) {
    predicate IsFailure() { Fail? }

    function PropagateFailure<U>(): Read<U>
      requires Fail?
    {
      Fail(error)
    }

    function Extract(): (T, Bytes)
      requires Got?
    {
      (value, rest)
    }

    /** The same outcome with more bytes behind the cursor. */
    function Before(tail: Bytes): Read<T> {
      match this
      case Got(v, rest) => Got(v, rest + tail)
      case Fail(e) => Fail(e)
    }
  }

  function Pow256(width: nat): (p: nat)
    ensures p > 0
  {
    if width == 0 then 1 else 256 * Pow256(width - 1)
  }

  function Pow2(n: nat): (p: nat)
    ensures p > 0
  {
    if n == 0 then 1 else 2 * Pow2(n - 1)
  }

  /** The low `width` bytes of `n`, least significant first. */
  function LittleEndian(n: nat, width: nat): (b: Bytes)
    ensures |b| == width
  {
    seq(width, i requires 0 <= i < width => n / Pow256(i) % 256)
  }

  function FromLittleEndian(b: Bytes): (n: nat) {
    if |b| == 0 then 0 else b[0] + 256 * FromLittleEndian(b[1..])
  }

  function Le16(n: U16): (b: Bytes)
    ensures |b| == 2
  {
    [n % 256, n / 256]
  }

  function BigEndian16(n: U16): (b: Bytes)
    ensures |b| == 2
  {
    [n / 256, n % 256]
  }

  /** The 16-bit number with the given low and high bytes. */
  function Word(lo: Byte, hi: Byte): U16 { lo as int + 256 * (hi as int) }

  lemma MultipleBounds(m: int, d: int)
    requires m >= 0
    ensures d >= 1 ==> m * d >= m
    ensures d <= -1 ==> m * d <= -m
  {
    if d >= 1 {
      assert m * (d - 1) >= 0;
    } else if d <= -1 {
      assert m * (-d - 1) >= 0;
    }
  }

  lemma QuotientUnique(a: nat, m: nat, q: int, r: int)
    requires a == m * q + r && 0 <= r < m
    ensures a / m == q
  {
    MultipleBounds(m, q - a / m);
    assert m * (q - a / m) == m * q - m * (a / m);
  }

  lemma DivideTwice(n: nat, p: nat)
    requires p > 0
    ensures n / 256 / p == n / (256 * p)
  {
    var q := n / 256;
    assert 256 * p * (q / p) == 256 * (p * (q / p));
    QuotientUnique(n, 256 * p, q / p, 256 * (q % p) + n % 256);
  }

  lemma LittleEndianStep(n: nat, width: nat)
    requires width > 0
    ensures LittleEndian(n, width) == [n % 256] + LittleEndian(n / 256, width - 1)
  {
    forall i: nat | 0 < i < width ensures n / Pow256(i) % 256 == n / 256 / Pow256(i - 1) % 256 {
      DivideTwice(n, Pow256(i - 1));
    }
  }

  lemma {:induction false} LittleEndianRoundTrip(n: nat, width: nat)
    requires n < Pow256(width)
    ensures FromLittleEndian(LittleEndian(n, width)) == n
  {
    if width != 0 {
      LittleEndianRoundTrip(n / 256, width - 1);
      LittleEndianStep(n, width);
      assert LittleEndian(n, width)[1..] == LittleEndian(n / 256, width - 1);
    }
  }

  lemma {:induction false} FromLittleEndianBound(b: Bytes)
    ensures FromLittleEndian(b) < Pow256(|b|)
  {
    if |b| != 0 {
      FromLittleEndianBound(b[1..]);
    }
  }

  /** Every byte string is the encoding of the number it denotes. */
  lemma {:induction false} LittleEndianOfBytes(b: Bytes)
    ensures LittleEndian(FromLittleEndian(b), |b|) == b
  {
    hide LittleEndian, Pow256;
    if |b| != 0 {
      LittleEndianOfBytes(b[1..]);
      LittleEndianStep(FromLittleEndian(b), |b|);
      assert b == [b[0]] + b[1..];
    }
  }

  lemma Pow256Values()
    ensures Pow256(1) == 0x100
    ensures Pow256(2) == 0x1_0000
    ensures Pow256(3) == 0x100_0000
    ensures Pow256(4) == 0x1_0000_0000
    ensures Pow256(5) == 0x100_0000_0000
    ensures Pow256(8) == 0x1_0000_0000_0000_0000
    ensures Pow256(16) == 0x1_0000_0000_0000_0000_0000_0000_0000_0000
  {
    assert Pow256(4) == 256 * Pow256(3) == 65536 * Pow256(2);
    assert Pow256(8) == 256 * Pow256(7) == 65536 * Pow256(6) == 0x1_0000_0000 * Pow256(4);
    assert Pow256(12) == 256 * Pow256(11) == 65536 * Pow256(10) == 0x1_0000_0000 * Pow256(8);
    assert Pow256(16) == 256 * Pow256(15) == 65536 * Pow256(14) == 0x1_0000_0000 * Pow256(12);
  }

  lemma Pow2Values()
    ensures Pow2(1) == 2 && Pow2(2) == 4 && Pow2(3) == 8 && Pow2(4) == 16
    ensures Pow2(5) == 32 && Pow2(6) == 64 && Pow2(7) == 128 && Pow2(8) == 256
  {
    assert Pow2(4) == 2 * Pow2(3) == 4 * Pow2(2);
    assert Pow2(8) == 2 * Pow2(7) == 4 * Pow2(6) == 8 * Pow2(5) == 16 * Pow2(4);
  }

  /** The 16-bit forms are the general little-endian ones, and big-endian reverses them. */
  lemma WordsAreLittleEndian(n: U16, lo: Byte, hi: Byte)
    ensures Le16(n) == LittleEndian(n, 2)
    ensures BigEndian16(n) == [LittleEndian(n, 2)[1], LittleEndian(n, 2)[0]]
    ensures Word(lo, hi) == FromLittleEndian([lo, hi])
  {
    LittleEndianStep(n, 2);
    LittleEndianStep(n / 256, 1);
    assert [lo, hi][1..] == [hi] && [hi][1..] == [];
    assert FromLittleEndian([hi]) == hi;
  }

  // ---- cursor primitives ----

  function Take(input: Bytes, n: nat): Read<Bytes> {
    if n <= |input| then Got(input[..n], input[n..]) else Fail(EndOfInput)
  }

  function ReadByte(input: Bytes): Read<Byte> {
    if |input| == 0 then Fail(EndOfInput) else Got(input[0], input[1..])
  }

  function ReadU16(input: Bytes): Read<U16> {
    if |input| < 2 then Fail(EndOfInput) else Got(Word(input[0], input[1]), input[2..])
  }

  function ReadU32(input: Bytes): (r: Read<U32>) {
    var (bytes, rest) :- Take(input, 4);
    FromLittleEndianBound(bytes);
    Pow256Values();
    Got(FromLittleEndian(bytes), rest)
  }

  function ReadU64(input: Bytes): (r: Read<U64>) {
    var (bytes, rest) :- Take(input, 8);
    FromLittleEndianBound(bytes);
    Pow256Values();
    Got(FromLittleEndian(bytes), rest)
  }

  /** Two-byte length, then that many bytes. */
  function ReadLenPrefixed(input: Bytes): Read<Bytes> {
    var (len, rest) :- ReadU16(input);
    Take(rest, len)
  }

  function Units(bytes: Bytes): (t: Text)
    requires |bytes| % 2 == 0
    ensures |t| == |bytes| / 2
  {
    if |bytes| == 0 then [] else [Word(bytes[0], bytes[1])] + Units(bytes[2..])
  }

  function Utf16(t: Text): (b: Bytes)
    ensures |b| == 2 * |t|
  {
    if |t| == 0 then [] else [t[0] % 256, t[0] / 256] + Utf16(t[1..])
  }

  function ReadUtf16(input: Bytes, units: nat): Read<Text> {
    var (bytes, rest) :- Take(input, 2 * units);
    Got(Units(bytes), rest)
  }

  /** One-byte unit count, then UTF-16 text. */
  function ReadBVarChar(input: Bytes): Read<Text> {
    var (len, rest) :- ReadByte(input);
    ReadUtf16(rest, len)
  }

  /** Two-byte unit count, then UTF-16 text. */
  function ReadUsVarChar(input: Bytes): Read<Text> {
    var (len, rest) :- ReadU16(input);
    ReadUtf16(rest, len)
  }

  /** One-byte length, then that many bytes. */
  function ReadBVarByte(input: Bytes): Read<Bytes> {
    var (len, rest) :- ReadByte(input);
    Take(rest, len)
  }

  // ---- round trips with an arbitrary suffix ----

  lemma TakeExact(bytes: Bytes, tail: Bytes)
    ensures Take(bytes + tail, |bytes|) == Got(bytes, tail)
  {
    assert (bytes + tail)[..|bytes|] == bytes;
    assert (bytes + tail)[|bytes|..] == tail;
  }

  lemma ReadByteExact(b: Byte, tail: Bytes)
    ensures ReadByte([b] + tail) == Got(b, tail)
  {
    assert ([b] + tail)[1..] == tail;
  }

  lemma ReadU16Exact(n: U16, tail: Bytes)
    ensures ReadU16(Le16(n) + tail) == Got(n, tail)
  {
    assert (Le16(n) + tail)[2..] == tail;
  }

  lemma ReadU32Exact(n: U32, tail: Bytes)
    ensures ReadU32(LittleEndian(n, 4) + tail) == Got(n, tail)
  {
    TakeExact(LittleEndian(n, 4), tail);
    Pow256Values();
    LittleEndianRoundTrip(n, 4);
  }

  lemma ReadU64Exact(n: U64, tail: Bytes)
    ensures ReadU64(LittleEndian(n, 8) + tail) == Got(n, tail)
  {
    TakeExact(LittleEndian(n, 8), tail);
    Pow256Values();
    LittleEndianRoundTrip(n, 8);
  }

  lemma Assoc<A>(a: seq<A>, b: seq<A>, c: seq<A>)
    ensures a + b + c == a + (b + c)
  {
  }

  lemma ReadU32Front(n: U32, body: Bytes, tail: Bytes)
    ensures ReadU32(LittleEndian(n, 4) + body + tail) == Got(n, body + tail)
  {
    Assoc(LittleEndian(n, 4), body, tail);
    ReadU32Exact(n, body + tail);
  }

  lemma ReadU64Front(n: U64, body: Bytes, tail: Bytes)
    ensures ReadU64(LittleEndian(n, 8) + body + tail) == Got(n, body + tail)
  {
    Assoc(LittleEndian(n, 8), body, tail);
    ReadU64Exact(n, body + tail);
  }

  lemma {:induction false} Utf16RoundTrip(t: Text)
    ensures Units(Utf16(t)) == t
  {
    if |t| != 0 {
      Utf16RoundTrip(t[1..]);
      assert Utf16(t)[2..] == Utf16(t[1..]);
      assert t == [t[0]] + t[1..];
    }
  }

  /** Unit `k` of a text lies in bytes 2k and 2k + 1, low byte first. */
  lemma {:induction false} Utf16At(t: Text, k: nat)
    requires k < |t|
    ensures Utf16(t)[2 * k] as int + 256 * Utf16(t)[2 * k + 1] as int == t[k]
    decreases k
  {
    if k > 0 {
      Utf16At(t[1..], k - 1);
      assert Utf16(t)[2..] == Utf16(t[1..]);
      assert Utf16(t)[2 * k] == Utf16(t)[2..][2 * (k - 1)];
      assert Utf16(t)[2 * k + 1] == Utf16(t)[2..][2 * (k - 1) + 1];
    }
  }

  lemma ReadBVarCharExact(t: Text, tail: Bytes)
    requires |t| < 256
    ensures ReadBVarChar([|t|] + Utf16(t) + tail) == Got(t, tail)
  {
    hide Utf16, Units;
    assert [|t|] + Utf16(t) + tail == [|t|] + (Utf16(t) + tail);
    ReadByteExact(|t|, Utf16(t) + tail);
    TakeExact(Utf16(t), tail);
    Utf16RoundTrip(t);
  }

  lemma ReadUsVarCharExact(t: Text, tail: Bytes)
    requires |t| < 0x1_0000
    ensures ReadUsVarChar(Le16(|t|) + Utf16(t) + tail) == Got(t, tail)
  {
    hide Utf16, Units, Le16, ReadU16;
    Assoc(Le16(|t|), Utf16(t), tail);
    ReadU16Exact(|t|, Utf16(t) + tail);
    TakeExact(Utf16(t), tail);
    Utf16RoundTrip(t);
  }

  lemma ReadLenPrefixedExact(body: Bytes, tail: Bytes)
    requires |body| < 0x1_0000
    ensures ReadLenPrefixed(Le16(|body|) + body + tail) == Got(body, tail)
  {
    assert Le16(|body|) + body + tail == Le16(|body|) + (body + tail);
    ReadU16Exact(|body|, body + tail);
    TakeExact(body, tail);
  }

  lemma ReadBVarByteExact(body: Bytes, tail: Bytes)
    requires |body| < 0x100
    ensures ReadBVarByte([|body|] + body + tail) == Got(body, tail)
  {
    assert [|body|] + body + tail == [|body|] + (body + tail);
    ReadByteExact(|body|, body + tail);
    TakeExact(body, tail);
  }

  // ---- outcomes of loops that push items ----

  /** What a reader loop amounts to that has pushed `items` and still has `later` to go. */
  function Onto<A>(items: seq<A>, later: Read<seq<A>>): Read<seq<A>> {
    match later
    case Got(more, rest) => Got(items + more, rest)
    case Fail(e) => Fail(e)
  }

  lemma OntoStep<A>(items: seq<A>, more: seq<A>, later: Read<seq<A>>)
    ensures Onto(items, Onto(more, later)) == Onto(items + more, later)
    ensures Onto([], later) == later
  {
    if later.Got? {
      assert items + (more + later.value) == items + more + later.value;
      assert [] + later.value == later.value;
    }
  }

  /** The same for a loop over a buffer that is not consumed. */
  function Behind<A, E>(items: seq<A>, later: Result<seq<A>, E>): Result<seq<A>, E> {
    if later.Err? then later else Ok(items + later.value)
  }

  lemma BehindStep<A, E>(items: seq<A>, more: seq<A>, later: Result<seq<A>, E>)
    ensures Behind(items, Behind(more, later)) == Behind(items + more, later)
    ensures Behind([], later) == later
  {
    if later.Ok? {
      assert items + (more + later.value) == items + more + later.value;
      assert [] + later.value == later.value;
    }
  }

  // ---- repetition ----

  /** `n` items in a row. */
  function ReadMany<A>(reader: Bytes -> Read<A>, n: nat, input: Bytes): Read<seq<A>> {
    if n == 0 then Got([], input)
    else
      var (first, rest) :- reader(input);
      var (others, rest) :- ReadMany(reader, n - 1, rest);
      Got([first] + others, rest)
  }

  lemma {:induction false} ReadOneMore<A>(reader: Bytes -> Read<A>, n: nat, input: Bytes, seen: seq<A>, x: A, rest: Bytes)
    requires ReadMany(reader, n, input).Got? && ReadMany(reader, n, input).value == seen
    requires reader(ReadMany(reader, n, input).rest) == Got(x, rest)
    ensures ReadMany(reader, n + 1, input) == Got(seen + [x], rest)
    decreases n
  {
    if n == 0 {
      assert ReadMany(reader, 0, rest) == Got([], rest);
      assert [x] + [] == [] + [x];
    } else {
      var first := reader(input);
      ReadOneMore(reader, n - 1, first.rest, ReadMany(reader, n - 1, first.rest).value, x, rest);
      assert [first.value] + (seen[1..] + [x]) == seen + [x];
    }
  }

  lemma ReadAnother<A>(reader: Bytes -> Read<A>, n: nat, input: Bytes, x: A, rest: Bytes, later: seq<A>, tail: Bytes)
    requires reader(input) == Got(x, rest) && ReadMany(reader, n, rest) == Got(later, tail)
    ensures ReadMany(reader, n + 1, input) == Got([x] + later, tail)
  {
  }

  // ---- locality: bytes behind what a reader consumed never influence it ----

  lemma TakeLocal(input: Bytes, n: nat, tail: Bytes)
    requires Take(input, n).Got?
    ensures Take(input + tail, n) == Take(input, n).Before(tail)
  {
    assert (input + tail)[..n] == input[..n];
    assert (input + tail)[n..] == input[n..] + tail;
  }

  lemma ReadersLocal(input: Bytes, tail: Bytes)
    ensures ReadByte(input).Got? ==> ReadByte(input + tail) == ReadByte(input).Before(tail)
    ensures ReadU16(input).Got? ==> ReadU16(input + tail) == ReadU16(input).Before(tail)
    ensures ReadU32(input).Got? ==> ReadU32(input + tail) == ReadU32(input).Before(tail)
    ensures ReadU64(input).Got? ==> ReadU64(input + tail) == ReadU64(input).Before(tail)
  {
    if |input| >= 1 { assert (input + tail)[1..] == input[1..] + tail; }
    if |input| >= 2 { assert (input + tail)[2..] == input[2..] + tail; }
    if |input| >= 4 { TakeLocal(input, 4, tail); }
    if |input| >= 8 { TakeLocal(input, 8, tail); }
  }

  lemma ReadBVarCharLocal(input: Bytes, tail: Bytes)
    requires ReadBVarChar(input).Got?
    ensures ReadBVarChar(input + tail) == ReadBVarChar(input).Before(tail)
  {
    ReadersLocal(input, tail);
    var len: int := input[0];
    TakeLocal(input[1..], 2 * len, tail);
  }

  lemma ReadLenPrefixedLocal(input: Bytes, tail: Bytes)
    requires ReadLenPrefixed(input).Got?
    ensures ReadLenPrefixed(input + tail) == ReadLenPrefixed(input).Before(tail)
  {
    ReadersLocal(input, tail);
    TakeLocal(input[2..], ReadU16(input).value, tail);
  }

  ghost predicate LocalAt<A>(reader: Bytes -> Read<A>, input: Bytes, tail: Bytes) {
    reader(input).Got? ==> reader(input + tail) == reader(input).Before(tail)
  }

  lemma {:induction false} ReadManyLocal<A>(reader: Bytes -> Read<A>, n: nat, input: Bytes, tail: Bytes)
    requires ReadMany(reader, n, input).Got?
    requires forall i: Bytes :: LocalAt(reader, i, tail)
    ensures ReadMany(reader, n, input + tail) == ReadMany(reader, n, input).Before(tail)
    decreases n
  {
    if n > 0 {
      assert LocalAt(reader, input, tail);
      ReadManyLocal(reader, n - 1, reader(input).rest, tail);
    }
  }

  lemma {:induction false} ReadManyShrinks<A>(reader: Bytes -> Read<A>, n: nat, input: Bytes)
    requires ReadMany(reader, n, input).Got?
    requires forall i: Bytes :: reader(i).Got? ==> |reader(i).rest| <= |i|
    ensures |ReadMany(reader, n, input).rest| <= |input| && |ReadMany(reader, n, input).value| == n
    decreases n
  {
    if n > 0 {
      ReadManyShrinks(reader, n - 1, reader(input).rest);
    }
  }

  // ---- byte order ----

  /** The low byte comes first. */
  lemma LittleEndianFour(a: Byte, b: Byte, c: Byte, d: Byte)
    ensures LittleEndian(a as int + 256 * (b as int + 256 * (c as int + 256 * d as int)), 4) == [a, b, c, d]
  {
    hide LittleEndian;
    LittleEndianNext(d, 0, 0);
    LittleEndianNext(c, d, 1);
    LittleEndianNext(b, c as int + 256 * d as int, 2);
    LittleEndianNext(a, b as int + 256 * (c as int + 256 * d as int), 3);
    assert LittleEndian(0, 0) == [];
  }

  lemma LittleEndianNext(low: Byte, rest: nat, width: nat)
    ensures LittleEndian(low as int + 256 * rest, width + 1) == [low] + LittleEndian(rest, width)
  {
    hide LittleEndian;
    LittleEndianStep(low as int + 256 * rest, width + 1);
  }

  lemma LittleEndianEight(a: Byte, b: Byte, c: Byte, d: Byte, rest: nat)
    ensures LittleEndian(a as int + 256 * (b as int + 256 * (c as int + 256 * (d as int + 256 * rest))), 8)
            == [a, b, c, d] + LittleEndian(rest, 4)
  {
    hide LittleEndian;
    LittleEndianNext(d, rest, 4);
    LittleEndianNext(c, d as int + 256 * rest, 5);
    LittleEndianNext(b, c as int + 256 * (d as int + 256 * rest), 6);
    LittleEndianNext(a, b as int + 256 * (c as int + 256 * (d as int + 256 * rest)), 7);
  }

  lemma FromLittleEndianFour(a: Byte, b: Byte, c: Byte, d: Byte)
    ensures FromLittleEndian([a, b, c, d]) == a as int + 256 * (b as int + 256 * (c as int + 256 * d as int))
  {
    var n := a as int + 256 * (b as int + 256 * (c as int + 256 * d as int));
    LittleEndianFour(a, b, c, d);
    Pow256Values();
    LittleEndianRoundTrip(n, 4);
  }
}
