/** Integers, money and decimals between their bytes and their values. */
module Numeric {
  import opened Wire

  datatype NumericError =
    | NullValue
    | EmptyNumeric
    | InvalidSign(b: Byte)
    | TooManyBytes(len: nat)
    | WrongLength(len: nat)
    | OutOfRange           // the value does not fit in 64 bits
    | PowerOverflow        // the power of ten does not fit in 128 bits

  const I64_MAX: nat := 0x7fff_ffff_ffff_ffff
  const U128_LIMIT: nat := 0x1_0000_0000_0000_0000_0000_0000_0000_0000

  // ---- powers of ten ----

  function Pow10(n: nat): (p: nat)
    ensures p > 0
  {
    if n == 0 then 1 else 10 * Pow10(n - 1)
  }

  lemma Shuffle(a: int, b: int, c: int)
    ensures a * b * c == a * (b * c)
  {
  }

  lemma {:induction false} Pow10Add(m: nat, n: nat)
    ensures Pow10(m + n) == Pow10(m) * Pow10(n)
    decreases m
  {
    if m > 0 {
      Pow10Add(m - 1, n);
      Shuffle(10, Pow10(m - 1), Pow10(n));
    }
  }

  lemma {:induction false} Pow10Monotone(m: nat, n: nat)
    requires m <= n
    ensures Pow10(m) <= Pow10(n)
    decreases n
  {
    if m < n {
      Pow10Monotone(m, n - 1);
    }
  }

  lemma Pow10Small()
    ensures Pow10(0) == 1 && Pow10(1) == 10 && Pow10(2) == 100 && Pow10(3) == 1000 && Pow10(4) == 10_000
  {
    assert Pow10(4) == 10 * Pow10(3) == 100 * Pow10(2) == 1000 * Pow10(1) == 10_000;
  }

  lemma Pow10Of38()
    ensures Pow10(38) == 100_000_000_000_000_000_000_000_000_000_000_000_000 < U128_LIMIT < Pow10(39)
  {
    Pow10Small();
    hide Pow10;
    Pow10Add(4, 4);
    Pow10Add(8, 8);
    Pow10Add(16, 16);
    Pow10Add(32, 4);
    Pow10Add(36, 2);
    Pow10Add(38, 1);
  }

  /** Exactly the powers up to the 38th fit in an unsigned 128-bit number. */
  lemma PowerFitsIff(n: nat)
    ensures Pow10(n) < U128_LIMIT <==> n <= 38
  {
    Pow10Of38();
    if n <= 38 {
      Pow10Monotone(n, 38);
    } else {
      Pow10Monotone(39, n);
    }
  }

  lemma DivideBoth(a: nat, b: nat, p: nat)
    requires b > 0 && p > 0
    ensures b * p > 0 && (a * p) / (b * p) == a / b
  {
    MultipleBounds(b, p);
    var q, r := a / b, a % b;
    assert a * p == (b * p) * q + r * p by {
      assert a == b * q + r;
      Shuffle(b, q, p);
      Shuffle(b, p, q);
    }
    assert 0 <= r * p < b * p by {
      MultipleBounds(p, b - r);
      assert p * (b - r) == b * p - r * p;
      MultipleBounds(p, r);
    }
    QuotientUnique(a * p, b * p, q, r * p);
  }

  function Abs(n: int): nat { if n < 0 then -n else n }

  // ---- NUMERIC bytes ----

  /** Sign and magnitude of a numeric value; the sign byte comes first. */
  function DecodeNumericBytes(bytes: Bytes): (r: Result<(int, nat), NumericError>)
    ensures r.Ok? ==> (r.value.0 == 1 || r.value.0 == -1) && r.value.1 < U128_LIMIT
  {
    if |bytes| == 0 then Err(EmptyNumeric)
    else if bytes[0] > 1 then Err(InvalidSign(bytes[0]))
    else if |bytes| > 17 then Err(TooManyBytes(|bytes| - 1))
    else
      MagnitudeBound(bytes[1..]);
      Ok((if bytes[0] == 0 then -1 else 1, FromLittleEndian(bytes[1..])))
  }

  function SignByte(n: int): Byte { if n < 0 then 0 else 1 }

  /** Exactly the byte strings with a sign byte and at most 16 magnitude bytes decode; sign and magnitude then give
      the bytes back, so no two of them mean the same pair at the same length. */
  lemma NumericBytesIff(bytes: Bytes)
    ensures DecodeNumericBytes(bytes).Ok? <==> 1 <= |bytes| <= 17 && bytes[0] <= 1
    ensures DecodeNumericBytes(bytes).Ok? ==>
              var (sign, n) := DecodeNumericBytes(bytes).value;
              bytes == [SignByte(sign)] + LittleEndian(n, |bytes| - 1)
    ensures |bytes| == 0 ==> DecodeNumericBytes(bytes) == Err(EmptyNumeric)
    ensures |bytes| > 0 && bytes[0] > 1 ==> DecodeNumericBytes(bytes) == Err(InvalidSign(bytes[0]))
    ensures |bytes| > 17 && bytes[0] <= 1 ==> DecodeNumericBytes(bytes) == Err(TooManyBytes(|bytes| - 1))
  {
    hide LittleEndian, FromLittleEndian;
    if 1 <= |bytes| <= 17 {
      LittleEndianOfBytes(bytes[1..]);
      assert bytes == [bytes[0]] + bytes[1..];
    }
  }

  /** Every magnitude that fits its bytes decodes to itself with its sign. */
  lemma NumericBytesReadBack(sign: int, n: nat, width: nat)
    requires (sign == 1 || sign == -1) && width <= 16 && n < Pow256(width)
    ensures DecodeNumericBytes([SignByte(sign)] + LittleEndian(n, width)) == Ok((sign, n))
  {
    hide LittleEndian, FromLittleEndian;
    LittleEndianRoundTrip(n, width);
    assert ([SignByte(sign)] + LittleEndian(n, width))[1..] == LittleEndian(n, width);
  }

  lemma {:induction false} Pow256Monotone(m: nat, n: nat)
    requires m <= n
    ensures Pow256(m) <= Pow256(n)
    decreases n
  {
    if m < n {
      Pow256Monotone(m, n - 1);
    }
  }

  lemma MagnitudeBound(b: Bytes)
    requires |b| <= 16
    ensures FromLittleEndian(b) < U128_LIMIT
  {
    FromLittleEndianBound(b);
    Pow256Monotone(|b|, 16);
    Pow256Values();
  }

  /** Sign times the quotient by 10^scale, cut towards zero. It does not fit in 64 bits exactly above i64::MAX, and
      the power left after stripping zeros does not fit in 128 bits exactly when scale exceeds 38 and the magnitude
      is no multiple of 10^(scale - 38). */
  function NumericInteger(bytes: Bytes, scale: Byte): Result<int, NumericError> {
    var decoded := DecodeNumericBytes(bytes);
    if decoded.Err? then Err(decoded.error)
    else
      var (sign, n) := decoded.value;
      if scale > 38 && n % Pow10(scale - 38) != 0 then Err(PowerOverflow)
      else if n / Pow10(scale) > I64_MAX then Err(OutOfRange)
      else Ok(sign * (n / Pow10(scale)))
  }

  /** The driver's loop strips zeros first, so that the power it divides by stays small. */
  method DecodeNumericInteger(bytes: Bytes, scale: Byte) returns (r: Result<int, NumericError>)
    ensures r == NumericInteger(bytes, scale)
  {
    var decoded := DecodeNumericBytes(bytes);
    if decoded.Err? {
      return Err(decoded.error);
    }
    var (sign, n) := decoded.value;
    hide DecodeNumericBytes;
    var numerator, left := n, scale as int;
    while numerator % 10 == 0 && left > 0
      invariant 0 <= left <= scale && numerator >= 0
      invariant n == numerator * Pow10(scale - left)
      decreases left
    {
      Shuffle(numerator / 10, 10, Pow10(scale - left));
      numerator := numerator / 10;
      left := left - 1;
    }
    Pow10Add(left, scale - left);
    DivideBoth(numerator, Pow10(left), Pow10(scale - left));
    PowerFitsIff(left);
    if left > 38 {
      TooFewZeros(n, numerator, scale, left);
      return Err(PowerOverflow);
    }
    EnoughZeros(n, numerator, scale, left);
    if left > 0 {
      assert Pow10(left) < U128_LIMIT;
      numerator := numerator / Pow10(left);
    }
    if numerator > I64_MAX {
      return Err(OutOfRange);
    }
    return Ok(numerator * sign);
  }

  lemma MultipleRemainder(a: nat, m: nat)
    requires m > 0
    ensures (a * m) % m == 0
  {
    QuotientUnique(a * m, m, a, 0);
  }

  lemma EnoughZeros(n: nat, numerator: nat, scale: nat, left: nat)
    requires left <= scale && left <= 38 && n == numerator * Pow10(scale - left)
    ensures scale > 38 ==> n % Pow10(scale - 38) == 0
  {
    if scale > 38 {
      var extra := 38 - left;
      Pow10Add(extra, scale - 38);
      Shuffle(numerator, Pow10(extra), Pow10(scale - 38));
      MultipleRemainder(numerator * Pow10(extra), Pow10(scale - 38));
    }
  }

  lemma TenfoldRemainder(k: int)
    ensures (10 * k) % 10 == 0
  {
  }

  lemma NotTenfold(small: nat, a: nat, m: nat)
    requires small > 0 && m > 0 && a % 10 != 0
    ensures small * (10 * m) > 0 && (a * small) % (small * (10 * m)) != 0
  {
    MultipleBounds(10 * m, small);
    var d := small * (10 * m);
    assert d == (10 * m) * small;
    if (a * small) % d == 0 {
      var q := (a * small) / d;
      assert a * small == d * q;
      Shuffle(small, 10 * m, q);
      CancelFactor(small, a, 10 * m * q);
      Shuffle(10, m, q);
      TenfoldRemainder(m * q);
    }
  }

  lemma TooFewZeros(n: nat, numerator: nat, scale: nat, left: nat)
    requires 38 < left <= scale && n == numerator * Pow10(scale - left) && numerator % 10 != 0
    ensures n % Pow10(scale - 38) != 0
  {
    Pow10Add(scale - left, left - 38);
    assert Pow10(left - 38) == 10 * Pow10(left - 39);
    NotTenfold(Pow10(scale - left), numerator, Pow10(left - 39));
  }

  lemma CancelFactor(p: nat, a: int, b: int)
    requires p > 0 && p * a == p * b
    ensures a == b
  {
    MultipleBounds(p, a - b);
    assert p * (a - b) == p * a - p * b;
  }

  // ---- integers of 1, 2, 4 and 8 bytes ----

  /** Two's complement of the given width. */
  function Signed(n: nat, width: nat): int
    requires n < Pow256(width)
  {
    if 2 * n >= Pow256(width) then n - Pow256(width) else n
  }

  predicate InWidth(v: int, width: nat) { 0 - Pow256(width) <= 2 * v < Pow256(width) }

  function Unsigned(v: int, width: nat): nat
    requires InWidth(v, width)
  {
    if v < 0 then v + Pow256(width) else v
  }

  /** An integer out of a value's bytes: a numeric by its scale, anything else by its length alone. */
  function IntegerOf(isDecimal: bool, scale: Byte, bytes: Bytes): Result<int, NumericError> {
    FromLittleEndianBound(bytes);
    if isDecimal then NumericInteger(bytes, scale)
    else
      match |bytes|
      case 1 => Ok(bytes[0])
      case 2 => Ok(Signed(FromLittleEndian(bytes), 2))
      case 4 => Ok(Signed(FromLittleEndian(bytes), 4))
      case 8 => Ok(Signed(FromLittleEndian(bytes), 8))
      case n => Err(WrongLength(n))
  }

  method DecodeInteger(isDecimal: bool, scale: Byte, bytes: Bytes) returns (r: Result<int, NumericError>)
    ensures r == IntegerOf(isDecimal, scale, bytes)
  {
    FromLittleEndianBound(bytes);
    hide FromLittleEndian, NumericInteger, Signed;
    if isDecimal {
      r := DecodeNumericInteger(bytes, scale);
      return;
    }
    match |bytes| {
      case 1 => return Ok(bytes[0]);
      case 2 => return Ok(Signed(FromLittleEndian(bytes), 2));
      case 4 => return Ok(Signed(FromLittleEndian(bytes), 4));
      case 8 => return Ok(Signed(FromLittleEndian(bytes), 8));
      case n => return Err(WrongLength(n));
    }
  }

  function SignedBytes(v: int, width: nat): (b: Bytes)
    requires InWidth(v, width)
    ensures |b| == width
  {
    LittleEndian(Unsigned(v, width), width)
  }

  /** Every integer the encoders write decodes to itself, whatever its sign: one byte is unsigned, two, four and eight
      are signed, and no other length is an integer. */
  lemma IntegerRoundTrip(v: int, width: nat, scale: Byte)
    ensures width == 1 && 0 <= v < 0x100 ==> IntegerOf(false, scale, [v]) == Ok(v)
    ensures (width == 2 || width == 4 || width == 8) && InWidth(v, width) ==>
              IntegerOf(false, scale, SignedBytes(v, width)) == Ok(v)
    ensures forall bytes: Bytes :: IntegerOf(false, scale, bytes).Err? <==> |bytes| !in {1, 2, 4, 8}
  {
    hide Pow256, LittleEndian, FromLittleEndian;
    if InWidth(v, width) {
      LittleEndianRoundTrip(Unsigned(v, width), width);
    }
  }

  lemma QuotientOfProduct(n: nat, p: nat)
    requires p > 0
    ensures n * p / p == n && n * p % p == 0
  {
    QuotientUnique(n * p, p, n, 0);
  }

  /** A whole number sent as a numeric of any scale up to 38 decodes to itself, if its scaled digits fit in 128 bits. */
  lemma WholeNumericReadsBack(v: int, scale: Byte)
    requires -0x7fff_ffff_ffff_ffff <= v <= 0x7fff_ffff_ffff_ffff && scale <= 38
    requires Abs(v) * Pow10(scale) < U128_LIMIT
    ensures IntegerOf(true, scale, [SignByte(v)] + LittleEndian(Abs(v) * Pow10(scale), 16)) == Ok(v)
  {
    hide LittleEndian, FromLittleEndian, DecodeNumericBytes, Pow10;
    Pow256Values();
    NumericBytesReadBack(if v < 0 then -1 else 1, Abs(v) * Pow10(scale), 16);
    QuotientOfProduct(Abs(v), Pow10(scale));
  }

  // ---- money: the high half comes first ----

  function DecodeMoney(bytes: Bytes): Result<int, NumericError> {
    if |bytes| == 4 then FromLittleEndianBound(bytes); Ok(Signed(FromLittleEndian(bytes), 4))
    else if |bytes| == 8 then
      FromLittleEndianBound(bytes[..4]);
      Ok(Signed(FromLittleEndian(bytes[..4]), 4) * 0x1_0000_0000 + FromLittleEndian(bytes[4..]))
    else Err(WrongLength(|bytes|))
  }

  /** A 64-bit amount as the server sends it. */
  function MoneyBytes(v: int): (b: Bytes)
    requires -0x8000_0000_0000_0000 <= v < 0x8000_0000_0000_0000
    ensures |b| == 8
  {
    Pow256Values();
    assert -0x8000_0000 <= v / 0x1_0000_0000 < 0x8000_0000;
    SignedBytes(v / 0x1_0000_0000, 4) + LittleEndian(v % 0x1_0000_0000, 4)
  }

  /** Both sizes of money come back, and no other size is money. */
  lemma MoneyRoundTrip(v: int)
    requires -0x8000_0000_0000_0000 <= v < 0x8000_0000_0000_0000
    ensures DecodeMoney(MoneyBytes(v)) == Ok(v)
    ensures InWidth(v, 4) ==> DecodeMoney(SignedBytes(v, 4)) == Ok(v)
    ensures forall bytes: Bytes :: DecodeMoney(bytes).Err? <==> |bytes| != 4 && |bytes| != 8
  {
    Pow256Values();
    hide Pow256, LittleEndian, FromLittleEndian;
    var high, low := v / 0x1_0000_0000, v % 0x1_0000_0000;
    LittleEndianRoundTrip(Unsigned(high, 4), 4);
    LittleEndianRoundTrip(low, 4);
    assert MoneyBytes(v)[..4] == SignedBytes(high, 4) && MoneyBytes(v)[4..] == LittleEndian(low, 4);
    if InWidth(v, 4) {
      LittleEndianRoundTrip(Unsigned(v, 4), 4);
    }
  }

  // ---- arbitrary-precision decimals ----

  /** digits * 10^(-exponent) */
  datatype BigDecimal = BigDecimal(digits: int, exponent: int)

  /** Equality of the numbers denoted, whatever their exponents. */
  predicate SameValue(a: BigDecimal, b: BigDecimal) {
    if a.exponent <= b.exponent then a.digits * Pow10(b.exponent - a.exponent) == b.digits
    else a.digits == b.digits * Pow10(a.exponent - b.exponent)
  }

  /** The scale announced for the value; exponents out of a byte's range are announced as zero. */
  function ScaleOf(d: BigDecimal): Byte { if 0 <= d.exponent <= 0xff then d.exponent else 0 }

  /** Digits after a negative exponent has been multiplied away, as far as the driver does that. */
  function ScaledDigits(d: BigDecimal): int {
    if d.exponent < 0 && -d.exponent <= U32_MAX then d.digits * Pow10(-d.exponent) else d.digits
  }

  function Mantissa(d: BigDecimal): nat {
    if d.exponent <= 0xff && Abs(ScaledDigits(d)) < U128_LIMIT then Abs(ScaledDigits(d)) else 0
  }

  function EncodeBigDecimal(d: BigDecimal): (b: Bytes)
    ensures |b| == 17
  {
    [SignByte(d.digits)] + LittleEndian(Mantissa(d), 16)
  }

  function DecodeBigDecimal(bytes: Bytes, scale: Byte): Result<BigDecimal, NumericError> {
    var decoded := DecodeNumericBytes(bytes);
    if decoded.Err? then Err(decoded.error) else Ok(BigDecimal(decoded.value.0 * decoded.value.1, scale))
  }

  /** Values the encoding keeps: zero, and those whose exponent is in range and whose scaled digits fit in 128 bits. */
  predicate Encodable(d: BigDecimal) {
    d.digits == 0 || (0 - U32_MAX <= d.exponent <= 0xff && Abs(ScaledDigits(d)) < U128_LIMIT)
  }

  lemma DecodedDigits(d: BigDecimal)
    ensures DecodeBigDecimal(EncodeBigDecimal(d), ScaleOf(d))
            == Ok(BigDecimal(if d.digits < 0 then 0 - Mantissa(d) else Mantissa(d), ScaleOf(d)))
  {
    Pow256Values();
    LittleEndianRoundTrip(Mantissa(d), 16);
    hide LittleEndian, FromLittleEndian, Pow256, Mantissa;
    assert EncodeBigDecimal(d)[1..] == LittleEndian(Mantissa(d), 16);
  }

  lemma PositiveProduct(a: int, p: nat)
    requires p > 0
    ensures (a > 0 ==> a * p >= p) && (a < 0 ==> a * p + p <= 0) && (a == 0 ==> a * p == 0)
    ensures Abs(a * p) == Abs(a) * p
  {
    MultipleBounds(p, a);
  }

  lemma HugeScale(digits: int, n: nat)
    requires n > 0 && digits != 0
    ensures digits * Pow10(n) != digits && digits * Pow10(n) != -digits
  {
    Pow10Monotone(1, n);
    MultipleBounds(Abs(digits), Pow10(n) - 1);
    MultipleBounds(Abs(digits), Pow10(n));
  }

  /** Decimal round trip: the decoded number equals the encoded one if and only if it was encodable. */
  lemma BigDecimalRoundTripIff(d: BigDecimal)
    ensures DecodeBigDecimal(EncodeBigDecimal(d), ScaleOf(d)).Ok?
    ensures SameValue(d, DecodeBigDecimal(EncodeBigDecimal(d), ScaleOf(d)).value) <==> Encodable(d)
  {
    DecodedDigits(d);
    hide DecodeBigDecimal, EncodeBigDecimal;
    if d.exponent < 0 {
      PositiveProduct(d.digits, Pow10(-d.exponent));
      if -d.exponent > U32_MAX && d.digits != 0 {
        HugeScale(d.digits, -d.exponent);
      }
    } else if d.exponent > 0xff {
      PositiveProduct(0, Pow10(d.exponent));
    }
  }

  /** What the integer of a numeric is: the magnitude, little-endian behind the sign byte, lies between the integer's
      size and the next one, both times 10^scale, and a sign byte of 0 means negative. */
  lemma NumericIntegerMeans(bytes: Bytes, scale: Byte)
    requires NumericInteger(bytes, scale).Ok?
    ensures var v, n := NumericInteger(bytes, scale).value, FromLittleEndian(bytes[1..]);
            && Abs(v) * Pow10(scale) <= n < (Abs(v) + 1) * Pow10(scale)
            && (v < 0 ==> bytes[0] == 0) && (v > 0 ==> bytes[0] == 1)
  {
    hide Pow10, FromLittleEndian;
    var n, p := FromLittleEndian(bytes[1..]), Pow10(scale);
    FloorOf(n, p);
    SignTimes(if bytes[0] == 0 then -1 else 1, n / p);
  }

  lemma FloorOf(n: nat, p: nat)
    requires p > 0
    ensures n / p * p <= n < (n / p + 1) * p
  {
  }

  lemma SignTimes(sign: int, q: nat)
    requires sign == 1 || sign == -1
    ensures Abs(sign * q) == q && (sign * q < 0 ==> sign == -1) && (sign * q > 0 ==> sign == 1)
  {
  }

  /** An eight-byte amount: the first four bytes are its high half, two's complement, the last four its low half, each
      with the low byte first. */
  lemma MoneyOnTheWire(h0: Byte, h1: Byte, h2: Byte, h3: Byte, l0: Byte, l1: Byte, l2: Byte, l3: Byte)
    ensures var high := h0 as int + 256 * (h1 as int + 256 * (h2 as int + 256 * h3 as int));
            var low := l0 as int + 256 * (l1 as int + 256 * (l2 as int + 256 * l3 as int));
            DecodeMoney([h0, h1, h2, h3, l0, l1, l2, l3]) ==
            Ok(0x1_0000_0000 * (if h3 < 128 then high else high - 0x1_0000_0000) + low)
  {
    Pow256Values();
    hide FromLittleEndian, Pow256;
    var bytes := [h0, h1, h2, h3, l0, l1, l2, l3];
    assert bytes[..4] == [h0, h1, h2, h3] && bytes[4..] == [l0, l1, l2, l3];
    FromLittleEndianFour(h0, h1, h2, h3);
    FromLittleEndianFour(l0, l1, l2, l3);
  }
}
