/** Dates, times of day and offsets between their bytes and their values. A date is a day number, 0 for the first
    day of year 1. */
module DateTime {
  import opened Wire
  import opened Numeric
  import T = TypeInfos

  datatype DateTimeError = InvalidTime | ScalingOverflow | InvalidOffset(minutes: int)

  /** Nanoseconds run up to 1_999_999_999 in a leap second. */
  datatype TimeOfDay = TimeOfDay(seconds: nat, nanos: nat)

  datatype DateTime2 = DateTime2(day: int, time: TimeOfDay)

  datatype DateTimeOffset = DateTimeOffset(utc: DateTime2, offsetSeconds: int)

  const SECONDS_PER_DAY: nat := 86_400
  const NANOS_PER_SECOND: nat := 1_000_000_000
  const TICKS_PER_SECOND: nat := 10_000_000
  const U64_LIMIT: nat := 0x1_0000_0000_0000_0000

  predicate InDay(t: TimeOfDay) { t.seconds < SECONDS_PER_DAY && t.nanos < 2 * NANOS_PER_SECOND }

  // ---- dates: three bytes, sign-extended ----

  function ReadI24(b: Bytes): int
    requires |b| == 3
  {
    var v := FromLittleEndian(b);
    if v >= 0x80_0000 then v - 0x100_0000 else v
  }

  /** The low three bytes of a 32-bit number. */
  function WriteI24(v: int): (b: Bytes)
    requires -0x8000_0000 <= v < 0x8000_0000
    ensures |b| == 3
  {
    LittleEndian(v % 0x1_0000_0000, 3)
  }

  lemma {:induction false} LowBytes(n: nat, width: nat)
    ensures FromLittleEndian(LittleEndian(n, width)) == n % Pow256(width)
    decreases width
  {
    hide LittleEndian;
    if width > 0 {
      LowBytes(n / 256, width - 1);
      LittleEndianStep(n, width);
      assert LittleEndian(n, width)[1..] == LittleEndian(n / 256, width - 1);
      RemainderStep(n, Pow256(width - 1));
    } else {
      assert n % 1 == 0;
    }
  }

  lemma RemainderStep(n: nat, p: nat)
    requires p > 0
    ensures n % (256 * p) == n % 256 + 256 * (n / 256 % p)
  {
    var q := n / 256;
    var r := n % 256 + 256 * (q % p);
    assert q == p * (q / p) + q % p;
    assert n == 256 * p * (q / p) + r by {
      Shuffle(256, p, q / p);
    }
    QuotientUnique(n, 256 * p, q / p, r);
  }

  lemma LowBits(v: int, n: nat)
    requires -0x8000_0000 <= v < 0x8000_0000 && n == v % 0x1_0000_0000
    ensures 0 <= v < 0x80_0000 ==> n % 0x100_0000 == v
    ensures -0x80_0000 <= v < 0 ==> n % 0x100_0000 == v + 0x100_0000
  {
    if -0x80_0000 <= v < 0 {
      assert n == v + 0x1_0000_0000;
      QuotientUnique(n, 0x100_0000, 0xff, v + 0x100_0000);
    }
  }

  /** A day number survives exactly when it fits in 24 bits with its sign. */
  lemma I24RoundTripIff(v: int)
    requires -0x8000_0000 <= v < 0x8000_0000
    ensures ReadI24(WriteI24(v)) == v <==> -0x80_0000 <= v < 0x80_0000
  {
    Pow256Values();
    LowBytes(v % 0x1_0000_0000, 3);
    hide FromLittleEndian, LittleEndian, Pow256;
    LowBits(v, v % 0x1_0000_0000);
  }

  /** chrono counts days from year 1 starting with one; `time` counts Julian days. */
  const JULIAN_DAY_ONE_CE: int := 1_721_426

  function EncodeChronoDate(daysFromCe: int): Bytes
    requires -0x8000_0000 < daysFromCe < 0x8000_0000
  {
    WriteI24(daysFromCe - 1)
  }

  function EncodeTimeDate(julianDay: int): Bytes
    requires -0x8000_0000 <= julianDay - JULIAN_DAY_ONE_CE < 0x8000_0000
  {
    WriteI24(julianDay - JULIAN_DAY_ONE_CE)
  }

  // ---- times of day: ticks of 100 ns in five bytes ----

  function Ticks(t: TimeOfDay): nat { t.seconds * TICKS_PER_SECOND + t.nanos / 100 }

  lemma TicksFit(t: TimeOfDay)
    requires InDay(t)
    ensures Ticks(t) < 0x100_0000_0000
  {
  }

  function EncodeChronoTime(t: TimeOfDay): (b: Bytes)
    requires InDay(t)
    ensures |b| == 5
  {
    LittleEndian(Ticks(t), 5)
  }

  function EncodeTimeTime(hour: nat, minute: nat, second: nat, nanosecond: nat): (b: Bytes)
    requires hour < 24 && minute < 60 && second < 60 && nanosecond < NANOS_PER_SECOND
    ensures |b| == 5
  {
    LittleEndian(hour * 36_000_000_000 + minute * 600_000_000 + second * 10_000_000 + nanosecond / 100, 5)
  }

  function EncodeChronoDateTime2(d: DateTime2): (b: Bytes)
    requires InDay(d.time) && -0x8000_0000 <= d.day < 0x7fff_ffff
    ensures |b| == 8
  {
    EncodeChronoTime(d.time) + EncodeChronoDate(d.day + 1)
  }

  function EncodeTimeDateTime2(day: int, hour: nat, minute: nat, second: nat, nanosecond: nat): (b: Bytes)
    requires hour < 24 && minute < 60 && second < 60 && nanosecond < NANOS_PER_SECOND
    requires -0x8000_0000 <= day < 0x7fff_ffff
    ensures |b| == 8
  {
    EncodeTimeTime(hour, minute, second, nanosecond) + EncodeTimeDate(day + JULIAN_DAY_ONE_CE)
  }

  /** Both libraries' encoders put the same bytes on the wire for the same moment. */
  lemma EncodersAgree(day: int, hour: nat, minute: nat, second: nat, nanosecond: nat)
    requires hour < 24 && minute < 60 && second < 60 && nanosecond < NANOS_PER_SECOND
    requires -0x8000_0000 <= day < 0x7fff_ffff
    ensures EncodeTimeDateTime2(day, hour, minute, second, nanosecond)
            == EncodeChronoDateTime2(DateTime2(day, TimeOfDay(hour * 3600 + minute * 60 + second, nanosecond)))
  {
    hide LittleEndian, WriteI24;
    assert Ticks(TimeOfDay(hour * 3600 + minute * 60 + second, nanosecond))
           == hour * 36_000_000_000 + minute * 600_000_000 + second * 10_000_000 + nanosecond / 100;
  }

  // ---- decoding ----

  /** A number of 10^(-scale) seconds as a moment of the day. */
  function MomentOf(count: nat, scale: Byte): Result<TimeOfDay, DateTimeError>
    requires scale <= 7
  {
    var nanos := count * Pow10(9 - scale);
    if nanos >= U64_LIMIT then Err(ScalingOverflow)
    else if nanos / NANOS_PER_SECOND >= SECONDS_PER_DAY then Err(InvalidTime)
    else Ok(TimeOfDay(nanos / NANOS_PER_SECOND, nanos % NANOS_PER_SECOND))
  }

  /** Bytes from the last to the first, shifted into a 64-bit accumulator. */
  method Accumulate(data: Bytes) returns (acc: U64)
    ensures acc == FromLittleEndian(data) % U64_LIMIT
  {
    acc := 0;
    var i := |data|;
    assert data[i..] == [];
    while i > 0
      invariant 0 <= i <= |data|
      invariant acc == FromLittleEndian(data[i..]) % U64_LIMIT
    {
      i := i - 1;
      assert data[i..][1..] == data[i + 1..];
      ShiftIn(FromLittleEndian(data[i + 1..]), data[i]);
      acc := acc * 256 % U64_LIMIT + data[i];
    }
    assert data[0..] == data;
  }

  lemma ShiftIn(n: nat, b: Byte)
    ensures n % U64_LIMIT * 256 % U64_LIMIT + b == (b + 256 * n) % U64_LIMIT
  {
    var q := n / U64_LIMIT;
    var low := n % U64_LIMIT * 256;
    assert b + 256 * n == U64_LIMIT * (256 * q + low / U64_LIMIT) + (low % U64_LIMIT + b);
    assert low % U64_LIMIT <= U64_LIMIT - 256 by {
      var k := low / U64_LIMIT;
      assert low % U64_LIMIT == 256 * (n % U64_LIMIT) - U64_LIMIT * k;
      assert low % U64_LIMIT == 256 * (n % U64_LIMIT - 0x100_0000_0000_0000 * k);
    }
    QuotientUnique(b + 256 * n, U64_LIMIT, 256 * q + low / U64_LIMIT, low % U64_LIMIT + b);
  }

  /** chrono: seconds since midnight and nanoseconds. */
  method DecodeChronoTime(scale: Byte, data: Bytes) returns (r: Result<TimeOfDay, DateTimeError>)
    requires scale <= 7
    ensures r == MomentOf(FromLittleEndian(data) % U64_LIMIT, scale)
  {
    hide FromLittleEndian, Pow10;
    var acc := Accumulate(data);
    if acc * Pow10(9 - scale) >= U64_LIMIT {
      return Err(ScalingOverflow);
    }
    var nanos: nat := acc * Pow10(9 - scale);
    var seconds := nanos / NANOS_PER_SECOND;
    if seconds > 0xffff_ffff {
      return Err(InvalidTime);
    }
    if seconds >= SECONDS_PER_DAY {
      return Err(InvalidTime);
    }
    return Ok(TimeOfDay(seconds, nanos % NANOS_PER_SECOND));
  }

  lemma ClockFace(seconds: nat)
    ensures seconds / 3600 * 3600 + seconds % 3600 / 60 * 60 + seconds % 60 == seconds
    ensures seconds / 3600 < 24 <==> seconds < SECONDS_PER_DAY
  {
    var minutes := seconds % 3600;
    QuotientUnique(seconds, 60, seconds / 3600 * 60 + minutes / 60, minutes % 60);
  }

  /** `time`: hour, minute, second and nanosecond. */
  method DecodeTimeTime(scale: Byte, data: Bytes) returns (r: Result<(nat, nat, nat, nat), DateTimeError>)
    requires scale <= 7
    ensures match MomentOf(FromLittleEndian(data) % U64_LIMIT, scale)
            case Err(e) => r == Err(e)
            case Ok(t) =>
              && r.Ok?
              && var (hour, minute, second, nanosecond) := r.value;
                 && hour < 24 && minute < 60 && second < 60
                 && t == TimeOfDay(hour * 3600 + minute * 60 + second, nanosecond)
  {
    hide FromLittleEndian, Pow10;
    var acc := Accumulate(data);
    if acc * Pow10(9 - scale) >= U64_LIMIT {
      return Err(ScalingOverflow);
    }
    var nanos: nat := acc * Pow10(9 - scale);
    var seconds := nanos / NANOS_PER_SECOND;
    if seconds / 3600 > 0xff || seconds / 3600 >= 24 {
      return Err(InvalidTime);
    }
    ClockFace(seconds);
    return Ok((seconds / 3600, seconds % 3600 / 60, seconds % 60, nanos % NANOS_PER_SECOND));
  }

  /** Values as long as their TYPE_INFO says never overflow the 64-bit scaling. */
  lemma ScalingNeverOverflows(scale: Byte, data: Bytes)
    requires scale <= 7 && |data| == T.TimeSize(scale)
    ensures FromLittleEndian(data) < U64_LIMIT
    ensures MomentOf(FromLittleEndian(data), scale) != Err(ScalingOverflow)
  {
    FromLittleEndianBound(data);
    Pow256Values();
    Pow10Small();
    Pow10Add(4, 4);
    Pow10Add(8, 1);
    Pow10Add(4, 3);
    Pow10Add(4, 2);
    Pow10Add(4, 1);
    hide Pow10, Pow256, FromLittleEndian;
    var n, p := FromLittleEndian(data), Pow10(9 - scale);
    if scale <= 2 {
      assert p <= 1_000_000_000;
      Below(n, 0x100_0000, p, 1_000_000_000);
    } else if scale <= 4 {
      assert p <= 1_000_000;
      Below(n, 0x1_0000_0000, p, 1_000_000);
    } else {
      assert p <= 10_000;
      Below(n, 0x100_0000_0000, p, 10_000);
    }
  }

  lemma Below(n: nat, m: nat, p: nat, q: nat)
    requires n < m && p <= q
    ensures n * p <= m * q
  {
    MultipleBounds(p, m - n);
    assert p * (m - n) == m * p - n * p;
    MultipleBounds(m, q - p);
    assert m * (q - p) == m * q - m * p;
  }

  /** The time with its nanoseconds cut to 100 ns. */
  function Truncated(t: TimeOfDay): TimeOfDay { TimeOfDay(t.seconds, t.nanos / 100 * 100) }

  lemma TickNanos(seconds: nat, nanos: nat)
    requires nanos < 2 * NANOS_PER_SECOND
    ensures var n := (seconds * TICKS_PER_SECOND + nanos / 100) * 100;
            && n / NANOS_PER_SECOND == (if nanos < NANOS_PER_SECOND then seconds else seconds + 1)
            && (nanos < NANOS_PER_SECOND ==> n % NANOS_PER_SECOND == nanos / 100 * 100)
  {
    var n, sub := (seconds * TICKS_PER_SECOND + nanos / 100) * 100, nanos / 100 * 100;
    assert n == NANOS_PER_SECOND * seconds + sub;
    if nanos < NANOS_PER_SECOND {
      QuotientUnique(n, NANOS_PER_SECOND, seconds, sub);
    } else {
      QuotientUnique(n, NANOS_PER_SECOND, seconds + 1, sub - NANOS_PER_SECOND);
    }
  }

  /** A time of day comes back, cut to 100 ns, exactly when it is not inside a leap second. */
  lemma TimeRoundTripIff(t: TimeOfDay)
    requires InDay(t)
    ensures FromLittleEndian(EncodeChronoTime(t)) == Ticks(t) < U64_LIMIT
    ensures MomentOf(Ticks(t), 7) == Ok(Truncated(t)) <==> t.nanos < NANOS_PER_SECOND
  {
    Pow256Values();
    Pow10Small();
    TicksFit(t);
    hide Pow10, Pow256, FromLittleEndian, LittleEndian;
    LittleEndianRoundTrip(Ticks(t), 5);
    TickNanos(t.seconds, t.nanos);
  }

  // ---- date and time together ----

  function DecodeDateTime2(scale: Byte, bytes: Bytes): Result<DateTime2, DateTimeError>
    requires scale <= 7 && 3 <= |bytes|
  {
    var size := |bytes| - 3;
    var time := MomentOf(FromLittleEndian(bytes[..size]) % U64_LIMIT, scale);
    if time.Err? then Err(time.error) else Ok(DateTime2(ReadI24(bytes[size..]), time.value))
  }

  predicate Representable(d: DateTime2) {
    -0x80_0000 <= d.day < 0x80_0000 && d.time.seconds < SECONDS_PER_DAY && d.time.nanos < NANOS_PER_SECOND
  }

  /** datetime2 round trip, truncated to 100 ns, exactly for 24-bit day numbers and no leap second. */
  lemma DateTime2RoundTripIff(d: DateTime2)
    requires InDay(d.time) && -0x8000_0000 <= d.day < 0x7fff_ffff
    ensures DecodeDateTime2(7, EncodeChronoDateTime2(d)) == Ok(DateTime2(d.day, Truncated(d.time))) <==> Representable(d)
  {
    hide FromLittleEndian, LittleEndian, MomentOf, ReadI24, WriteI24;
    var time, date := EncodeChronoTime(d.time), EncodeChronoDate(d.day + 1);
    assert EncodeChronoDateTime2(d)[..5] == time && EncodeChronoDateTime2(d)[5..] == date;
    TimeRoundTripIff(d.time);
    I24RoundTripIff(d.day);
  }

  // ---- offsets ----

  /** Division as Rust does it: towards zero. */
  function DivideTowardsZero(a: int, b: nat): int
    requires b > 0
  {
    if a >= 0 then a / b else 0 - (0 - a) / b
  }

  function OffsetMinutes(seconds: int): int { DivideTowardsZero(seconds, 60) }

  function EncodeDateTimeOffset(d: DateTimeOffset): (b: Bytes)
    requires InDay(d.utc.time) && -0x8000_0000 <= d.utc.day < 0x7fff_ffff
    requires -86_400 < d.offsetSeconds < 86_400
    ensures |b| == 10
  {
    Pow256Values();
    EncodeChronoDateTime2(d.utc) + SignedBytes(OffsetMinutes(d.offsetSeconds), 2)
  }

  function DecodeDateTimeOffset(scale: Byte, bytes: Bytes): Result<DateTimeOffset, DateTimeError>
    requires scale <= 7 && 5 <= |bytes|
  {
    var size := |bytes| - 2;
    var utc := DecodeDateTime2(scale, bytes[..size]);
    FromLittleEndianBound(bytes[size..]);
    var minutes := Signed(FromLittleEndian(bytes[size..]), 2);
    if utc.Err? then Err(utc.error)
    else if -86_400 < minutes * 60 < 86_400 then Ok(DateTimeOffset(utc.value, minutes * 60))
    else Err(InvalidOffset(minutes))
  }

  lemma OffsetReadsBack(seconds: int)
    requires -86_400 < seconds < 86_400
    ensures -1440 < OffsetMinutes(seconds) < 1440 && InWidth(OffsetMinutes(seconds), 2)
    ensures -60 < seconds - OffsetMinutes(seconds) * 60 < 60
    ensures if seconds >= 0 then 0 <= OffsetMinutes(seconds) * 60 <= seconds else seconds <= OffsetMinutes(seconds) * 60 <= 0
    ensures FromLittleEndian(SignedBytes(OffsetMinutes(seconds), 2)) < Pow256(2)
    ensures Signed(FromLittleEndian(SignedBytes(OffsetMinutes(seconds), 2)), 2) == OffsetMinutes(seconds)
  {
    Pow256Values();
    hide FromLittleEndian, LittleEndian, Pow256;
    LittleEndianRoundTrip(Unsigned(OffsetMinutes(seconds), 2), 2);
  }

  /** datetimeoffset keeps the UTC instant to 100 ns; of the offset it keeps whole minutes, towards zero. */
  lemma DateTimeOffsetKeepsInstant(d: DateTimeOffset)
    requires Representable(d.utc) && -86_400 < d.offsetSeconds < 86_400
    ensures DecodeDateTimeOffset(7, EncodeDateTimeOffset(d))
            == Ok(DateTimeOffset(DateTime2(d.utc.day, Truncated(d.utc.time)), OffsetMinutes(d.offsetSeconds) * 60))
  {
    OffsetReadsBack(d.offsetSeconds);
    DateTime2RoundTripIff(d.utc);
    hide FromLittleEndian, DecodeDateTime2, EncodeChronoDateTime2, SignedBytes, OffsetMinutes, Pow256;
    var utc, offset := EncodeChronoDateTime2(d.utc), SignedBytes(OffsetMinutes(d.offsetSeconds), 2);
    assert (utc + offset)[..8] == utc && (utc + offset)[8..] == offset;
  }

  // ---- every scale ----

  lemma ScaleSplits(scale: Byte)
    requires scale <= 9
    ensures Pow10(9 - scale) * Pow10(scale) == 1_000_000_000
  {
    Pow10Small();
    Pow10Add(4, 4);
    Pow10Add(8, 1);
    Pow10Add(9 - scale, scale);
  }

  lemma BelowProduct(f: nat, p: nat, q: nat)
    requires f < p && q > 0
    ensures f * q < p * q
  {
    MultipleBounds(q, p - f);
    assert q * (p - f) == p * q - f * q;
  }

  /** `seconds` whole seconds and `f` fractions of 10^(-scale), as a count of such fractions. */
  function CountOf(seconds: nat, f: nat, scale: Byte): nat { seconds * Pow10(scale) + f }

  /** The moment has exactly these seconds, and its nanoseconds are f / 10^scale seconds. */
  predicate IsMoment(t: TimeOfDay, seconds: nat, f: nat, scale: Byte) {
    t.seconds == seconds && t.nanos * Pow10(scale) == f * 1_000_000_000
  }

  /** A count of 10^(-scale) seconds is the moment it says, at every scale: `seconds` whole seconds and `f` fractions of
      10^(-scale) decode to exactly those seconds and to f / 10^scale seconds' worth of nanoseconds. */
  lemma MomentAtEveryScale(seconds: nat, f: nat, scale: Byte)
    requires scale <= 7 && seconds < 86_400 && f < Pow10(scale)
    ensures var m := MomentOf(CountOf(seconds, f, scale), scale); m.Ok? && IsMoment(m.value, seconds, f, scale)
  {
    hide Pow10;
    ScaleSplits(scale);
    var p, q := Pow10(scale), Pow10(9 - scale);
    var nanos := f * q;
    assert (seconds * p + f) * q == seconds * 1_000_000_000 + nanos by {
      Shuffle(seconds, p, q);
      assert (seconds * p + f) * q == seconds * p * q + f * q;
    }
    BelowProduct(f, p, q);
    QuotientUnique(seconds * 1_000_000_000 + nanos, 1_000_000_000, seconds, nanos);
    Shuffle(f, q, p);
  }

  /** And exactly the counts short of a whole day are moments. */
  lemma MomentIff(count: nat, scale: Byte)
    requires scale <= 7
    ensures MomentOf(count, scale).Ok? <==> count < 86_400 * Pow10(scale)
  {
    hide Pow10;
    ScaleSplits(scale);
    var p, q := Pow10(scale), Pow10(9 - scale);
    Shuffle(86_400, p, q);
    if count < 86_400 * p {
      BelowProduct(count, 86_400 * p, q);
    } else {
      Below(86_400 * p - 1, 86_400 * p, q, q);
      MultipleBounds(q, count - 86_400 * p);
      assert q * (count - 86_400 * p) == count * q - 86_400 * p * q;
      assert count * q >= 86_400 * 1_000_000_000 by {
        if count > 86_400 * p {
          MultipleBounds(q, count - 86_400 * p);
        }
      }
    }
  }

  lemma Pow10UpTo7()
    ensures Pow10(5) == 100_000 && Pow10(6) == 1_000_000 && Pow10(7) == 10_000_000
  {
    Pow10Small();
    Pow10Add(4, 1);
    Pow10Add(4, 2);
    Pow10Add(4, 3);
  }

  /** The size of a time of day is, at every scale, the least number of bytes that counts a whole day. */
  lemma TimeSizeIsMinimal(scale: Byte)
    requires scale <= 7
    ensures T.TimeSize(scale) >= 1
    ensures Pow256(T.TimeSize(scale) - 1) < 86_400 * Pow10(scale) <= Pow256(T.TimeSize(scale))
  {
    Pow10Small();
    Pow10UpTo7();
    Pow256Values();
    hide Pow10, Pow256;
  }

  /** datetime2 at every scale: the count in as many bytes as its TYPE_INFO says, then the day. */
  lemma DateTime2AtEveryScale(day: int, seconds: nat, f: nat, scale: Byte)
    requires scale <= 7 && -0x80_0000 <= day < 0x80_0000 && seconds < 86_400 && f < Pow10(scale)
    ensures var d := DecodeDateTime2(scale, LittleEndian(CountOf(seconds, f, scale), T.TimeSize(scale)) + WriteI24(day));
            d.Ok? && d.value.day == day && IsMoment(d.value.time, seconds, f, scale)
  {
    hide IsMoment, CountOf;
    var count, size := CountOf(seconds, f, scale), T.TimeSize(scale);
    MomentAtEveryScale(seconds, f, scale);
    CountFits(seconds, f, scale);
    LittleEndianRoundTrip(count, size);
    I24RoundTripIff(day);
    hide Pow10, Pow256, LittleEndian, FromLittleEndian, WriteI24, ReadI24, MomentOf, DecodeDateTime2, T.TimeSize;
    DecodeParts(scale, count, LittleEndian(count, size), WriteI24(day));
  }

  lemma DecodeParts(scale: Byte, count: nat, time: Bytes, date: Bytes)
    requires scale <= 7 && |date| == 3 && FromLittleEndian(time) == count < U64_LIMIT
    ensures DecodeDateTime2(scale, time + date) ==
            match MomentOf(count, scale)
            case Err(e) => Err(e)
            case Ok(t) => Ok(DateTime2(ReadI24(date), t))
  {
    hide FromLittleEndian, ReadI24, MomentOf;
    assert (time + date)[..|time|] == time && (time + date)[|time|..] == date;
  }

  lemma DecodeOffsetParts(scale: Byte, moment: Bytes, d: DateTime2, minutes: int)
    requires scale <= 7 && 3 <= |moment| && DecodeDateTime2(scale, moment) == Ok(d)
    requires -1440 < minutes < 1440 && InWidth(minutes, 2)
    ensures DecodeDateTimeOffset(scale, moment + SignedBytes(minutes, 2)) == Ok(DateTimeOffset(d, minutes * 60))
  {
    Pow256Values();
    LittleEndianRoundTrip(Unsigned(minutes, 2), 2);
    hide Pow256, LittleEndian, FromLittleEndian, DecodeDateTime2;
    var offset := SignedBytes(minutes, 2);
    assert (moment + offset)[..|moment|] == moment && (moment + offset)[|moment|..] == offset;
  }

  lemma CountFits(seconds: nat, f: nat, scale: Byte)
    requires scale <= 7 && seconds < 86_400 && f < Pow10(scale)
    ensures CountOf(seconds, f, scale) < Pow256(T.TimeSize(scale))
    ensures CountOf(seconds, f, scale) < U64_LIMIT
  {
    TimeSizeIsMinimal(scale);
    Pow256Values();
    hide Pow10, Pow256;
    MultipleBounds(Pow10(scale), 86_399 - seconds);
    assert Pow10(scale) * (86_399 - seconds) == 86_399 * Pow10(scale) - seconds * Pow10(scale);
  }

  /** datetimeoffset at every scale: the same, then the offset in minutes. */
  lemma DateTimeOffsetAtEveryScale(day: int, seconds: nat, f: nat, scale: Byte, minutes: int)
    requires scale <= 7 && -0x80_0000 <= day < 0x80_0000 && seconds < 86_400 && f < Pow10(scale)
    requires -1440 < minutes < 1440
    ensures InWidth(minutes, 2)
    ensures var moment := LittleEndian(CountOf(seconds, f, scale), T.TimeSize(scale)) + WriteI24(day);
            var d := DecodeDateTimeOffset(scale, moment + SignedBytes(minutes, 2));
            d.Ok? && d.value.utc.day == day && IsMoment(d.value.utc.time, seconds, f, scale)
            && d.value.offsetSeconds == minutes * 60
  {
    Pow256Values();
    DateTime2AtEveryScale(day, seconds, f, scale);
    hide Pow10, Pow256, LittleEndian, WriteI24, DecodeDateTime2, DecodeDateTimeOffset, SignedBytes, T.TimeSize, IsMoment, CountOf;
    var moment := LittleEndian(CountOf(seconds, f, scale), T.TimeSize(scale)) + WriteI24(day);
    DecodeOffsetParts(scale, moment, DecodeDateTime2(scale, moment).value, minutes);
  }

  /** The ends of the calendar in both libraries' own day numbers: the first of January of year 1 is sent as 0 and the
      last of December of year 9999 as 3652058. */
  lemma CalendarEnds()
    ensures EncodeChronoDate(1) == EncodeTimeDate(1_721_426) == [0x00, 0x00, 0x00]
    ensures EncodeChronoDate(3_652_059) == EncodeTimeDate(5_373_484) == [0xda, 0xb9, 0x37]
  {
    hide LittleEndian;
    assert LittleEndian(0, 0) == [];
    LittleEndianNext(0, 0, 0);
    LittleEndianNext(0, 0, 1);
    LittleEndianNext(0, 0, 2);
    LittleEndianNext(0x37, 0, 0);
    LittleEndianNext(0xb9, 0x37, 1);
    LittleEndianNext(0xda, 0x37b9, 2);
  }
}
