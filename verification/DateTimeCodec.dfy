/**
 The packed wire form of dates and times (dm/h.go:78-202, 617-795): a 24-bit date, a 37-bit
 (microseconds) or 47-bit (nanoseconds) time of day, and a 16-bit zone, low byte first.
 */
module DateTimeCodec {
  import opened Bits
  import opened Bytes
  import opened Calendar
  import opened Division
  import opened LittleEndian

  const DATE: int := 14
  const TIME: int := 15
  const DATETIME: int := 16
  const TIME_TZ: int := 22
  const DATETIME_TZ: int := 23
  const DATETIME2: int := 26
  const DATETIME2_TZ: int := 27

  // ---------- numbers as bytes ----------

  /** The k low bytes of n, lowest first. */
  function LE(n: nat, k: nat): (b: seq<Byte>)
    ensures |b| == k
  {
    if k == 0 then [] else [ToByte(n)] + LE(n / 256, k - 1)
  }

  function Number(b: seq<Byte>): nat {
    if b == [] then 0 else (b[0] as int) + 256 * Number(b[1..])
  }

  function Pow256(k: nat): (p: nat)
    ensures p >= 1
  {
    if k == 0 then 1 else 256 * Pow256(k - 1)
  }

  lemma {:induction false} NumberLE(n: nat, k: nat)
    requires n < Pow256(k)
    ensures Number(LE(n, k)) == n
  {
    if k > 0 {
      NumberLE(n / 256, k - 1);
      assert LE(n, k)[1..] == LE(n / 256, k - 1);
    }
  }

  lemma LE3(n: nat)
    ensures LE(n, 3) == [ToByte(n), ToByte(n / 256), ToByte(n / 256 / 256)]
  {
    assert LE(n / 256, 2) == [ToByte(n / 256)] + LE(n / 256 / 256, 1);
    assert LE(n / 256 / 256, 1) == [ToByte(n / 256 / 256)] + [];
  }

  lemma Number3(b: seq<Byte>)
    requires |b| == 3
    ensures Number(b) == b[0] as int + 256 * b[1] as int + 65536 * b[2] as int
  {
    assert Number(b[1..]) == b[1] as int + 256 * Number(b[1..][1..]);
    assert b[1..][1..] == [b[2]];
    assert [b[2]][1..] == [];
  }

  lemma NumberSplit3(b: seq<Byte>)
    requires |b| >= 3
    ensures Number(b) == b[0] as int + 256 * b[1] as int + 65536 * b[2] as int + 0x100_0000 * Number(b[3..])
  {
    assert Number(b[1..]) == b[1] as int + 256 * Number(b[1..][1..]);
    assert b[1..][1..] == b[2..];
    assert Number(b[2..]) == b[2] as int + 256 * Number(b[2..][1..]);
    assert b[2..][1..] == b[3..];
  }

  // ---------- the fields as numbers ----------

  /** Year in 15 bits, month in 4, day in 5. */
  function DateNumber(year: int, month: nat, day: nat): nat {
    year % 0x8000 + month * 0x8000 + day * 0x8_0000
  }

  /** Hour in 5 bits, minute and second in 6 each, then the fraction. */
  function TimeNumber(hour: nat, min: nat, sec: nat, frac: nat): nat {
    hour + min * 0x20 + sec * 0x800 + frac * 0x2_0000
  }

  lemma DateNumberFields(year: int, month: nat, day: nat)
    requires month < 16 && day < 32
    ensures var n := DateNumber(year, month, day);
      n < Pow256(3) && n % 0x8000 == year % 0x8000 && n / 0x8000 % 16 == month && n / 0x8_0000 == day
  {
    assert Pow256(2) == 65536;
    assert Pow256(3) == 0x100_0000;
  }

  lemma TimeNumberFields(hour: nat, min: nat, sec: nat, frac: nat)
    requires hour < 32 && min < 64 && sec < 64
    ensures var n := TimeNumber(hour, min, sec, frac);
      n % 32 == hour && n / 32 % 64 == min && n / 0x800 % 64 == sec && n / 0x2_0000 == frac
  {
    var n := TimeNumber(hour, min, sec, frac);
    DivisionIs(n, 32, min + sec * 0x40 + frac * 0x1000, hour);
    DivisionIs(min + sec * 0x40 + frac * 0x1000, 64, sec + frac * 64, min);
    DivisionIs(n, 0x800, sec + frac * 64, hour + min * 32);
    DivisionIs(sec + frac * 64, 64, frac, sec);
    DivisionIs(n, 0x2_0000, frac, hour + min * 32 + sec * 0x800);
  }

  // ---------- packing ----------

  /** The bytes as the source computes them, field by field. */
  function DateByte1(year: int, month: nat): Byte {
    if year >= 0 then ToByte(BitOr(year / 256, BitAnd(month, 0x01) * 128))
    else ToByte(BitAnd(Pattern(year / 256), BitOr(BitAnd(month, 0x01) * 128, 0x7f)))
  }

  function DateByte2(month: nat, day: nat): Byte { ToByte(BitOr(BitAnd(month, 0x0E) / 2, day * 8)) }

  function TimeByte0(hour: nat, min: nat): Byte { ToByte(BitOr(hour, BitAnd(min, 0x07) * 32)) }

  function TimeByte1(min: nat, sec: nat): Byte { ToByte(BitOr(BitAnd(min, 0x38) / 8, BitAnd(sec, 0x1F) * 8)) }

  function TimeByte2(sec: nat, frac: nat): Byte { ToByte(BitOr(BitAnd(sec, 0x20) / 32, BitAnd(frac, 0x7F) * 2)) }

  function FracByte(shifted: nat): Byte { ToByte(BitAnd(shifted, 0xFF)) }

  lemma OneBit(x: nat)
    ensures BitAnd(x, 1) == x % 2
  {
    AndStep(x, 1);
    AndZero(x / 2);
  }

  lemma Mask3(x: nat)
    ensures BitAnd(x, 0x07) == x % 8
  {
    Powers();
    AndMask(x, 3);
    hide BitAnd;
  }

  lemma Mask5(x: nat)
    ensures BitAnd(x, 0x1F) == x % 32
  {
    Powers();
    AndMask(x, 5);
    hide BitAnd;
  }

  lemma Mask7(x: nat)
    ensures BitAnd(x, 0x7F) == x % 128
  {
    Powers();
    AndMask(x, 7);
    hide BitAnd;
  }

  lemma Mask8(x: nat)
    ensures BitAnd(x, 0xFF) == x % 256
  {
    Powers();
    AndMask(x, 8);
    hide BitAnd;
  }

  lemma Multiple(k: int, x: int)
    requires k > 0
    ensures k * x / k == x
  {
    DivisionIs(k * x, k, x, 0);
  }

  /** Masks that select high bits, with the shift that follows them. */
  lemma MonthHigh(x: nat)
    ensures BitAnd(x, 0x0E) / 2 == x / 2 % 8
  {
    hide BitAnd;
    AndAbove1(x, 7);
    Mask3(x / 2);
    Multiple(2, x / 2 % 8);
  }

  lemma MinuteHigh(x: nat)
    ensures BitAnd(x, 0x38) / 8 == x / 8 % 8
  {
    hide BitAnd;
    AndAbove3(x, 7);
    Mask3(x / 8);
    Multiple(8, x / 8 % 8);
  }

  lemma SecondHigh(x: nat)
    ensures BitAnd(x, 0x20) / 32 == x / 32 % 2
  {
    hide BitAnd;
    AndAbove5(x, 1);
    OneBit(x / 32);
    Multiple(32, x / 32 % 2);
  }

  lemma DayHigh(x: nat)
    ensures BitAnd(x, 0xF8) / 8 == x / 8 % 32
  {
    hide BitAnd;
    AndAbove3(x, 0x1F);
    Mask5(x / 8);
    Multiple(8, x / 8 % 32);
  }

  /** Two fields in one byte. */
  lemma ByteOr2(lo: nat, hi: nat)
    requires lo < 2 && hi < 128
    ensures ToByte(BitOr(lo, hi * 2)) as int == lo + hi * 2
  {
    Powers();
    OrDisjoint(lo, hi, 1);
    hide BitOr;
  }

  lemma ByteOr8(lo: nat, hi: nat)
    requires lo < 8 && hi < 32
    ensures ToByte(BitOr(lo, hi * 8)) as int == lo + hi * 8
  {
    Powers();
    OrDisjoint(lo, hi, 3);
    hide BitOr;
  }

  lemma ByteOr32(lo: nat, hi: nat)
    requires lo < 32 && hi < 8
    ensures ToByte(BitOr(lo, hi * 32)) as int == lo + hi * 32
  {
    Powers();
    OrDisjoint(lo, hi, 5);
    hide BitOr;
  }

  lemma ByteOr128(lo: nat, hi: nat)
    requires lo < 128 && hi < 2
    ensures ToByte(BitOr(lo, hi * 128)) as int == lo + hi * 128
  {
    hide BitOr;
    Powers();
    OrDisjoint(lo, hi, 7);
    hide Pow2;
    assert 0 <= lo + hi * 128 < 256;
  }

  /** The high year byte: its seventh bit is the low bit of the month, for either sign. */
  lemma DateByte1Is(year: int, month: nat)
    requires -4712 <= year <= 9999
    ensures DateByte1(year, month) as int == year / 256 % 128 + month % 2 * 128
  {
    hide BitAnd, BitOr;
    OneBit(month);
    if year >= 0 {
      ByteOr128(year / 256, month % 2);
    } else {
      SwapOr(month % 2);
      AndSeven(Pattern(year / 256), month % 2);
      NegativeByte(year / 256, month % 2);
    }
  }

  lemma NegativeByte(y: int, h: nat)
    requires -19 <= y < 0 && h < 2
    ensures ToByte(Pattern(y) % 128 + 128 * (Pattern(y) / 128 % 2 * h)) as int == y % 128 + h * 128
  {
    assert Pattern(y) == 0x1_0000_0000_0000_0000 + y;
    DivisionIs(Pattern(y), 128, 0x1FF_FFFF_FFFF_FFFF, y + 128);
  }

  lemma SwapOr(h: nat)
    requires h < 2
    ensures BitOr(h * 128, 0x7f) == 128 * h + 127
  {
    if h == 1 {
      assert BitOr(16, 15) == 31 by {
        assert BitOr(4, 3) == 7;
      }
    }
  }

  lemma DateByte2Is(month: nat, day: nat)
    requires month < 16 && day < 32
    ensures DateByte2(month, day) as int == month / 2 % 8 + day * 8
  {
    hide BitAnd, BitOr, ToByte;
    MonthHigh(month);
    ByteOr8(month / 2 % 8, day);
  }

  lemma TimeByte0Is(hour: nat, min: nat)
    requires hour < 32
    ensures TimeByte0(hour, min) as int == hour + min % 8 * 32
  {
    hide BitAnd, BitOr, ToByte;
    Mask3(min);
    ByteOr32(hour, min % 8);
  }

  lemma TimeByte1Is(min: nat, sec: nat)
    ensures TimeByte1(min, sec) as int == min / 8 % 8 + sec % 32 * 8
  {
    hide BitAnd, BitOr, ToByte;
    MinuteHigh(min);
    Mask5(sec);
    ByteOr8(min / 8 % 8, sec % 32);
  }

  lemma TimeByte2Is(sec: nat, frac: nat)
    ensures TimeByte2(sec, frac) as int == sec / 32 % 2 + frac % 128 * 2
  {
    hide BitAnd, BitOr, ToByte;
    SecondHigh(sec);
    Mask7(frac);
    ByteOr2(sec / 32 % 2, frac % 128);
  }

  lemma YearByteIs(year: int)
    ensures ToByte(BitAnd(Pattern(year), 0xFF)) as int == year % 256
  {
    hide BitAnd;
    Mask8(Pattern(year));
    var q := year / 0x1_0000_0000_0000_0000;
    assert Pattern(year) == year - q * 0x1_0000_0000_0000_0000;
    DivisionIs(Pattern(year), 256, year / 256 - q * 0x100_0000_0000_0000, year % 256);
  }

  /** The date bytes are the date number, low byte first. */
  lemma DateBytes(year: int, month: nat, day: nat)
    requires -4712 <= year <= 9999 && month < 16 && day < 32
    ensures [ToByte(BitAnd(Pattern(year), 0xFF)), DateByte1(year, month), DateByte2(month, day)]
      == LE(DateNumber(year, month, day), 3)
  {
    LE3(DateNumber(year, month, day));
    YearByteIs(year);
    DateByte1Is(year, month);
    DateByte2Is(month, day);
    DateDigits(year, month, day);
    hide BitAnd, BitOr, LE, DateByte1, DateByte2, DateNumber, Pattern;
  }

  lemma DateDigits(year: int, month: nat, day: nat)
    requires month < 16 && day < 32
    ensures var n := DateNumber(year, month, day);
      n % 256 == year % 256 && n / 256 % 256 == year / 256 % 128 + month % 2 * 128
      && n / 256 / 256 % 256 == month / 2 % 8 + day * 8
  {
    var n, high := DateNumber(year, month, day), year / 256 % 128;
    var n1, n2 := high + month * 128 + day * 2048, month / 2 + day * 8;
    YearSplit(year);
    DivisionIs(n, 256, n1, year % 256);
    DivisionIs(n1, 256, n2, high + month % 2 * 128);
    DivisionIs(n2, 256, 0, n2);
  }

  lemma YearSplit(year: int)
    ensures year % 0x8000 == year % 256 + 256 * (year / 256 % 128)
  {
    var h := year / 256;
    DivisionIs(year, 0x8000, h / 128, year % 256 + 256 * (h % 128));
  }

  lemma TimeDigits(hour: nat, min: nat, sec: nat, frac: nat)
    requires hour < 32 && min < 64 && sec < 64
    ensures var n := TimeNumber(hour, min, sec, frac);
      n % 256 == hour + min % 8 * 32 && n / 256 % 256 == min / 8 % 8 + sec % 32 * 8
      && n / 256 / 256 % 256 == sec / 32 % 2 + frac % 128 * 2 && n / 256 / 256 / 256 == frac / 128
  {
    var n := TimeNumber(hour, min, sec, frac);
    var n1, n2 := min / 8 + sec * 8 + frac * 512, sec / 32 + frac * 2;
    DivisionIs(n, 256, n1, hour + min % 8 * 32);
    DivisionIs(n1, 256, n2, min / 8 + sec % 32 * 8);
    DivisionIs(n2, 256, frac / 128, sec / 32 + frac % 128 * 2);
  }

  /** The time bytes are the time number, low byte first. */
  lemma TimeBytes(hour: nat, min: nat, sec: nat, frac: nat, k: nat)
    requires hour < 32 && min < 64 && sec < 64
    ensures [TimeByte0(hour, min), TimeByte1(min, sec), TimeByte2(sec, frac)] + LE(frac / 128, k)
      == LE(TimeNumber(hour, min, sec, frac), 3 + k)
  {
    TimeByte0Is(hour, min);
    TimeByte1Is(min, sec);
    TimeByte2Is(sec, frac);
    TimeDigits(hour, min, sec, frac);
    LEAfter3(TimeNumber(hour, min, sec, frac), k);
    hide LE, TimeNumber, TimeByte0, TimeByte1, TimeByte2;
  }

  lemma LEAfter3(n: nat, k: nat)
    ensures LE(n, 3 + k) == [ToByte(n), ToByte(n / 256), ToByte(n / 256 / 256)] + LE(n / 256 / 256 / 256, k)
  {
    assert LE(n / 256, 2 + k) == [ToByte(n / 256)] + LE(n / 256 / 256, 1 + k);
    assert LE(n / 256 / 256, 1 + k) == [ToByte(n / 256 / 256)] + LE(n / 256 / 256 / 256, k);
  }

  lemma FracByteIs(x: nat)
    ensures FracByte(x) == ToByte(x)
  {
    hide BitAnd;
    Mask8(x);
  }

  lemma FracBytes(frac: nat)
    ensures LE(frac / 128, 2) == [FracByte(frac / 128), FracByte(frac / 0x8000)]
    ensures LE(frac / 128, 3) == [FracByte(frac / 128), FracByte(frac / 0x8000), FracByte(frac / 0x80_0000)]
  {
    FracByteIs(frac / 128);
    FracByteIs(frac / 0x8000);
    FracByteIs(frac / 0x80_0000);
    DivDiv(frac, 128, 256);
    DivDiv(frac, 0x8000, 256);
    LE3(frac / 128);
    LE2(frac / 128);
    hide FracByte, LE, ToByte;
  }

  lemma LE2(n: nat)
    ensures LE(n, 2) == [ToByte(n), ToByte(n / 256)]
  {
    assert LE(n / 256, 1) == [ToByte(n / 256)] + [];
  }

  // ---------- encode ----------

  /** Both zone shifts of `encode`: to the local zone, then for local columns to the server's. */
  function Shifted(dt: seq<int>, local: bool, lTz: int, dTz: int): (r: seq<int>)
    requires |dt| == DT_LEN && (dt[OFFSET_TIMEZONE] == INVALID_VALUE || 1 <= dt[OFFSET_MONTH] <= 12)
    ensures |r| == DT_LEN
  {
    var a := Transformed(dt, dt[OFFSET_TIMEZONE], lTz);
    MonthKept(dt, dt[OFFSET_TIMEZONE], lTz);
    if local then Transformed(a, a[OFFSET_TIMEZONE], dTz) else a
  }

  lemma MonthKept(dt: seq<int>, srcTz: int, destTz: int)
    requires |dt| == DT_LEN && (dt[OFFSET_TIMEZONE] == INVALID_VALUE || 1 <= dt[OFFSET_MONTH] <= 12)
    requires srcTz == dt[OFFSET_TIMEZONE]
    ensures var r := Transformed(dt, srcTz, destTz);
      r[OFFSET_TIMEZONE] == INVALID_VALUE || 1 <= r[OFFSET_MONTH] <= 12
  {
    if Shifts(srcTz, destTz) {
      AddedFields(dt, destTz - srcTz);
      hide AddedMinutes;
    }
  }

  /** Fields within their widths. */
  predicate InWidth(dt: seq<int>) {
    && |dt| == DT_LEN && 0 <= dt[OFFSET_MONTH] < 16 && 0 <= dt[OFFSET_DAY] < 32
    && 0 <= dt[OFFSET_HOUR] < 32 && 0 <= dt[OFFSET_MINUTE] < 64 && 0 <= dt[OFFSET_SECOND] < 64
    && 0 <= dt[OFFSET_NANOSECOND] < 1_000_000_000
  }

  lemma TransformedInWidth(dt: seq<int>, srcTz: int, destTz: int)
    requires InWidth(dt) && (Shifts(srcTz, destTz) ==> 1 <= dt[OFFSET_MONTH] <= 12)
    ensures InWidth(Transformed(dt, srcTz, destTz))
  {
    if Shifts(srcTz, destTz) {
      AddedFields(dt, destTz - srcTz);
      var r := AddedMinutes(dt, destTz - srcTz);
      assert r[OFFSET_SECOND] == r[OFFSET_SECOND..][0] && r[OFFSET_NANOSECOND] == r[OFFSET_SECOND..][1];
      assert dt[OFFSET_SECOND] == dt[OFFSET_SECOND..][0] && dt[OFFSET_NANOSECOND] == dt[OFFSET_SECOND..][1];
      hide AddedMinutes;
    }
  }

  predicate HasDate(colType: int) { colType in {DATE, DATETIME, DATETIME2, DATETIME_TZ, DATETIME2_TZ} }

  predicate HasTime(colType: int) { colType in {TIME, TIME_TZ, DATETIME, DATETIME2, DATETIME_TZ, DATETIME2_TZ} }

  predicate HasZone(colType: int) { colType in {TIME_TZ, DATETIME_TZ, DATETIME2_TZ} }

  /** Types that keep nanoseconds. */
  predicate IsWide(colType: int) { colType in {DATETIME2, DATETIME2_TZ} }

  function DatePart(dt: seq<int>): seq<Byte>
    requires InWidth(dt)
  {
    LE(DateNumber(dt[OFFSET_YEAR], dt[OFFSET_MONTH], dt[OFFSET_DAY]), 3)
  }

  function TimePart(dt: seq<int>, wide: bool): seq<Byte>
    requires InWidth(dt)
  {
    var frac := if wide then dt[OFFSET_NANOSECOND] else dt[OFFSET_NANOSECOND] / 1000;
    LE(TimeNumber(dt[OFFSET_HOUR], dt[OFFSET_MINUTE], dt[OFFSET_SECOND], frac), if wide then 6 else 5)
  }

  /** The zone sent: the value's own, or the server's if it has none. */
  function ZoneOf(dt: seq<int>, dTz: int): int
    requires |dt| == DT_LEN
  {
    if dt[OFFSET_TIMEZONE] == INVALID_VALUE then dTz else dt[OFFSET_TIMEZONE]
  }

  /** The packed value. In DATETIME2_TZ the zone overwrites the last byte of the fraction
      and the last byte stays zero. */
  function Layout(colType: int, dt: seq<int>, dTz: int): seq<Byte>
    requires InWidth(dt)
  {
    var zone := PutInt16(ZoneOf(dt, dTz));
    if colType == DATE then DatePart(dt)
    else if colType == DATETIME || colType == DATETIME2 then DatePart(dt) + TimePart(dt, IsWide(colType))
    else if colType == DATETIME_TZ then DatePart(dt) + TimePart(dt, false) + zone
    else if colType == DATETIME2_TZ then DatePart(dt) + TimePart(dt, true)[..5] + zone + [0]
    else if colType == TIME then TimePart(dt, false)
    else if colType == TIME_TZ then TimePart(dt, false) + zone
    else []
  }

  function Size(colType: int): nat {
    if colType == DATE then 3 else if colType == DATETIME then 8 else if colType == DATETIME2 then 9
    else if colType == DATETIME_TZ then 10 else if colType == DATETIME2_TZ then 11
    else if colType == TIME then 5 else if colType == TIME_TZ then 7 else 0
  }

  /** The three bytes of a date. */
  lemma DatePartBytes(dt: seq<int>)
    requires InWidth(dt)
    ensures var year, month, day := dt[OFFSET_YEAR], dt[OFFSET_MONTH], dt[OFFSET_DAY];
      && |DatePart(dt)| == 3
      && DatePart(dt)[0] as int == year % 256
      && DatePart(dt)[1] as int == year / 256 % 128 + month % 2 * 128
      && DatePart(dt)[2] as int == month / 2 + day * 8
  {
    LE3(DateNumber(dt[OFFSET_YEAR], dt[OFFSET_MONTH], dt[OFFSET_DAY]));
    DateDigits(dt[OFFSET_YEAR], dt[OFFSET_MONTH], dt[OFFSET_DAY]);
    hide DateNumber, LE;
  }

  /** The five or six bytes of a time of day, in micro- or nanoseconds. */
  lemma TimePartBytes(dt: seq<int>, wide: bool)
    requires InWidth(dt)
    ensures var hour, min, sec := dt[OFFSET_HOUR], dt[OFFSET_MINUTE], dt[OFFSET_SECOND];
      var frac := if wide then dt[OFFSET_NANOSECOND] else dt[OFFSET_NANOSECOND] / 1000;
      && |TimePart(dt, wide)| == (if wide then 6 else 5)
      && TimePart(dt, wide)[0] as int == hour + min % 8 * 32
      && TimePart(dt, wide)[1] as int == min / 8 + sec % 32 * 8
      && TimePart(dt, wide)[2] as int == sec / 32 + frac % 128 * 2
      && TimePart(dt, wide)[3] as int == frac / 128 % 256
      && TimePart(dt, wide)[4] as int == frac / 0x8000 % 256
      && (wide ==> TimePart(dt, wide)[5] as int == frac / 0x80_0000 % 256)
  {
    var hour, min, sec := dt[OFFSET_HOUR], dt[OFFSET_MINUTE], dt[OFFSET_SECOND];
    var frac := if wide then dt[OFFSET_NANOSECOND] else dt[OFFSET_NANOSECOND] / 1000;
    ClockBytes(hour, min, sec, frac, if wide then 3 else 2);
    FracBytes(frac);
    FracByteIs(frac / 128);
    FracByteIs(frac / 0x8000);
    FracByteIs(frac / 0x80_0000);
    hide TimeNumber, LE, FracByte;
    assert wide ==> TimePart(dt, wide)[3..][2] == TimePart(dt, wide)[5];
  }

  lemma ClockBytes(hour: nat, min: nat, sec: nat, frac: nat, k: nat)
    requires hour < 32 && min < 64 && sec < 64
    ensures var b := LE(TimeNumber(hour, min, sec, frac), 3 + k);
      && b[0] as int == hour + min % 8 * 32
      && b[1] as int == min / 8 + sec % 32 * 8
      && b[2] as int == sec / 32 + frac % 128 * 2
      && b[3..] == LE(frac / 128, k)
  {
    TimeDigits(hour, min, sec, frac);
    LEAfter3(TimeNumber(hour, min, sec, frac), k);
    SmallParts(min, sec);
    hide TimeNumber, LE;
  }

  lemma SmallParts(min: nat, sec: nat)
    requires min < 64 && sec < 64
    ensures min / 8 % 8 == min / 8 && sec / 32 % 2 == sec / 32
  {}

  /** Which of them each type sends, by the protocol's type codes; the zone is 16 bits,
      low byte first, and in type 27 it takes the place of the last byte of the fraction. */
  lemma WireBytes(dt: seq<int>, dTz: int)
    requires InWidth(dt)
    ensures var zone := if dt[OFFSET_TIMEZONE] == -0x8000_0000 then dTz else dt[OFFSET_TIMEZONE];
      var z := [ToByte(zone), ToByte(zone / 256)];
      && Layout(14, dt, dTz) == DatePart(dt)
      && Layout(15, dt, dTz) == TimePart(dt, false)
      && Layout(16, dt, dTz) == DatePart(dt) + TimePart(dt, false)
      && Layout(22, dt, dTz) == TimePart(dt, false) + z
      && Layout(23, dt, dTz) == DatePart(dt) + TimePart(dt, false) + z
      && Layout(26, dt, dTz) == DatePart(dt) + TimePart(dt, true)
      && Layout(27, dt, dTz) == DatePart(dt) + TimePart(dt, true)[..5] + z + [0]
  {
    hide DatePart, TimePart;
  }

  method PutDate(ret: array<Byte>, year: int, month: nat, day: nat)
    requires ret.Length >= 3 && -4712 <= year <= 9999 && month < 16 && day < 32
    modifies ret
    ensures ret[..3] == LE(DateNumber(year, month, day), 3)
    ensures forall i :: 3 <= i < ret.Length ==> ret[i] == old(ret[i])
  {
    DateBytes(year, month, day);
    hide BitAnd, BitOr, LE, DateNumber, Pattern, DateByte1, DateByte2;
    ret[0] := ToByte(BitAnd(Pattern(year), 0xFF));
    ret[1] := DateByte1(year, month);
    ret[2] := DateByte2(month, day);
    assert ret[..3] == [ret[0], ret[1], ret[2]];
  }

  method PutTime(ret: array<Byte>, at: nat, hour: nat, min: nat, sec: nat, frac: nat, wide: bool)
    requires at + (if wide then 6 else 5) <= ret.Length && hour < 32 && min < 64 && sec < 64
    modifies ret
    ensures var k := if wide then 6 else 5;
      ret[at..at + k] == LE(TimeNumber(hour, min, sec, frac), k)
      && ret[..at] == old(ret[..at]) && (forall i :: at + k <= i < ret.Length ==> ret[i] == old(ret[i]))
  {
    TimeBytes(hour, min, sec, frac, if wide then 3 else 2);
    FracBytes(frac);
    hide BitAnd, BitOr, LE, TimeNumber, TimeByte0, TimeByte1, TimeByte2, FracByte;
    ret[at] := TimeByte0(hour, min);
    ret[at + 1] := TimeByte1(min, sec);
    ret[at + 2] := TimeByte2(sec, frac);
    ret[at + 3] := FracByte(frac / 128);
    ret[at + 4] := FracByte(frac / 0x8000);
    if wide {
      ret[at + 5] := FracByte(frac / 0x80_0000);
      assert ret[at..at + 6] == [ret[at], ret[at + 1], ret[at + 2]] + [ret[at + 3], ret[at + 4], ret[at + 5]];
    } else {
      assert ret[at..at + 5] == [ret[at], ret[at + 1], ret[at + 2]] + [ret[at + 3], ret[at + 4]];
    }
  }

  method PutZone(ret: array<Byte>, at: nat, tz: int)
    requires at + 2 <= ret.Length
    modifies ret
    ensures ret[at..at + 2] == PutInt16(tz) && ret[..at] == old(ret[..at]) && ret[at + 2..] == old(ret[at + 2..])
  {
    ret[at] := ToByte(tz);
    ret[at + 1] := ToByte(tz / 256);
  }

  /** `encode`; not ok is the overflow error. The zone shifts stay in the caller's array. */
  method Encode(dt: array<int>, colType: int, local: bool, lTz: int, dTz: int) returns (ok: bool, ret: array<Byte>)
    requires InWidth(dt[..]) && (dt[OFFSET_TIMEZONE] == INVALID_VALUE || 1 <= dt[OFFSET_MONTH] <= 12)
    modifies dt
    ensures dt[..] == Shifted(old(dt[..]), local, lTz, dTz) && InWidth(dt[..])
    ensures ok <==> -4712 <= dt[OFFSET_YEAR] <= 9999
    ensures ok ==> ret[..] == Layout(colType, dt[..], dTz)
  {
    MonthKept(dt[..], dt[OFFSET_TIMEZONE], lTz);
    TransformedInWidth(dt[..], dt[OFFSET_TIMEZONE], lTz);
    hide AddedMinutes;
    if dt[OFFSET_TIMEZONE] != INVALID_VALUE {
      TransformTZ(dt, dt[OFFSET_TIMEZONE], lTz);
    }
    hide Transformed;
    if local {
      TransformedInWidth(dt[..], dt[OFFSET_TIMEZONE], dTz);
      TransformTZ(dt, dt[OFFSET_TIMEZONE], dTz);
    }
    hide Shifted, Shifts;
    if dt[OFFSET_YEAR] < -4712 || dt[OFFSET_YEAR] > 9999 {
      ret := new Byte[0];
      return false, ret;
    }
    ok := true;
    ret := Pack(colType, dt[..], dTz);
  }

  /** The byte-building branches of `encode`. */
  method Pack(colType: int, dt: seq<int>, dTz: int) returns (ret: array<Byte>)
    requires InWidth(dt) && -4712 <= dt[OFFSET_YEAR] <= 9999
    ensures fresh(ret) && ret[..] == Layout(colType, dt, dTz)
  {
    hide LE, DateNumber, TimeNumber;
    var hour, min, sec := dt[OFFSET_HOUR], dt[OFFSET_MINUTE], dt[OFFSET_SECOND];
    var msec := dt[OFFSET_NANOSECOND];
    var tz := if dt[OFFSET_TIMEZONE] == INVALID_VALUE then dTz else dt[OFFSET_TIMEZONE];
    ret := new Byte[Size(colType)](_ => 0);
    if HasDate(colType) {
      PutDate(ret, dt[OFFSET_YEAR], dt[OFFSET_MONTH], dt[OFFSET_DAY]);
      assert colType == DATETIME2_TZ ==> ret[10] == 0;
    }
    if HasTime(colType) {
      if !IsWide(colType) {
        msec := msec / 1000;
      }
      ghost var at := if HasDate(colType) then 3 else 0;
      PutTime(ret, if HasDate(colType) then 3 else 0, hour, min, sec, msec, IsWide(colType));
      assert HasDate(colType) ==> ret[..3] == DatePart(dt);
      if IsWide(colType) {
        assert ret[at..at + 6] == TimePart(dt, true);
        assert colType == DATETIME2_TZ ==> ret[10] == 0;
      } else {
        assert ret[at..at + 5] == TimePart(dt, false);
      }
    }
    hide DatePart, TimePart, PutInt16;
    if HasZone(colType) {
      ghost var body := ret[..];
      var at := if colType == TIME_TZ then 5 else 8;
      PutZone(ret, at, tz);
      ZoneBehind(body, ret[..], at, PutInt16(tz));
      if colType == DATETIME2_TZ {
        assert body[10..] == [body[10]];
        assert body[..8] == body[..3] + body[3..9][..5];
      } else if colType == DATETIME_TZ {
        assert body[..8] == body[..3] + body[3..8];
        assert body[10..] == [];
      } else {
        assert body[7..] == [];
      }
    } else if HasDate(colType) {
      assert ret[..] == ret[..3] + ret[3..];
    } else {
      assert ret[..] == ret[0..];
    }
  }

  lemma ZoneBehind(body: seq<Byte>, now: seq<Byte>, at: nat, zone: seq<Byte>)
    requires |body| == |now| && at + 2 <= |now| && now[at..at + 2] == zone
    requires now[..at] == body[..at] && now[at + 2..] == body[at + 2..]
    ensures now == body[..at] + zone + body[at + 2..]
  {
    assert now == now[..at] + now[at..at + 2] + now[at + 2..];
  }

  // ---------- decode ----------

  /** The fields a packed value stands for, read off its numbers; an unknown length gives
      zeros. */
  function Unpacked(value: seq<Byte>): (dt: seq<int>)
    ensures |dt| == DT_LEN
  {
    var n := |value|;
    var date := if n in {3, 8, 9, 10, 11} then Number(value[..3]) else 0;
    var time :=
      if n in {5, 7} then Number(value[..5])
      else if n in {8, 10} then Number(value[3..8])
      else if n in {9, 11} then Number(value[3..9]) else 0;
    [ SignedYear(date % 0x8000), date / 0x8000 % 16, date / 0x8_0000 % 32,
      Clock(time).0, Clock(time).1, Clock(time).2, Nanos(time, n in {9, 11}),
      if n in {7, 10, 11} then GetInt16(value, n - 2) else INVALID_VALUE ]
  }

  /** Fifteen year bits above 9999 are a negative year. */
  function SignedYear(y: nat): int { if y > 9999 then y - 0x8000 else y }

  /** The year bits as the source reads them. */
  function YearOf(value: seq<Byte>): int
    requires |value| >= 3
  {
    var y := BitAnd(Pattern(GetInt16(value, 0)), 0x7FFF);
    if y > 9999 then Int16(BitOr(y, 0x8000)) else y
  }

  lemma YearOfIs(value: seq<Byte>)
    requires |value| >= 3
    ensures YearOf(value) == SignedYear((value[0] as int + value[1] as int * 256) % 0x8000)
  {
    var u := value[0] as int + value[1] as int * 256;
    assert GetInt16(value, 0) == Int16(u);
    YearBits(u);
    hide GetInt16, BitAnd, BitOr, Pattern, Int16;
  }

  lemma YearBits(u: nat)
    requires u < 0x1_0000
    ensures var y := BitAnd(Pattern(Int16(u)), 0x7FFF);
      (if y > 9999 then Int16(BitOr(y, 0x8000)) else y) == SignedYear(u % 0x8000)
  {
    hide BitAnd, BitOr, Pattern, Int16;
    Masks15(Pattern(Int16(u)), u % 0x8000);
    PatternOf16(u);
    SignExtend(u % 0x8000);
  }

  lemma SignExtend(y: nat)
    requires y < 0x8000
    ensures Int16(y + 0x8000) == y - 0x8000
  {}

  lemma Masks15(p: nat, y: nat)
    requires y < 0x8000
    ensures BitAnd(p, 0x7FFF) == p % 0x8000 && BitOr(y, 0x8000) == y + 0x8000
  {
    Powers();
    AndMask(p, 15);
    OrDisjoint(y, 1, 15);
    hide BitAnd, BitOr;
  }

  /** Sign extension keeps the low bits. */
  lemma PatternOf16(u: nat)
    requires u < 0x1_0000
    ensures Pattern(Int16(u)) % 0x8000 == u % 0x8000
  {
    if u >= 0x8000 {
      assert Pattern(Int16(u)) == u + 0xFFFF_FFFF_FFFF_0000;
      DivisionIs(Pattern(Int16(u)), 0x8000, 0x1_FFFF_FFFF_FFFF, u - 0x8000);
    }
  }

  method GetDate(value: seq<Byte>, dt: array<int>)
    requires |value| >= 3 && IsDT(dt)
    modifies dt
    ensures var n := Number(value[..3]);
      dt[..] == old(dt[..])[OFFSET_YEAR := SignedYear(n % 0x8000)][OFFSET_MONTH := n / 0x8000 % 16]
        [OFFSET_DAY := n / 0x8_0000 % 32]
  {
    DateBits(value);
    hide BitAnd, YearOf, Number;
    dt[OFFSET_YEAR] := YearOf(value);
    dt[OFFSET_MONTH] := BitAnd(value[1] / 128, 0x1) + BitAnd(value[2], 0x07) * 2;
    dt[OFFSET_DAY] := BitAnd(BitAnd(value[2], 0xF8) / 8, 0x1f);
  }

  lemma DateBits(value: seq<Byte>)
    requires |value| >= 3
    ensures var n := Number(value[..3]);
      && YearOf(value) == SignedYear(n % 0x8000)
      && BitAnd(value[1] / 128, 0x1) + BitAnd(value[2], 0x07) * 2 == n / 0x8000 % 16
      && BitAnd(BitAnd(value[2], 0xF8) / 8, 0x1f) == n / 0x8_0000 % 32
  {
    YearOfIs(value);
    Number3(value[..3]);
    MonthDayBits(value[1], value[2]);
    DateSplit(value[0], value[1], value[2]);
    hide BitAnd, Number, YearOf, SignedYear;
  }

  lemma MonthDayBits(v1: nat, v2: nat)
    ensures BitAnd(v1 / 128, 0x1) + BitAnd(v2, 0x07) * 2 == v1 / 128 % 2 + v2 % 8 * 2
    ensures BitAnd(BitAnd(v2, 0xF8) / 8, 0x1f) == v2 / 8 % 32
  {
    hide BitAnd;
    OneBit(v1 / 128);
    Mask3(v2);
    DayHigh(v2);
    Mask5(v2 / 8 % 32);
  }

  lemma DateSplit(v0: nat, v1: nat, v2: nat)
    requires v0 < 256 && v1 < 256 && v2 < 256
    ensures var n := v0 + 256 * v1 + 65536 * v2;
      && n % 0x8000 == (v0 + v1 * 256) % 0x8000
      && n / 0x8000 % 16 == v1 / 128 % 2 + v2 % 8 * 2
      && n / 0x8_0000 % 32 == v2 / 8 % 32
  {
    var n, m := v0 + 256 * v1 + 65536 * v2, v1 / 128 + v2 * 2;
    DivisionIs(n, 0x8000, m, v0 + v1 % 128 * 256);
    DivisionIs(v0 + v1 * 256, 0x8000, v1 / 128, v0 + v1 % 128 * 256);
    DivisionIs(m, 16, v2 / 8, v1 / 128 + v2 % 8 * 2);
    DivDiv(n, 0x8000, 16);
  }

  /** The fraction in nanoseconds. */
  function Nanos(n: nat, wide: bool): nat {
    if wide then n / 0x2_0000 % 0x4000_0000 else n / 0x2_0000 % 0x10_0000 * 1000
  }

  function Clock(n: nat): (nat, nat, nat) { (n % 32, n / 32 % 64, n / 0x800 % 64) }

  /** The time of day from `at` on; the fraction is in microseconds unless wide. */
  method GetTime(value: seq<Byte>, at: nat, wide: bool, dt: array<int>)
    requires at + (if wide then 6 else 5) <= |value| && IsDT(dt)
    modifies dt
    ensures var n := Number(value[at..at + if wide then 6 else 5]);
      dt[..] == old(dt[..])[OFFSET_HOUR := Clock(n).0][OFFSET_MINUTE := Clock(n).1][OFFSET_SECOND := Clock(n).2]
        [OFFSET_NANOSECOND := Nanos(n, wide)]
  {
    var v := value[at..at + if wide then 6 else 5];
    ClockBits(v);
    hide ClockOf, NarrowBits, WideBits, Number, Clock, Nanos;
    dt[OFFSET_HOUR] := ClockOf(v[0], v[1], v[2]).0;
    dt[OFFSET_MINUTE] := ClockOf(v[0], v[1], v[2]).1;
    dt[OFFSET_SECOND] := ClockOf(v[0], v[1], v[2]).2;
    if wide {
      WideFraction(v);
      dt[OFFSET_NANOSECOND] := WideBits(v);
    } else {
      NarrowFraction(v);
      dt[OFFSET_NANOSECOND] := NarrowBits(v);
      dt[OFFSET_NANOSECOND] := dt[OFFSET_NANOSECOND] * 1000;
    }
  }

  /** The fraction bits as the source reads them. */
  function NarrowBits(v: seq<Byte>): nat
    requires |v| == 5
  {
    BitAnd(v[2] / 2, 0x7f) + BitAnd(v[3], 0xff) * 128 + BitAnd(v[4], 0x1F) * 0x8000
  }

  function WideBits(v: seq<Byte>): nat
    requires |v| == 6
  {
    BitAnd(v[2] / 2, 0x7f) + BitAnd(v[3], 0xff) * 128 + BitAnd(v[4], 0xff) * 0x8000 + BitAnd(v[5], 0x7F) * 0x80_0000
  }

  lemma ClockSplit(v0: nat, v1: nat, v2: nat, rest: nat)
    requires v0 < 256 && v1 < 256 && v2 < 256
    ensures var n := v0 + 256 * v1 + 65536 * v2 + 0x100_0000 * rest;
      && Clock(n) == (v0 % 32, v0 / 32 % 8 + v1 % 8 * 8, v1 / 8 % 32 + v2 % 2 * 32)
      && n / 0x2_0000 == v2 / 2 + 128 * rest
  {
    var n := v0 + 256 * v1 + 65536 * v2 + 0x100_0000 * rest;
    var n1, n2 := v0 / 32 + 8 * v1 + 2048 * v2 + 0x8_0000 * rest, v1 / 8 + 32 * v2 + 8192 * rest;
    DivisionIs(n, 32, n1, v0 % 32);
    DivisionIs(n1, 64, n2, v0 / 32 + v1 % 8 * 8);
    DivisionIs(n2, 64, v2 / 2 + 128 * rest, v1 / 8 + v2 % 2 * 32);
    DivDiv(n, 32, 64);
    DivDiv(n, 2048, 64);
  }

  /** The clock fields as the source reads them. */
  function ClockOf(v0: nat, v1: nat, v2: nat): (nat, nat, nat) {
    (BitAnd(v0, 0x1F), BitAnd(v0 / 32, 0x07) + BitAnd(v1, 0x07) * 8, BitAnd(v1 / 8, 0x1f) + BitAnd(v2, 0x01) * 32)
  }

  lemma ClockMasks(v0: nat, v1: nat, v2: nat)
    ensures ClockOf(v0, v1, v2) == (v0 % 32, v0 / 32 % 8 + v1 % 8 * 8, v1 / 8 % 32 + v2 % 2 * 32)
  {
    hide BitAnd;
    Mask5(v0);
    Mask3(v0 / 32);
    Mask3(v1);
    Mask5(v1 / 8);
    OneBit(v2);
  }

  lemma ClockBits(v: seq<Byte>)
    requires |v| >= 3
    ensures Clock(Number(v)) == ClockOf(v[0], v[1], v[2])
    ensures Number(v) / 0x2_0000 == v[2] / 2 + 128 * Number(v[3..])
  {
    hide ClockOf, Number, Clock;
    NumberSplit3(v);
    ClockMasks(v[0], v[1], v[2]);
    ClockSplit(v[0], v[1], v[2], Number(v[3..]));
  }

  lemma NarrowFraction(v: seq<Byte>)
    requires |v| == 5
    ensures NarrowBits(v) * 1000 == Nanos(Number(v), false)
  {
    hide NarrowBits, Number, Clock, ClockOf;
    ClockBits(v);
    Number2(v[3..]);
    NarrowIs(v);
    NarrowSplit(v[2] / 2, v[3], v[4]);
  }

  lemma NarrowIs(v: seq<Byte>)
    requires |v| == 5
    ensures var a: int, b: int, c: int := v[2] / 2, v[3], v[4];
      NarrowBits(v) == a % 128 + b % 256 * 128 + c % 32 * 0x8000
  {
    hide BitAnd;
    NarrowMasks(v[2] / 2, v[3], v[4]);
  }

  lemma NarrowMasks(a: nat, b: nat, c: nat)
    ensures BitAnd(a, 0x7f) == a % 128 && BitAnd(b, 0xff) == b % 256 && BitAnd(c, 0x1F) == c % 32
  {
    hide BitAnd;
    Mask7(a);
    Mask8(b);
    Mask5(c);
  }

  lemma NarrowSplit(a: nat, b: nat, c: nat)
    requires a < 128 && b < 256 && c < 256
    ensures (a + 128 * (b + 256 * c)) % 0x10_0000 == a % 128 + b % 256 * 128 + c % 32 * 0x8000
  {
    DivisionIs(a + 128 * (b + 256 * c), 0x10_0000, c / 32, a + 128 * b + c % 32 * 0x8000);
  }

  lemma WideFraction(v: seq<Byte>)
    requires |v| == 6
    ensures WideBits(v) == Nanos(Number(v), true)
  {
    hide WideBits, Number, Clock, ClockOf;
    ClockBits(v);
    Number3(v[3..]);
    WideIs(v);
    WideSplit(v[2] / 2, v[3], v[4], v[5]);
  }

  lemma WideIs(v: seq<Byte>)
    requires |v| == 6
    ensures var a: int, b: int, c: int, d: int := v[2] / 2, v[3], v[4], v[5];
      WideBits(v) == a % 128 + b % 256 * 128 + c % 256 * 0x8000 + d % 128 * 0x80_0000
  {
    hide BitAnd;
    WideMasks(v[2] / 2, v[3], v[4], v[5]);
  }

  lemma WideMasks(a: nat, b: nat, c: nat, d: nat)
    ensures BitAnd(a, 0x7f) == a % 128 && BitAnd(b, 0xff) == b % 256
    ensures BitAnd(c, 0xff) == c % 256 && BitAnd(d, 0x7F) == d % 128
  {
    hide BitAnd;
    Mask7(a);
    Mask8(b);
    Mask8(c);
    Mask7(d);
  }

  lemma WideSplit(a: nat, b: nat, c: nat, d: nat)
    requires a < 128 && b < 256 && c < 256 && d < 256
    ensures (a + 128 * (b + 256 * c + 65536 * d)) % 0x4000_0000
      == a % 128 + b % 256 * 128 + c % 256 * 0x8000 + d % 128 * 0x80_0000
  {
    DivisionIs(a + 128 * (b + 256 * c + 65536 * d), 0x4000_0000, d / 128,
               a + 128 * b + c * 0x8000 + d % 128 * 0x80_0000);
  }

  lemma Number2(b: seq<Byte>)
    requires |b| == 2
    ensures Number(b) == b[0] as int + 256 * b[1] as int
  {
    assert b[1..][1..] == [];
    assert Number(b[1..]) == b[1] as int + 256 * Number(b[1..][1..]);
  }

  /** `dmdtDecodeFast`: the length of the value tells its type. */
  method Decode(value: seq<Byte>) returns (dt: array<int>)
    ensures fresh(dt) && dt[..] == Unpacked(value)
  {
    dt := new int[DT_LEN](_ => 0);
    dt[OFFSET_TIMEZONE] := INVALID_VALUE;
    var n := |value|;
    assert SignedYear(0) == 0 && Clock(0) == (0, 0, 0) && Nanos(0, true) == Nanos(0, false) == 0;
    hide Number, SignedYear, GetInt16, Clock, Nanos;
    if n in {3, 8, 9, 10, 11} {
      GetDate(value, dt);
    }
    if n in {5, 7} {
      assert value[0..5] == value[..5];
      GetTime(value, 0, false, dt);
    } else if n in {8, 10} {
      GetTime(value, 3, false, dt);
    } else if n in {9, 11} {
      GetTime(value, 3, true, dt);
    }
    if n in {7, 10, 11} {
      dt[OFFSET_TIMEZONE] := GetInt16(value, n - 2);
    }
  }

  // ---------- round trip ----------

  /** What a type keeps of a value. */
  function Kept(colType: int, dt: seq<int>, dTz: int): (r: seq<int>)
    requires |dt| == DT_LEN
    ensures |r| == DT_LEN
  {
    var date, time := HasDate(colType), HasTime(colType);
    [ if date then dt[OFFSET_YEAR] else 0, if date then dt[OFFSET_MONTH] else 0, if date then dt[OFFSET_DAY] else 0,
      if time then dt[OFFSET_HOUR] else 0, if time then dt[OFFSET_MINUTE] else 0, if time then dt[OFFSET_SECOND] else 0,
      if !time then 0 else if IsWide(colType) then dt[OFFSET_NANOSECOND] else dt[OFFSET_NANOSECOND] / 1000 * 1000,
      if HasZone(colType) then ZoneOf(dt, dTz) else INVALID_VALUE ]
  }

  /** The date bits of a packed date. */
  ghost predicate DateRead(dt: seq<int>, n: nat)
    requires |dt| == DT_LEN
  {
    SignedYear(n % 0x8000) == dt[OFFSET_YEAR] && n / 0x8000 % 16 == dt[OFFSET_MONTH]
    && n / 0x8_0000 % 32 == dt[OFFSET_DAY]
  }

  ghost predicate TimeRead(dt: seq<int>, n: nat, wide: bool)
    requires |dt| == DT_LEN
  {
    Clock(n) == (dt[OFFSET_HOUR], dt[OFFSET_MINUTE], dt[OFFSET_SECOND])
    && Nanos(n, wide) == if wide then dt[OFFSET_NANOSECOND] else dt[OFFSET_NANOSECOND] / 1000 * 1000
  }

  lemma YearRoundTrip(year: int)
    requires -4712 <= year <= 9999
    ensures SignedYear(year % 0x8000) == year
  {}

  lemma DatePartRead(dt: seq<int>)
    requires InWidth(dt) && -4712 <= dt[OFFSET_YEAR] <= 9999
    ensures |DatePart(dt)| == 3 && DateRead(dt, Number(DatePart(dt)))
  {
    var n := DateNumber(dt[OFFSET_YEAR], dt[OFFSET_MONTH], dt[OFFSET_DAY]);
    DateNumberFields(dt[OFFSET_YEAR], dt[OFFSET_MONTH], dt[OFFSET_DAY]);
    NumberLE(n, 3);
    YearRoundTrip(dt[OFFSET_YEAR]);
    hide LE, Number, SignedYear, DateNumber;
  }

  lemma TimeFits(hour: nat, min: nat, sec: nat, frac: nat)
    requires hour < 32 && min < 64 && sec < 64
    ensures frac < 0x10_0000 ==> TimeNumber(hour, min, sec, frac) < Pow256(5)
    ensures frac < 0x4000_0000 ==> TimeNumber(hour, min, sec, frac) < Pow256(6)
  {
    assert Pow256(2) == 0x1_0000;
    assert Pow256(4) == 0x1_0000_0000;
    assert Pow256(5) == 0x100_0000_0000;
    assert Pow256(6) == 0x1_0000_0000_0000;
  }

  lemma TimePartRead(dt: seq<int>, wide: bool)
    requires InWidth(dt)
    ensures |TimePart(dt, wide)| == (if wide then 6 else 5) && TimeRead(dt, Number(TimePart(dt, wide)), wide)
  {
    var frac := if wide then dt[OFFSET_NANOSECOND] else dt[OFFSET_NANOSECOND] / 1000;
    var hour, min, sec := dt[OFFSET_HOUR], dt[OFFSET_MINUTE], dt[OFFSET_SECOND];
    hide LE, Number, TimeNumber, Clock, Nanos, Pow256;
    TimeFits(hour, min, sec, frac);
    NumberLE(TimeNumber(hour, min, sec, frac), if wide then 6 else 5);
    ClockOfNumber(hour, min, sec, frac);
    NanosOfNumber(hour, min, sec, frac);
  }

  lemma ClockOfNumber(hour: nat, min: nat, sec: nat, frac: nat)
    requires hour < 32 && min < 64 && sec < 64
    ensures Clock(TimeNumber(hour, min, sec, frac)) == (hour, min, sec)
  {
    TimeNumberFields(hour, min, sec, frac);
    hide TimeNumber;
  }

  lemma NanosOfNumber(hour: nat, min: nat, sec: nat, frac: nat)
    requires hour < 32 && min < 64 && sec < 64
    ensures frac < 0x10_0000 ==> Nanos(TimeNumber(hour, min, sec, frac), false) == frac * 1000
    ensures Nanos(TimeNumber(hour, min, sec, frac), true) == frac % 0x4000_0000
  {
    TimeNumberFields(hour, min, sec, frac);
    hide TimeNumber;
    if frac < 0x10_0000 {
      DivisionIs(frac, 0x10_0000, 0, frac);
    }
  }

  lemma ZoneRead(value: seq<Byte>, at: nat, tz: int)
    requires at + 2 == |value| && value[at..] == PutInt16(tz) && FitsInt16(tz)
    ensures GetInt16(value, at) == tz
  {
    assert value[at..at + 2] == value[at..];
    GetInt16At(value, at, tz);
  }

  lemma RoundTripDate(dt: seq<int>, dTz: int)
    requires InWidth(dt) && -4712 <= dt[OFFSET_YEAR] <= 9999
    ensures Unpacked(Layout(DATE, dt, dTz)) == Kept(DATE, dt, dTz)
  {
    DatePartRead(dt);
    EmptyTime();
    hide DatePart, TimePart, Number, PutInt16, GetInt16, SignedYear, Clock, Nanos, InWidth;
    assert Layout(DATE, dt, dTz)[..3] == DatePart(dt);
  }

  /** What is read from a value that is a time of day, with or without a zone. */
  lemma UnpackedTime(value: seq<Byte>)
    requires |value| == 5 || |value| == 7
    ensures var n := Number(value[..5]);
      Unpacked(value) == [0, 0, 0, Clock(n).0, Clock(n).1, Clock(n).2, Nanos(n, false),
                          if |value| == 7 then GetInt16(value, 5) else INVALID_VALUE]
  {
    hide Number, Clock, Nanos, GetInt16;
  }

  lemma RoundTripTime(colType: int, dt: seq<int>, dTz: int)
    requires InWidth(dt) && FitsInt16(ZoneOf(dt, dTz)) && colType in {TIME, TIME_TZ}
    ensures Unpacked(Layout(colType, dt, dTz)) == Kept(colType, dt, dTz)
  {
    var v := Layout(colType, dt, dTz);
    TimePartRead(dt, false);
    TimeSlices(colType, dt, dTz);
    UnpackedTime(v);
    hide TimePart, Number, PutInt16, GetInt16, FitsInt16, Clock, Nanos, InWidth, Layout, Unpacked;
    if colType == TIME_TZ {
      ZoneRead(v, 5, ZoneOf(dt, dTz));
    }
  }

  lemma TimeSlices(colType: int, dt: seq<int>, dTz: int)
    requires InWidth(dt) && colType in {TIME, TIME_TZ}
    ensures var v := Layout(colType, dt, dTz);
      && |v| == Size(colType) && v[..5] == TimePart(dt, false)
      && (colType == TIME_TZ ==> v[5..] == PutInt16(ZoneOf(dt, dTz)))
  {
    hide LE, PutInt16;
  }

  lemma RoundTripDateTime(colType: int, dt: seq<int>, dTz: int)
    requires InWidth(dt) && -4712 <= dt[OFFSET_YEAR] <= 9999 && FitsInt16(ZoneOf(dt, dTz))
    requires colType in {DATETIME, DATETIME2, DATETIME_TZ}
    ensures Unpacked(Layout(colType, dt, dTz)) == Kept(colType, dt, dTz)
  {
    var v := Layout(colType, dt, dTz);
    DatePartRead(dt);
    TimePartRead(dt, IsWide(colType));
    DateTimeSlices(colType, dt, dTz);
    hide DatePart, TimePart, Number, PutInt16, GetInt16, FitsInt16, SignedYear, Clock, Nanos, InWidth, Layout;
    if colType == DATETIME_TZ {
      ZoneRead(v, 8, ZoneOf(dt, dTz));
    }
  }

  /** Every type but DATETIME2_TZ gives back exactly what it keeps, for every year the
      server accepts. */
  lemma RoundTrip(colType: int, dt: seq<int>, dTz: int)
    requires InWidth(dt) && -4712 <= dt[OFFSET_YEAR] <= 9999 && FitsInt16(ZoneOf(dt, dTz))
    requires colType in {DATE, TIME, TIME_TZ, DATETIME, DATETIME2, DATETIME_TZ}
    ensures Unpacked(Layout(colType, dt, dTz)) == Kept(colType, dt, dTz)
  {
    hide *;
    if colType == DATE {
      RoundTripDate(dt, dTz);
    } else if colType == TIME || colType == TIME_TZ {
      RoundTripTime(colType, dt, dTz);
    } else {
      RoundTripDateTime(colType, dt, dTz);
    }
  }

  lemma EmptyTime()
    ensures Clock(0) == (0, 0, 0) && Nanos(0, false) == 0
  {}

  lemma DateTimeSlices(colType: int, dt: seq<int>, dTz: int)
    requires InWidth(dt) && colType in {DATETIME, DATETIME2, DATETIME_TZ}
    ensures var v := Layout(colType, dt, dTz);
      && |v| == Size(colType) && v[..3] == DatePart(dt)
      && (if IsWide(colType) then v[3..9] == TimePart(dt, true) else v[3..8] == TimePart(dt, false))
      && (colType == DATETIME_TZ ==> v[8..] == PutInt16(ZoneOf(dt, dTz)))
  {
    hide LE, PutInt16;
  }

  // DATETIME2_TZ: written with the zone at byte 8, read with the zone at byte 9.

  lemma {:induction false} NumberLEPlus(n: nat, k: nat, z: Byte)
    ensures Number(LE(n, k) + [z]) == n % Pow256(k) + Pow256(k) * z
  {
    var b := LE(n, k) + [z];
    if k == 0 {
      assert b == [z] && b[1..] == [];
    } else {
      NumberLEPlus(n / 256, k - 1, z);
      assert b[1..] == LE(n / 256, k - 1) + [z];
      assert b[0] == ToByte(n);
      hide LE, Pow256;
      ModStep(n, Pow256(k - 1));
      Nested(256, Pow256(k - 1), z, 0);
    }
  }

  lemma ModStep(n: nat, p: nat)
    requires p > 0
    ensures n % (256 * p) == n % 256 + 256 * (n / 256 % p)
  {
    var q, r := n / 256 / p, n / 256 % p;
    assert n / 256 == p * q + r;
    Nested(256, p, q, r);
    DivisionIs(n, 256 * p, q, 256 * r + n % 256);
  }

  lemma {:induction false} LETake(n: nat, k: nat, j: nat)
    requires j <= k
    ensures LE(n, k)[..j] == LE(n, j)
  {
    if j > 0 {
      LETake(n / 256, k - 1, j - 1);
    }
  }

  function LowZone(tz: int): Byte { ToByte(tz) }

  function HighZone(tz: int): Byte { ToByte(tz / 256) }

  lemma OverlapSlices(dt: seq<int>, dTz: int)
    requires InWidth(dt)
    ensures var v, tz := Layout(DATETIME2_TZ, dt, dTz), ZoneOf(dt, dTz);
      && |v| == 11 && v[..3] == DatePart(dt)
      && v[3..9] == TimePart(dt, true)[..5] + [LowZone(tz)]
      && v[9..] == [HighZone(tz), 0]
  {
    hide LE, ToByte;
  }

  /** The fraction's last seven bits come back as the low byte of the zone. */
  lemma OverlapTime(dt: seq<int>, z: Byte)
    requires InWidth(dt)
    ensures var n := Number(TimePart(dt, true)[..5] + [z]);
      && Clock(n) == (dt[OFFSET_HOUR], dt[OFFSET_MINUTE], dt[OFFSET_SECOND])
      && Nanos(n, true) == dt[OFFSET_NANOSECOND] % 0x80_0000 + z % 128 * 0x80_0000
  {
    var t := TimeNumber(dt[OFFSET_HOUR], dt[OFFSET_MINUTE], dt[OFFSET_SECOND], dt[OFFSET_NANOSECOND]);
    LETake(t, 6, 5);
    NumberLEPlus(t, 5, z);
    assert Pow256(2) == 0x1_0000;
    assert Pow256(4) == 0x1_0000_0000;
    assert Pow256(5) == 0x100_0000_0000;
    hide Pow256, LE, Number;
    OverlapNumber(dt[OFFSET_HOUR], dt[OFFSET_MINUTE], dt[OFFSET_SECOND], dt[OFFSET_NANOSECOND], z);
  }

  lemma OverlapNumber(hour: nat, min: nat, sec: nat, nanos: nat, z: nat)
    requires hour < 32 && min < 64 && sec < 64
    ensures var n := TimeNumber(hour, min, sec, nanos) % 0x100_0000_0000 + 0x100_0000_0000 * z;
      Clock(n) == (hour, min, sec) && Nanos(n, true) == nanos % 0x80_0000 + z % 128 * 0x80_0000
  {
    var low := nanos % 0x80_0000;
    var frac := low + 0x80_0000 * z;
    LowTime(hour, min, sec, nanos);
    TimeNumberFields(hour, min, sec, frac);
    assert TimeNumber(hour, min, sec, low) + 0x100_0000_0000 * z == TimeNumber(hour, min, sec, frac);
    hide TimeNumber;
    DivisionIs(frac, 0x4000_0000, z / 128, low + z % 128 * 0x80_0000);
  }

  lemma LowTime(hour: nat, min: nat, sec: nat, nanos: nat)
    requires hour < 32 && min < 64 && sec < 64
    ensures TimeNumber(hour, min, sec, nanos) % 0x100_0000_0000 == TimeNumber(hour, min, sec, nanos % 0x80_0000)
  {
    DivisionIs(TimeNumber(hour, min, sec, nanos), 0x100_0000_0000, nanos / 0x80_0000,
               TimeNumber(hour, min, sec, nanos % 0x80_0000));
  }

  lemma OverlapZone(v: seq<Byte>, tz: int)
    requires |v| == 11 && v[9..] == [HighZone(tz), 0] && FitsInt16(tz)
    ensures GetInt16(v, 9) == tz <==> tz == 0
  {
    assert v[9] == v[9..][0] && v[10] == v[9..][1];
    assert GetInt16(v, 9) == tz / 256 % 256;
  }

  /** What is read from an 11-byte value. */
  lemma UnpackedOverlap(v: seq<Byte>)
    requires |v| == 11
    ensures var d, t := Number(v[..3]), Number(v[3..9]);
      Unpacked(v) == [SignedYear(d % 0x8000), d / 0x8000 % 16, d / 0x8_0000 % 32,
                      Clock(t).0, Clock(t).1, Clock(t).2, Nanos(t, true), GetInt16(v, 9)]
  {
    hide Number, SignedYear, Clock, Nanos, GetInt16;
  }

  lemma FractionOverlap(nanos: nat, tz: int)
    requires nanos < 1_000_000_000
    ensures tz == 0 ==>
      (nanos % 0x80_0000 + LowZone(tz) % 128 * 0x80_0000 == nanos <==> nanos < 0x80_0000)
  {
    DivisionIs(nanos, 0x80_0000, nanos / 0x80_0000, nanos % 0x80_0000);
  }

  /** DATETIME2_TZ gives back what it keeps exactly when the zone is zero and the fraction
      fits in 23 bits. */
  lemma OverlapRoundTrip(dt: seq<int>, dTz: int)
    requires InWidth(dt) && -4712 <= dt[OFFSET_YEAR] <= 9999 && FitsInt16(ZoneOf(dt, dTz))
    ensures Unpacked(Layout(DATETIME2_TZ, dt, dTz)) == Kept(DATETIME2_TZ, dt, dTz)
      <==> (ZoneOf(dt, dTz) == 0 && dt[OFFSET_NANOSECOND] < 0x80_0000)
  {
    var v, tz, nanos := Layout(DATETIME2_TZ, dt, dTz), ZoneOf(dt, dTz), dt[OFFSET_NANOSECOND];
    DatePartRead(dt);
    hide DatePart, TimePart, Number, GetInt16, FitsInt16, SignedYear, Clock, Nanos, LE, Layout, LowZone, HighZone;
    OverlapSlices(dt, dTz);
    OverlapTime(dt, LowZone(tz));
    OverlapZone(v, tz);
    FractionOverlap(nanos, tz);
    UnpackedOverlap(v);
    hide Unpacked, ZoneOf;
    KeptOverlap(dt, dTz);
  }

  lemma KeptOverlap(dt: seq<int>, dTz: int)
    requires |dt| == DT_LEN
    ensures Kept(DATETIME2_TZ, dt, dTz) == dt[..OFFSET_TIMEZONE] + [ZoneOf(dt, dTz)]
  {
    hide ZoneOf;
  }

  /** When no zone shift applies the array packed is the caller's. */
  lemma NoShift(dt: seq<int>, local: bool, lTz: int, dTz: int)
    requires |dt| == DT_LEN && (dt[OFFSET_TIMEZONE] == INVALID_VALUE || 1 <= dt[OFFSET_MONTH] <= 12)
    requires !Shifts(dt[OFFSET_TIMEZONE], lTz) && (local ==> !Shifts(dt[OFFSET_TIMEZONE], dTz))
    ensures Shifted(dt, local, lTz, dTz) == dt
  {}
}
