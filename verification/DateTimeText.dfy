/**
 Date and time text (dm/h.go:226-350, 353-604): printing every type, parsing, and the round
 trip between them.
 */
module DateTimeText {
  import opened Bytes
  import opened Calendar
  import opened DateTimeCodec
  import opened Division
  import opened LittleEndian
  import opened Options
  import opened Sequences
  import opened Text

  const NANOSECOND_DIGITS: nat := 9

  // ---------- printing ----------

  /** `formatYear` */
  function FormatYear(value: int): string {
    if value >= 0 then
      if value < 10 then "000" + FormatInt(value)
      else if value < 100 then "00" + FormatInt(value)
      else if value < 1000 then "0" + FormatInt(value)
      else FormatInt(value)
    else
      if value > -10 then "-000" + FormatInt(-value)
      else if value > -100 then "-00" + FormatInt(-value)
      else if value > -1000 then "-0" + FormatInt(-value)
      else FormatInt(value)
  }

  /** `format2` */
  function Format2(value: int): string {
    if value < 10 then "0" + FormatInt(value) else FormatInt(value)
  }

  function Nine(ms: int): string {
    if ms < 10 then "00000000" + FormatInt(ms)
    else if ms < 100 then "0000000" + FormatInt(ms)
    else if ms < 1000 then "000000" + FormatInt(ms)
    else if ms < 10000 then "00000" + FormatInt(ms)
    else if ms < 100000 then "0000" + FormatInt(ms)
    else if ms < 1000000 then "000" + FormatInt(ms)
    else if ms < 10000000 then "00" + FormatInt(ms)
    else if ms < 100000000 then "0" + FormatInt(ms)
    else FormatInt(ms)
  }

  /** `formatMilliSecond`, which is given nanoseconds. */
  function FormatMilliSecond(ms: int, prec: nat): string
    requires 0 <= ms
  {
    NineLength(ms);
    if prec < NANOSECOND_DIGITS then Nine(ms)[..prec] else Nine(ms)
  }

  /** `formatTZ` */
  function FormatTZ(tz: int): string {
    var hour, min := Abs(TruncDiv(tz, 60)), Abs(TruncMod(tz, 60));
    (if tz >= 0 then "+" else "-") + Format2(hour) + ":" + Format2(min)
  }

  function DateText(dt: seq<int>): string
    requires |dt| == DT_LEN
  {
    FormatYear(dt[OFFSET_YEAR]) + "-" + Format2(dt[OFFSET_MONTH]) + "-" + Format2(dt[OFFSET_DAY])
  }

  function ClockText(dt: seq<int>): string
    requires |dt| == DT_LEN
  {
    Format2(dt[OFFSET_HOUR]) + ":" + Format2(dt[OFFSET_MINUTE]) + ":" + Format2(dt[OFFSET_SECOND])
  }

  function TimeText(dt: seq<int>, scale: int): string
    requires |dt| == DT_LEN && 0 <= dt[OFFSET_NANOSECOND]
  {
    if scale > 0 then ClockText(dt) + "." + FormatMilliSecond(dt[OFFSET_NANOSECOND], scale) else ClockText(dt)
  }

  /** `dtToString` */
  function Printed(dt: seq<int>, dtype: int, scale: int): string
    requires |dt| == DT_LEN && 0 <= dt[OFFSET_NANOSECOND]
  {
    if dtype == DATE then DateText(dt)
    else if dtype == TIME then TimeText(dt, scale)
    else if dtype == TIME_TZ then TimeText(dt, scale) + " " + FormatTZ(dt[OFFSET_TIMEZONE])
    else if dtype == DATETIME || dtype == DATETIME2 then DateText(dt) + " " + TimeText(dt, scale)
    else if dtype == DATETIME_TZ || dtype == DATETIME2_TZ then
      DateText(dt) + " " + TimeText(dt, scale) + " " + FormatTZ(dt[OFFSET_TIMEZONE])
    else ""
  }

  /** Widths of the printed fields. */
  lemma DigitCount(n: nat, k: nat)
    requires k >= 1 && (k == 1 || n >= Pow10(k - 1)) && n < Pow10(k)
    ensures |Itoa(n)| == k
  {
    ItoaDenotes(n);
    ItoaLength(n, k);
    if k > 1 {
      ItoaLength(n, k - 1);
    }
  }

  lemma Tens()
    ensures Pow10(1) == 10 && Pow10(2) == 100 && Pow10(3) == 1000 && Pow10(4) == 10000
    ensures Pow10(5) == 100000 && Pow10(6) == 1000000 && Pow10(7) == 10000000
    ensures Pow10(8) == 100000000 && Pow10(9) == 1000000000
  {
    assert Pow10(3) == 1000;
    assert Pow10(6) == 1000000;
  }

  lemma Format2Is(v: nat)
    requires v < 100
    ensures Format2(v) == Padded(Itoa(v), 2) && |Format2(v)| == 2
  {
    Tens();
    DigitCount(v, if v < 10 then 1 else 2);
    assert Zeros(1) == "0";
    hide Itoa, Pow10;
  }

  lemma FormatYearIs(v: int)
    requires -9999 <= v <= 9999
    ensures FormatYear(v) == (if v < 0 then "-" else "") + Padded(Itoa(Abs(v)), 4)
  {
    var n := Abs(v);
    Tens();
    DigitCount(n, if n < 10 then 1 else if n < 100 then 2 else if n < 1000 then 3 else 4);
    assert Zeros(1) == "0" && Zeros(2) == "00" && Zeros(3) == "000";
    hide Itoa, Pow10;
    assert "-" + ("000" + Itoa(n)) == "-000" + Itoa(n) && "-" + ("00" + Itoa(n)) == "-00" + Itoa(n);
    assert "-" + ("0" + Itoa(n)) == "-0" + Itoa(n);
  }

  function NanoDigits(ms: nat): nat {
    if ms < 10 then 1 else if ms < 100 then 2 else if ms < 1000 then 3 else if ms < 10000 then 4
    else if ms < 100000 then 5 else if ms < 1000000 then 6 else if ms < 10000000 then 7
    else if ms < 100000000 then 8 else 9
  }

  lemma NineLength(ms: nat)
    ensures |Nine(ms)| >= 9
    ensures ms < 1_000_000_000 ==> Nine(ms) == Padded(Itoa(ms), 9) && |Nine(ms)| == 9
  {
    var k := NanoDigits(ms);
    Tens();
    if ms < 1_000_000_000 {
      DigitCount(ms, k);
      SomeZeros();
    } else {
      ItoaLength(ms, 9);
      ItoaLength(ms, 8);
    }
    hide Itoa, Pow10, Zeros;
  }

  lemma SomeZeros()
    ensures Zeros(1) == "0" && Zeros(2) == "00" && Zeros(3) == "000" && Zeros(4) == "0000"
    ensures Zeros(5) == "00000" && Zeros(6) == "000000" && Zeros(7) == "0000000" && Zeros(8) == "00000000"
  {}

  // ---------- parsing ----------

  /** The space-separated parts of a text, after trimming and taking a leading '-' off. */
  datatype Parts = Parts(kind: int, date: string, time: string, zone: string)

  function Divide(s: string): Option<Parts> {
    var comps := Split(s, ' ');
    if |comps| == 3 then Some(Parts(DATETIME_TZ, comps[0], comps[1], comps[2]))
    else if |comps| == 2 then
      if Index(comps[0], ":") > 0 then Some(Parts(TIME_TZ, "", comps[0], comps[1]))
      else Some(Parts(DATETIME, comps[0], comps[1], ""))
    else if |comps| == 1 then
      if Index(comps[0], ":") > 0 then Some(Parts(TIME, "", comps[0], ""))
      else Some(Parts(DATE, comps[0], "", ""))
    else None
  }

  /** Positions of the first two separators: the first is looked for in `where`, the second
      in the date after it and relative to it. None if the slice is out of range. */
  function Separators(where: string, date: string, sep: string): Option<(int, int)> {
    var first := Index(where, sep);
    if first + 1 > |date| then None else Some((first, Index(date[first + 1..], sep)))
  }

  /** '-', then '.', then '/' as separator; the fallbacks search the whole text first. */
  function DateSeparators(date: string, s: string): Option<(int, int)> {
    match Separators(date, date, "-")
    case None => None
    case Some((f, g)) =>
      if f >= 0 && g >= 0 then Some((f, g))
      else
        match Separators(s, date, ".")
        case None => None
        case Some((f, g)) => if f >= 0 && g >= 0 then Some((f, g)) else Separators(s, date, "/")
  }

  /** The date part; None for every error. */
  function ReadDate(date: string, s: string, negative: bool): Option<(int, int, int)> {
    match DateSeparators(date, s)
    case None => None
    case Some((first, relative)) =>
      var second := relative + first + 1;
      if first > 0 && relative > 0 && second < |date| - 1 then
        match (ParseInt(date[..first], INT32_MAX), ParseInt(date[first + 1..second], INT32_MAX),
               ParseInt(date[second + 1..], INT32_MAX))
        case (Some(y), Some(m), Some(d)) =>
          var year := if negative then 0 - y else y;
          if CheckDate(year, m, d) then Some((year, m, d)) else None
        case _ => None
      else None
  }

  /** The seconds of the time part, with their fraction if a point follows. */
  function ReadSeconds(text: string, period: int): Option<(int, int)>
    requires period < |text|
  {
    if period > 0 then
      if period == |text| - 1 then None
      else
        var nanos := text[period + 1..];
        if |nanos| > NANOSECOND_DIGITS || !IsDigit(nanos[0]) then None
        else
          match (ParseInt(text[..period], INT32_MAX),
                 ParseInt(nanos + Zeros(NANOSECOND_DIGITS - |nanos|), INT32_MAX))
          case (Some(second), Some(n)) => Some((second, n))
          case _ => None
    else
      match ParseInt(text, INT32_MAX)
      case None => None
      case Some(second) => Some((second, 0))
  }

  /** The time part; None for every error. */
  function ReadTime(time: string): Option<(int, int, int, int)> {
    var first := Index(time, ":");
    var relative := Index(time[first + 1..], ":");
    var second := relative + first + 1;
    if first > 0 && relative > 0 && second < |time| - 1 then
      var rest := time[second + 1..];
      match (ParseInt(time[..first], INT32_MAX), ParseInt(time[first + 1..second], INT32_MAX),
             ReadSeconds(rest, Index(rest, ".")))
      case (Some(hour), Some(minute), Some((sec, nanos))) =>
        if 0 <= hour < 24 && 0 <= minute < 60 && 0 <= sec < 60 then Some((hour, minute, sec, nanos)) else None
      case _ => None
    else None
  }

  /** The hours and minutes of a zone, in 16-bit arithmetic. */
  function ZoneMinutes(zone: string): Option<int> {
    var hm := Split(zone, ':');
    if |hm| == 2 then
      match (ParseInt(TrimSpace(hm[0]), INT16_MAX), ParseInt(TrimSpace(hm[1]), INT16_MAX))
      case (Some(h), Some(m)) => Some(Int16(h * 60 + m))
      case _ => None
    else if |hm| == 1 then
      match ParseInt(TrimSpace(hm[0]), INT16_MAX)
      case Some(h) => Some(Int16(h * 60))
      case None => None
    else None
  }

  predicate ZoneOk(tz: int) { -13 * 60 < tz <= 14 * 60 }

  /** The zone part; None for every error. */
  function ReadZone(zone: string): Option<int> {
    var negative, signed := Index(zone, "-") == 0, Index(zone, "-") == 0 || Index(zone, "+") == 0;
    match ZoneMinutes(if signed then TrimSpace(zone[1..]) else zone)
    case None => None
    case Some(tz) =>
      if tz < 0 then None
      else
        var own := if negative then -tz else tz;
        if ZoneOk(own) then Some(own) else None
  }

  /** `toDTFromString`: the type found and the eight fields, or None for any error. */
  function Parsed(text: string): Option<(int, seq<int>)> {
    var trimmed := TrimSpace(text);
    if text != "" && trimmed == "" then None
    else
      var negative := Index(trimmed, "-") == 0;
      ParsedBody(if negative then TrimSpace(trimmed[1..]) else trimmed, negative)
  }

  // A part that is missing has its default.

  function DateOf(p: Parts, s: string, negative: bool): Option<(int, int, int)> {
    if p.date == "" then Some((1900, 1, 1)) else ReadDate(p.date, s, negative)
  }

  function TimeOf(p: Parts): Option<(int, int, int, int)> {
    if p.time == "" then Some((0, 0, 0, 0)) else ReadTime(p.time)
  }

  function ZoneOfParts(p: Parts): Option<int> {
    if p.zone == "" then Some(INVALID_VALUE) else ReadZone(p.zone)
  }

  function ParsedBody(s: string, negative: bool): Option<(int, seq<int>)> {
    match Divide(s)
    case None => None
    case Some(p) =>
      match (DateOf(p, s, negative), TimeOf(p), ZoneOfParts(p))
      case (Some((y, m, d)), Some((hh, mm, ss, n)), Some(tz)) => Some((p.kind, [y, m, d, hh, mm, ss, n, tz]))
      case _ => None
  }

  /** The array is written only when the whole text is well formed. */
  method ToDTFromString(text: string, dt: array<int>) returns (dtype: Option<int>)
    requires IsDT(dt)
    modifies dt
    ensures Parsed(text).Some? ==> dtype == Some(Parsed(text).value.0) && dt[..] == Parsed(text).value.1
    ensures Parsed(text).None? ==> dtype == None && dt[..] == old(dt[..])
  {
    hide Divide, ReadDate, ReadTime, ReadZone, TrimSpace, Index;
    if text != "" && TrimSpace(text) == "" {
      return None;
    }
    var s, sign := TrimSpace(text), 0;
    if Index(s, "-") == 0 {
      s := TrimSpace(s[1..]);
      sign := 1;
    }
    var parts := Divide(s);
    if parts.None? {
      return None;
    }
    var date, time, zone := (1900, 1, 1), (0, 0, 0, 0), INVALID_VALUE;
    if parts.value.date != "" {
      var d := ReadDate(parts.value.date, s, sign == 1);
      if d.None? {
        return None;
      }
      date := d.value;
    }
    if parts.value.time != "" {
      var t := ReadTime(parts.value.time);
      if t.None? {
        return None;
      }
      time := t.value;
    }
    if parts.value.zone != "" {
      var z := ReadZone(parts.value.zone);
      if z.None? {
        return None;
      }
      zone := z.value;
    }
    dt[OFFSET_YEAR], dt[OFFSET_MONTH], dt[OFFSET_DAY] := date.0, date.1, date.2;
    dt[OFFSET_HOUR], dt[OFFSET_MINUTE], dt[OFFSET_SECOND] := time.0, time.1, time.2;
    dt[OFFSET_NANOSECOND], dt[OFFSET_TIMEZONE] := time.3, zone;
    dtype := Some(parts.value.kind);
  }

  // ---------- parsing what was printed ----------

  /** A numeral the parser reads as n. */
  ghost predicate Numeral(s: string, n: int) {
    s != "" && AllDigits(s) && NatVal(s) == n && n <= INT32_MAX
  }

  lemma NumeralRead(s: string, n: int)
    requires Numeral(s, n)
    ensures ParseInt(s, INT32_MAX) == Some(n)
    ensures n <= INT16_MAX ==> ParseInt(s, INT16_MAX) == Some(n)
    ensures TrimSpace(s) == s
  {
    ParseDigits(s, INT32_MAX);
    if n <= INT16_MAX {
      ParseDigits(s, INT16_MAX);
    }
    TrimNothing(s);
  }

  function DateBody(y: string, m: string, d: string): string { y + "-" + m + "-" + d }

  lemma DateRead(y: string, m: string, d: string, year: nat, month: nat, day: nat, s: string, negative: bool)
    requires Numeral(y, year) && Numeral(m, month) && Numeral(d, day)
    ensures var signed := if negative then 0 - year else year;
      ReadDate(DateBody(y, m, d), s, negative) ==
        if CheckDate(signed, month, day) then Some((signed, month, day)) else None
  {
    hide *;
    DateAt(y, m, d, year, month, day);
    SeparatorsAt(DateBody(y, m, d), s, |y|, |m|);
    NumeralRead(y, year);
    NumeralRead(m, month);
    NumeralRead(d, day);
    DateFields(DateBody(y, m, d), s, negative, |y|, |m|, year, month, day);
  }

  lemma DateFields(date: string, s: string, negative: bool, first: nat, relative: nat, year: int, month: int, day: int)
    requires DateSeparators(date, s) == Some((first, relative))
    requires 0 < first && 0 < relative && first + relative + 2 < |date|
    requires ParseInt(date[..first], INT32_MAX) == Some(year)
    requires ParseInt(date[first + 1..first + 1 + relative], INT32_MAX) == Some(month)
    requires ParseInt(date[first + relative + 2..], INT32_MAX) == Some(day)
    ensures var signed := if negative then 0 - year else year;
      ReadDate(date, s, negative) == if CheckDate(signed, month, day) then Some((signed, month, day)) else None
  {
    hide CheckDate, ParseInt, DateSeparators;
  }

  lemma SeparatorsAt(date: string, s: string, first: nat, second: nat)
    requires Index(date, "-") == first < |date| && Index(date[first + 1..], "-") == second
    ensures DateSeparators(date, s) == Some((first, second))
  {
    hide Index;
  }

  /** Where the dashes of a date stand, and what is around them. */
  lemma DateAt(y: string, m: string, d: string, year: nat, month: nat, day: nat)
    requires Numeral(y, year) && Numeral(m, month) && Numeral(d, day)
    ensures var date := DateBody(y, m, d);
      && |date| == |y| + |m| + |d| + 2 && |d| > 0 && |y| > 0 && |m| > 0
      && Index(date, "-") == |y| && Index(date[|y| + 1..], "-") == |m|
      && date[..|y|] == y && date[|y| + 1..|y| + 1 + |m|] == m && date[|y| + |m| + 2..] == d
  {
    hide NatVal, Index;
    var date := DateBody(y, m, d);
    assert date[..|y|] == y;
    CharIndexIs(date, '-', |y|);
    var after := date[|y| + 1..];
    assert after == m + "-" + d;
    assert after[..|m|] == m;
    CharIndexIs(after, '-', |m|);
  }

  lemma TimeRead(h: string, m: string, rest: string, hour: nat, minute: nat)
    requires Numeral(h, hour) && Numeral(m, minute) && hour < 24 && minute < 60 && rest != ""
    ensures ReadTime(h + ":" + m + ":" + rest) ==
      match ReadSeconds(rest, Index(rest, "."))
      case None => None
      case Some((sec, nanos)) => if 0 <= sec < 60 then Some((hour, minute, sec, nanos)) else None
  {
    var time := h + ":" + m + ":" + rest;
    hide NatVal, ParseInt, TrimSpace, ReadSeconds;
    assert time[..|h|] == h;
    CharIndexIs(time, ':', |h|);
    var after := time[|h| + 1..];
    assert after == m + ":" + rest;
    assert after[..|m|] == m;
    CharIndexIs(after, ':', |m|);
    hide Index;
    assert time[|h| + 1..|h| + 1 + |m|] == m && time[|h| + |m| + 2..] == rest;
    NumeralRead(h, hour);
    NumeralRead(m, minute);
  }

  lemma WholeSeconds(s: string, sec: nat)
    requires Numeral(s, sec)
    ensures ReadSeconds(s, Index(s, ".")) == Some((sec, 0))
  {
    hide ParseInt;
    CharAbsent(s, '.');
    NumeralRead(s, sec);
  }

  lemma FractionSeconds(s: string, sec: nat, f: string)
    requires Numeral(s, sec) && AllDigits(f) && 1 <= |f| <= 9
    ensures var rest := s + "." + f;
      ReadSeconds(rest, Index(rest, ".")) == Some((sec, NatVal(f) * Pow10(9 - |f|)))
  {
    var rest := s + "." + f;
    PointAt(s, f);
    NumeralRead(s, sec);
    NanosPadded(f);
    hide ParseInt, Index, Pow10, NatVal, Zeros, Numeral;
  }

  lemma PointAt(s: string, f: string)
    requires AllDigits(s)
    ensures var rest := s + "." + f; Index(rest, ".") == |s| && rest[..|s|] == s && rest[|s| + 1..] == f
  {
    var rest := s + "." + f;
    assert rest[..|s|] == s && rest[|s| + 1..] == f;
    CharIndexIs(rest, '.', |s|);
  }

  lemma NanosPadded(f: string)
    requires AllDigits(f) && 1 <= |f| <= 9
    ensures ParseInt(f + Zeros(9 - |f|), INT32_MAX) == Some(NatVal(f) * Pow10(9 - |f|))
  {
    hide NatVal, Pow10, ParseInt;
    var z := Zeros(9 - |f|);
    NatValAppend(f, z);
    NatValZeros(9 - |f|);
    NatValBound(f + z);
    assert Pow10(9) == 1_000_000_000 by { Tens(); }
    ParseDigits(f + z, INT32_MAX);
  }

  /** The fraction that `scale` printed digits stand for. */
  function CutNanos(n: nat, scale: int): int {
    if scale <= 0 then 0 else if scale >= 9 then n else n / Pow10(9 - scale) * Pow10(9 - scale)
  }

  lemma FractionText(n: nat, scale: nat)
    requires n < 1_000_000_000 && scale >= 1
    ensures var f := FormatMilliSecond(n, scale);
      AllDigits(f) && 1 <= |f| <= 9 && NatVal(f) * Pow10(9 - |f|) == CutNanos(n, scale)
  {
    hide Nine, NatVal, Padded, Pow10;
    NineLength(n);
    PaddedDigits(n, 9);
    if scale < 9 {
      LeadingDigits(Nine(n), n, scale);
    } else {
      assert Pow10(0) == 1 by { PowZero(); }
    }
  }

  lemma PowZero()
    ensures Pow10(0) == 1
  {}

  /** The first k of nine digits. */
  lemma FirstDigits(nine: string, n: nat, k: nat)
    requires AllDigits(nine) && |nine| == 9 && NatVal(nine) == n && 1 <= k < 9
    ensures AllDigits(nine[..k]) && NatVal(nine[..k]) == n / Pow10(9 - k)
  {
    hide NatVal, Pow10;
    var f, rest := nine[..k], nine[k..];
    assert nine == f + rest;
    NatValAppend(f, rest);
    NatValBound(rest);
    DivisionIs(n, Pow10(9 - k), NatVal(f), NatVal(rest));
  }

  lemma LeadingDigits(nine: string, n: nat, k: nat)
    requires AllDigits(nine) && |nine| == 9 && NatVal(nine) == n && 1 <= k < 9
    ensures AllDigits(nine[..k]) && NatVal(nine[..k]) * Pow10(9 - k) == CutNanos(n, k)
  {
    hide NatVal, Pow10;
    FirstDigits(nine, n, k);
  }

  lemma Format2Numeral(v: nat)
    requires v < 100
    ensures Numeral(Format2(v), v) && |Format2(v)| == 2
  {
    Format2Is(v);
    PaddedDigits(v, 2);
  }

  /** The fields a type prints are valid. */
  ghost predicate ValidFor(dt: seq<int>, dtype: int) {
    && |dt| == DT_LEN && 0 <= dt[OFFSET_NANOSECOND] < 1_000_000_000
    && (HasDate(dtype) ==> CheckDate(dt[OFFSET_YEAR], dt[OFFSET_MONTH], dt[OFFSET_DAY]))
    && (HasTime(dtype) ==> 0 <= dt[OFFSET_HOUR] < 24 && 0 <= dt[OFFSET_MINUTE] < 60 && 0 <= dt[OFFSET_SECOND] < 60)
    && (HasZone(dtype) ==> ZoneOk(dt[OFFSET_TIMEZONE]))
  }

  lemma ClockRead(dt: seq<int>, rest: string, sec: nat, nanos: int)
    requires |dt| == DT_LEN && 0 <= dt[OFFSET_HOUR] < 24 && 0 <= dt[OFFSET_MINUTE] < 60 && sec < 60
    requires rest != "" && ReadSeconds(rest, Index(rest, ".")) == Some((sec, nanos))
    ensures ReadTime(Format2(dt[OFFSET_HOUR]) + ":" + Format2(dt[OFFSET_MINUTE]) + ":" + rest)
      == Some((dt[OFFSET_HOUR], dt[OFFSET_MINUTE], sec, nanos))
  {
    Format2Numeral(dt[OFFSET_HOUR]);
    Format2Numeral(dt[OFFSET_MINUTE]);
    hide Format2, ReadTime, ReadSeconds, Index, Numeral;
    TimeRead(Format2(dt[OFFSET_HOUR]), Format2(dt[OFFSET_MINUTE]), rest, dt[OFFSET_HOUR], dt[OFFSET_MINUTE]);
  }

  lemma TimeTextRead(dt: seq<int>, scale: int)
    requires ValidFor(dt, TIME)
    ensures ReadTime(TimeText(dt, scale))
      == Some((dt[OFFSET_HOUR], dt[OFFSET_MINUTE], dt[OFFSET_SECOND], CutNanos(dt[OFFSET_NANOSECOND], scale)))
  {
    var h, m, s := Format2(dt[OFFSET_HOUR]), Format2(dt[OFFSET_MINUTE]), Format2(dt[OFFSET_SECOND]);
    Format2Numeral(dt[OFFSET_SECOND]);
    hide Format2, ReadTime, ReadSeconds, Index;
    if scale > 0 {
      var f := FormatMilliSecond(dt[OFFSET_NANOSECOND], scale);
      FractionText(dt[OFFSET_NANOSECOND], scale);
      FractionSeconds(s, dt[OFFSET_SECOND], f);
      hide FormatMilliSecond, CutNanos, NatVal, Pow10, Numeral, AllDigits;
      ClockRead(dt, s + "." + f, dt[OFFSET_SECOND], CutNanos(dt[OFFSET_NANOSECOND], scale));
      Regroup4(h + ":" + m + ":", s, ".", f);
    } else {
      WholeSeconds(s, dt[OFFSET_SECOND]);
      ClockRead(dt, s, dt[OFFSET_SECOND], 0);
    }
  }

  lemma ZoneTextRead(tz: int)
    requires -780 < tz <= 840
    ensures ReadZone(FormatTZ(tz)) == Some(tz)
  {
    var n := Abs(tz);
    hide Numeral, FormatTZ, ReadZone, TrimSpace, ZoneMinutes, Format2;
    Format2Numeral(n / 60);
    Format2Numeral(n % 60);
    ZoneShape(tz);
    var body := Format2(n / 60) + ":" + Format2(n % 60);
    ZoneBodyRead(Format2(n / 60), Format2(n % 60), n / 60, n % 60);
    assert n / 60 * 60 + n % 60 == n;
    if tz >= 0 {
      SignedZoneRead('+', body, n);
    } else {
      SignedZoneRead('-', body, n);
    }
  }

  lemma SignedZoneRead(sign: char, body: string, v: nat)
    requires sign in {'+', '-'} && TrimSpace(body) == body && ZoneMinutes(body) == Some(v)
    requires ZoneOk(if sign == '-' then 0 - v else v)
    ensures ReadZone([sign] + body) == Some(if sign == '-' then 0 - v else v)
  {
    hide Index, TrimSpace, ZoneMinutes, ZoneOk;
    SignedZone(sign, body);
    var z := [sign] + body;
    assert TrimSpace(z[1..]) == body;
  }

  lemma ZoneShape(tz: int)
    ensures FormatTZ(tz)
      == [if tz >= 0 then '+' else '-'] + (Format2(Abs(tz) / 60) + ":" + Format2(Abs(tz) % 60))
  {
    assert Abs(TruncDiv(tz, 60)) == Abs(tz) / 60 && Abs(TruncMod(tz, 60)) == Abs(tz) % 60;
    hide TruncDiv, TruncMod, Format2;
    Regroup4(if tz >= 0 then "+" else "-", Format2(Abs(tz) / 60), ":", Format2(Abs(tz) % 60));
  }

  lemma SignedZone(sign: char, body: string)
    requires sign in {'+', '-'}
    ensures var z := [sign] + body;
      z[1..] == body && (Index(z, "-") == 0 <==> sign == '-') && (Index(z, "+") == 0 <==> sign == '+')
  {
    SignFirst([sign] + body, '-');
    SignFirst([sign] + body, '+');
  }

  lemma SignFirst(s: string, c: char)
    requires s != ""
    ensures Index(s, [c]) == 0 <==> s[0] == c
  {
    CharOccurs(s, c, 0);
  }

  lemma ZoneBodyRead(h: string, m: string, hour: nat, min: nat)
    requires Numeral(h, hour) && Numeral(m, min) && hour <= 14 && min < 60
    ensures TrimSpace(h + ":" + m) == h + ":" + m
    ensures ZoneMinutes(h + ":" + m) == Some(hour * 60 + min)
  {
    ZoneDivides(h, m, hour, min);
    NumeralRead(h, hour);
    NumeralRead(m, min);
    hide Split, TrimSpace, ParseInt, Numeral;
  }

  lemma ZoneDivides(h: string, m: string, hour: nat, min: nat)
    requires Numeral(h, hour) && Numeral(m, min)
    ensures TrimSpace(h + ":" + m) == h + ":" + m && Split(h + ":" + m, ':') == [h, m]
  {
    hide Split, TrimSpace, NatVal;
    var z := h + ":" + m;
    assert z[0] == h[0] && z[|z| - 1] == m[|m| - 1];
    TrimNothing(z);
    SplitFirst(h, ':', m);
    SplitAbsent(m, ':');
    assert [h] + [m] == [h, m];
  }

  // The whole text.

  lemma DivideOne(a: string)
    requires ' ' !in a
    ensures Divide(a) == Some(if Index(a, ":") > 0 then Parts(TIME, "", a, "") else Parts(DATE, a, "", ""))
  {
    SplitAbsent(a, ' ');
  }

  lemma DivideTwo(a: string, b: string)
    requires ' ' !in a && ' ' !in b
    ensures Divide(a + " " + b)
      == Some(if Index(a, ":") > 0 then Parts(TIME_TZ, "", a, b) else Parts(DATETIME, a, b, ""))
  {
    SplitFirst(a, ' ', b);
    SplitAbsent(b, ' ');
    hide Split, Index;
  }

  lemma DivideThree(a: string, b: string, c: string)
    requires ' ' !in a && ' ' !in b && ' ' !in c
    ensures Divide(a + " " + b + " " + c) == Some(Parts(DATETIME_TZ, a, b, c))
  {
    hide Split, Index;
    Regroup4(a + " ", b, " ", c);
    SplitFirst(a, ' ', b + " " + c);
    SplitFirst(b, ' ', c);
    SplitAbsent(c, ' ');
    assert Split(a + " " + b + " " + c, ' ') == [a] + ([b] + [c]);
  }

  predicate Ends(s: string) { s != "" && IsDigit(s[0]) && IsDigit(s[|s| - 1]) }

  /** Trimming finds nothing to do, and a leading '-' is taken off. */
  lemma SignedText(body: string, negative: bool)
    requires Ends(body)
    ensures var text := (if negative then "-" else "") + body;
      && text != "" && TrimSpace(text) == text && (Index(text, "-") == 0 <==> negative)
      && (if negative then TrimSpace(text[1..]) == body else text == body)
  {
    var text := (if negative then "-" else "") + body;
    SignFirst(text, '-');
    TrimNothing(text);
    TrimNothing(body);
    hide TrimSpace, Index;
    assert negative ==> text[1..] == body;
  }

  /** The printed date without its sign. */
  function UnsignedDate(dt: seq<int>): string
    requires |dt| == DT_LEN
  {
    DateBody(Padded(Itoa(Abs(dt[OFFSET_YEAR])), 4), Format2(dt[OFFSET_MONTH]), Format2(dt[OFFSET_DAY]))
  }

  function Sign(dt: seq<int>): string
    requires |dt| == DT_LEN
  {
    if dt[OFFSET_YEAR] < 0 then "-" else ""
  }

  lemma DateShape(dt: seq<int>)
    requires |dt| == DT_LEN && CheckDate(dt[OFFSET_YEAR], dt[OFFSET_MONTH], dt[OFFSET_DAY])
    ensures DateText(dt) == Sign(dt) + UnsignedDate(dt)
  {
    FormatYearIs(dt[OFFSET_YEAR]);
    hide FormatYear, Format2, Itoa, Padded, CheckDate;
    var y := Padded(Itoa(Abs(dt[OFFSET_YEAR])), 4);
    Regroup4(Sign(dt), y, "-", Format2(dt[OFFSET_MONTH]));
    Regroup4(Sign(dt), y + "-" + Format2(dt[OFFSET_MONTH]), "-", Format2(dt[OFFSET_DAY]));
  }

  predicate DateChars(s: string) { Ends(s) && forall i :: 0 <= i < |s| ==> IsDigit(s[i]) || s[i] == '-' }

  lemma DateParts(dt: seq<int>)
    requires |dt| == DT_LEN && CheckDate(dt[OFFSET_YEAR], dt[OFFSET_MONTH], dt[OFFSET_DAY])
    ensures DateChars(UnsignedDate(dt))
  {
    PaddedDigits(Abs(dt[OFFSET_YEAR]), 4);
    Format2Numeral(dt[OFFSET_MONTH]);
    Format2Numeral(dt[OFFSET_DAY]);
    hide Itoa, Padded, Format2, NatVal, CheckDate;
  }

  lemma DatePartsRead(dt: seq<int>, s: string)
    requires |dt| == DT_LEN && CheckDate(dt[OFFSET_YEAR], dt[OFFSET_MONTH], dt[OFFSET_DAY])
    ensures ReadDate(UnsignedDate(dt), s, dt[OFFSET_YEAR] < 0)
      == Some((dt[OFFSET_YEAR], dt[OFFSET_MONTH], dt[OFFSET_DAY]))
  {
    hide Itoa, Padded, Format2, ReadDate, NatVal, DateBody, Numeral;
    YearNumeral(Abs(dt[OFFSET_YEAR]));
    Format2Numeral(dt[OFFSET_MONTH]);
    Format2Numeral(dt[OFFSET_DAY]);
    DateRead(Padded(Itoa(Abs(dt[OFFSET_YEAR])), 4), Format2(dt[OFFSET_MONTH]), Format2(dt[OFFSET_DAY]),
             Abs(dt[OFFSET_YEAR]), dt[OFFSET_MONTH], dt[OFFSET_DAY], s, dt[OFFSET_YEAR] < 0);
  }

  lemma YearNumeral(year: nat)
    requires year <= 9999
    ensures Numeral(Padded(Itoa(year), 4), year)
  {
    hide NatVal, Itoa, Padded;
    PaddedDigits(year, 4);
  }

  predicate TimeChars(s: string) {
    Ends(s) && |s| > 2 && s[2] == ':' && IsDigit(s[1])
    && forall i :: 0 <= i < |s| ==> IsDigit(s[i]) || s[i] == ':' || s[i] == '.'
  }

  lemma TimeParts(dt: seq<int>, scale: int)
    requires ValidFor(dt, TIME)
    ensures TimeChars(TimeText(dt, scale))
  {
    hide Format2, NatVal, TimeChars, FormatMilliSecond, CutNanos, Pow10;
    Format2Numeral(dt[OFFSET_HOUR]);
    Format2Numeral(dt[OFFSET_MINUTE]);
    Format2Numeral(dt[OFFSET_SECOND]);
    var h, m, s := Format2(dt[OFFSET_HOUR]), Format2(dt[OFFSET_MINUTE]), Format2(dt[OFFSET_SECOND]);
    ClockChars(h, m, s);
    if scale > 0 {
      FractionText(dt[OFFSET_NANOSECOND], scale);
      PointChars(h + ":" + m + ":" + s, FormatMilliSecond(dt[OFFSET_NANOSECOND], scale));
    }
  }

  lemma ClockChars(h: string, m: string, s: string)
    requires AllDigits(h) && AllDigits(m) && AllDigits(s) && |h| == |m| == |s| == 2
    ensures TimeChars(h + ":" + m + ":" + s)
  {}

  lemma PointChars(t: string, f: string)
    requires TimeChars(t) && AllDigits(f) && f != ""
    ensures TimeChars(t + "." + f)
  {}

  lemma ZoneChars(tz: int)
    requires ZoneOk(tz)
    ensures ' ' !in FormatTZ(tz) && FormatTZ(tz) != "" && IsDigit(FormatTZ(tz)[|FormatTZ(tz)| - 1])
  {
    ZoneShape(tz);
    Format2Numeral(Abs(tz) / 60);
    Format2Numeral(Abs(tz) % 60);
    hide FormatTZ, Format2, NatVal;
  }

  lemma NoSpace(s: string)
    requires DateChars(s) || TimeChars(s)
    ensures ' ' !in s
  {}

  lemma ColonPlace(s: string)
    ensures TimeChars(s) ==> Index(s, ":") > 0
    ensures DateChars(s) ==> Index(s, ":") == -1
  {
    if TimeChars(s) {
      assert ':' !in s[..2];
      CharIndexIs(s, ':', 2);
    } else if DateChars(s) {
      CharAbsent(s, ':');
    }
  }

  /** The type the parser reports: it does not know the nanosecond types. */
  function TextType(dtype: int): int {
    if dtype == DATETIME2 then DATETIME else if dtype == DATETIME2_TZ then DATETIME_TZ else dtype
  }

  /** What comes back: the fields of the type, the fraction cut to the printed digits. */
  function ReadBack(dt: seq<int>, dtype: int, scale: int): seq<int>
    requires |dt| == DT_LEN && 0 <= dt[OFFSET_NANOSECOND]
  {
    (if HasDate(dtype) then dt[OFFSET_YEAR..OFFSET_HOUR] else [1900, 1, 1])
    + (if HasTime(dtype) then dt[OFFSET_HOUR..OFFSET_NANOSECOND] + [CutNanos(dt[OFFSET_NANOSECOND], scale)] else [0, 0, 0, 0])
    + [if HasZone(dtype) then dt[OFFSET_TIMEZONE] else INVALID_VALUE]
  }

  /** The printed text without the sign of the year. */
  function Body(dt: seq<int>, dtype: int, scale: int): string
    requires |dt| == DT_LEN && 0 <= dt[OFFSET_NANOSECOND]
  {
    Joined(UnsignedDate(dt), TimeText(dt, scale), FormatTZ(dt[OFFSET_TIMEZONE]), dtype)
  }

  predicate IsType(dtype: int) { HasDate(dtype) || HasTime(dtype) }

  lemma PrintedShape(dt: seq<int>, dtype: int, scale: int)
    requires IsType(dtype) && ValidFor(dt, dtype)
    ensures Printed(dt, dtype, scale) == (if HasDate(dtype) then Sign(dt) else "") + Body(dt, dtype, scale)
  {
    hide DateText, TimeText, UnsignedDate, FormatTZ, CheckDate;
    if HasDate(dtype) {
      DateShape(dt);
      var s, d, t, z := Sign(dt), UnsignedDate(dt), TimeText(dt, scale), FormatTZ(dt[OFFSET_TIMEZONE]);
      hide Sign;
      Regroup4(s, d, " ", t);
      Regroup4(s, d + " " + t, " ", z);
    }
  }

  lemma JoinEnds(a: string, b: string)
    requires a != "" && IsDigit(a[0]) && b != "" && IsDigit(b[|b| - 1])
    ensures a + " " + b != "" && IsDigit((a + " " + b)[0]) && Ends(a + " " + b)
  {}

  /** The pieces a printed text is made of. */
  ghost predicate Pieces(d: string, t: string, z: string, dtype: int) {
    && (HasDate(dtype) ==> DateChars(d)) && (HasTime(dtype) ==> TimeChars(t))
    && (HasZone(dtype) ==> ' ' !in z && z != "" && IsDigit(z[|z| - 1]))
  }

  function Joined(d: string, t: string, z: string, dtype: int): string {
    if dtype == DATE then d
    else if dtype == TIME then t
    else if dtype == TIME_TZ then t + " " + z
    else if dtype == DATETIME || dtype == DATETIME2 then d + " " + t
    else d + " " + t + " " + z
  }

  lemma PiecesOf(dt: seq<int>, dtype: int, scale: int)
    requires IsType(dtype) && ValidFor(dt, dtype)
    ensures Pieces(UnsignedDate(dt), TimeText(dt, scale), FormatTZ(dt[OFFSET_TIMEZONE]), dtype)
  {
    hide DateText, TimeText, UnsignedDate, FormatTZ, CheckDate, DateChars, TimeChars;
    if HasDate(dtype) {
      DateParts(dt);
    }
    if HasTime(dtype) {
      TimeParts(dt, scale);
    }
    if HasZone(dtype) {
      ZoneChars(dt[OFFSET_TIMEZONE]);
    }
  }

  lemma CharsEnd(s: string)
    requires DateChars(s) || TimeChars(s)
    ensures Ends(s)
  {}

  lemma JoinedEnds(d: string, t: string, z: string, dtype: int)
    requires IsType(dtype) && Pieces(d, t, z, dtype)
    ensures Ends(Joined(d, t, z, dtype))
  {
    hide DateChars, TimeChars;
    if HasDate(dtype) {
      CharsEnd(d);
    }
    if HasTime(dtype) {
      CharsEnd(t);
    }
    if HasDate(dtype) && HasTime(dtype) {
      JoinEnds(d, t);
    }
    if HasZone(dtype) {
      JoinEnds(if HasDate(dtype) then d + " " + t else t, z);
    }
  }

  lemma JoinedDivides(d: string, t: string, z: string, dtype: int)
    requires IsType(dtype) && Pieces(d, t, z, dtype)
    ensures Divide(Joined(d, t, z, dtype)) == Some(Parts(TextType(dtype),
      if HasDate(dtype) then d else "", if HasTime(dtype) then t else "", if HasZone(dtype) then z else ""))
  {
    hide DateChars, TimeChars, Divide, Index, IsDigit;
    if HasDate(dtype) {
      NoSpace(d);
      ColonPlace(d);
    }
    if HasTime(dtype) {
      NoSpace(t);
      ColonPlace(t);
    }
    if dtype == DATE {
      DivideOne(d);
    } else if dtype == TIME {
      DivideOne(t);
    } else if dtype == TIME_TZ {
      DivideTwo(t, z);
    } else if dtype == DATETIME || dtype == DATETIME2 {
      DivideTwo(d, t);
    } else {
      DivideThree(d, t, z);
    }
  }

  lemma BodyRead(dt: seq<int>, dtype: int, scale: int)
    requires IsType(dtype) && ValidFor(dt, dtype)
    ensures ParsedBody(Body(dt, dtype, scale), HasDate(dtype) && dt[OFFSET_YEAR] < 0)
      == Some((TextType(dtype), ReadBack(dt, dtype, scale)))
  {
    var s, d, t, z := Body(dt, dtype, scale), UnsignedDate(dt), TimeText(dt, scale), FormatTZ(dt[OFFSET_TIMEZONE]);
    var date, time := HasDate(dtype), HasTime(dtype);
    PiecesOf(dt, dtype, scale);
    JoinedDivides(d, t, z, dtype);
    NonEmpty(d, t, z, dtype);
    ReadBackIs(dt, dtype, scale);
    hide Joined, UnsignedDate, TimeText, FormatTZ, CheckDate, Divide, CutNanos, TextType, Pieces, ReadBack, ParsedBody,
      Body, DateOf, TimeOf, ZoneOfParts;
    var p := Parts(TextType(dtype), if date then d else "", if time then t else "", if HasZone(dtype) then z else "");
    PartsRead(dt, dtype, scale, s, p);
    ParsedParts(s, date && dt[OFFSET_YEAR] < 0, p);
  }

  lemma PartsRead(dt: seq<int>, dtype: int, scale: int, s: string, p: Parts)
    requires IsType(dtype) && ValidFor(dt, dtype)
    requires HasDate(dtype) ==> UnsignedDate(dt) != ""
    requires HasTime(dtype) ==> TimeText(dt, scale) != ""
    requires HasZone(dtype) ==> FormatTZ(dt[OFFSET_TIMEZONE]) != ""
    requires p.date == (if HasDate(dtype) then UnsignedDate(dt) else "")
    requires p.time == (if HasTime(dtype) then TimeText(dt, scale) else "")
    requires p.zone == (if HasZone(dtype) then FormatTZ(dt[OFFSET_TIMEZONE]) else "")
    ensures DateOf(p, s, HasDate(dtype) && dt[OFFSET_YEAR] < 0)
      == Some(if HasDate(dtype) then (dt[OFFSET_YEAR], dt[OFFSET_MONTH], dt[OFFSET_DAY]) else (1900, 1, 1))
    ensures TimeOf(p) == Some(if HasTime(dtype)
      then (dt[OFFSET_HOUR], dt[OFFSET_MINUTE], dt[OFFSET_SECOND], CutNanos(dt[OFFSET_NANOSECOND], scale))
      else (0, 0, 0, 0))
    ensures ZoneOfParts(p) == Some(if HasZone(dtype) then dt[OFFSET_TIMEZONE] else INVALID_VALUE)
  {
    hide UnsignedDate, TimeText, FormatTZ, CheckDate, ReadDate, ReadTime, ReadZone, CutNanos;
    if HasDate(dtype) {
      DatePartsRead(dt, s);
    }
    if HasTime(dtype) {
      TimeTextRead(dt, scale);
    }
    if HasZone(dtype) {
      ZoneTextRead(dt[OFFSET_TIMEZONE]);
    }
  }

  lemma ParsedParts(s: string, negative: bool, p: Parts)
    requires Divide(s) == Some(p) && DateOf(p, s, negative).Some? && TimeOf(p).Some? && ZoneOfParts(p).Some?
    ensures var date, time, zone := DateOf(p, s, negative).value, TimeOf(p).value, ZoneOfParts(p).value;
      ParsedBody(s, negative) == Some((p.kind, [date.0, date.1, date.2, time.0, time.1, time.2, time.3, zone]))
  {
    hide Divide, DateOf, TimeOf, ZoneOfParts;
  }

  lemma NonEmpty(d: string, t: string, z: string, dtype: int)
    requires Pieces(d, t, z, dtype)
    ensures (HasDate(dtype) ==> d != "") && (HasTime(dtype) ==> t != "") && (HasZone(dtype) ==> z != "")
  {}

  lemma ReadBackIs(dt: seq<int>, dtype: int, scale: int)
    requires |dt| == DT_LEN && 0 <= dt[OFFSET_NANOSECOND]
    ensures
      var (y, m, d) := if HasDate(dtype) then (dt[OFFSET_YEAR], dt[OFFSET_MONTH], dt[OFFSET_DAY]) else (1900, 1, 1);
      var (hh, mm, ss, n) := if HasTime(dtype) then
        (dt[OFFSET_HOUR], dt[OFFSET_MINUTE], dt[OFFSET_SECOND], CutNanos(dt[OFFSET_NANOSECOND], scale)) else (0, 0, 0, 0);
      ReadBack(dt, dtype, scale)
        == [y, m, d, hh, mm, ss, n, if HasZone(dtype) then dt[OFFSET_TIMEZONE] else INVALID_VALUE]
  {
    hide CutNanos;
  }

  /** Printing a valid value of any type and parsing the text gives the value back, with the
      fraction cut to the printed scale. */
  lemma PrintParse(dt: seq<int>, dtype: int, scale: int)
    requires IsType(dtype) && ValidFor(dt, dtype)
    ensures Parsed(Printed(dt, dtype, scale)) == Some((TextType(dtype), ReadBack(dt, dtype, scale)))
  {
    PrintedShape(dt, dtype, scale);
    PiecesOf(dt, dtype, scale);
    JoinedEnds(UnsignedDate(dt), TimeText(dt, scale), FormatTZ(dt[OFFSET_TIMEZONE]), dtype);
    BodyRead(dt, dtype, scale);
    SignedText(Body(dt, dtype, scale), HasDate(dtype) && dt[OFFSET_YEAR] < 0);
    hide Joined, UnsignedDate, TimeText, FormatTZ, Printed, ParsedBody, ReadBack, TextType, Ends, TrimSpace, Index,
      Body, CheckDate;
  }

  // ---------- the text spelled out ----------

  /** Four digits of year, two of month and day, with dashes, and a minus in front of a
      year before 0. */
  lemma DateSpelled(dt: seq<int>)
    requires |dt| == DT_LEN && CheckDate(dt[0], dt[1], dt[2])
    ensures var t, k := DateText(dt), if dt[0] < 0 then 1 else 0;
      && |t| == k + 10 && (k == 1 ==> t[0] == '-') && t[k + 4] == '-' && t[k + 7] == '-'
      && AllDigits(t[k..k + 4]) && NatVal(t[k..k + 4]) == Abs(dt[0])
      && AllDigits(t[k + 5..k + 7]) && NatVal(t[k + 5..k + 7]) == dt[1]
      && AllDigits(t[k + 8..]) && NatVal(t[k + 8..]) == dt[2]
  {
    var y, m, d := Padded(Itoa(Abs(dt[0])), 4), Format2(dt[1]), Format2(dt[2]);
    FormatYearIs(dt[0]);
    Format2Numeral(dt[1]);
    Format2Numeral(dt[2]);
    PaddedDigits(Abs(dt[0]), 4);
    Tens();
    ItoaLength(Abs(dt[0]), 4);
    hide FormatYear, Format2, Padded, Itoa, NatVal, Pow10;
    assert |y| == 4 by { PaddedTo(Itoa(Abs(dt[0])), 4); }
    ThreeParts(if dt[0] < 0 then "-" else "", y, '-', m, '-', d);
  }

  lemma PaddedTo(s: string, k: nat)
    requires |s| <= k
    ensures |Padded(s, k)| == k
  {}

  lemma ThreeParts(front: string, a: string, p: char, b: string, q: char, c: string)
    ensures var t, i, j := front + a + [p] + b + [q] + c, |front| + |a|, |front| + |a| + 1 + |b|;
      t[..|front|] == front && t[|front|..i] == a && t[i] == p && t[i + 1..j] == b && t[j] == q && t[j + 1..] == c
  {}

  /** Two digits each of hour, minute and second, with colons; then, for a scale, a
      point and the first `scale` of the nine digits of the fraction. */
  lemma TimeSpelled(dt: seq<int>, scale: int)
    requires |dt| == DT_LEN && 0 <= dt[3] < 24 && 0 <= dt[4] < 60 && 0 <= dt[5] < 60 && 0 <= dt[6] < 1_000_000_000
    ensures var t, k := TimeText(dt, scale), if scale <= 0 then 0 else if scale < 9 then scale else 9;
      && |t| == (if scale <= 0 then 8 else 9 + k) && t[2] == ':' && t[5] == ':'
      && AllDigits(t[..2]) && NatVal(t[..2]) == dt[3]
      && AllDigits(t[3..5]) && NatVal(t[3..5]) == dt[4]
      && AllDigits(t[6..8]) && NatVal(t[6..8]) == dt[5]
      && (scale > 0 ==> t[8] == '.' && AllDigits(t[9..]) && NatVal(t[9..]) == dt[6] / Pow10(9 - k))
  {
    var h, m, s := Format2(dt[3]), Format2(dt[4]), Format2(dt[5]);
    Format2Numeral(dt[3]);
    Format2Numeral(dt[4]);
    Format2Numeral(dt[5]);
    hide Format2, NatVal, Pow10;
    var clock := ClockText(dt);
    ThreeParts("", h, ':', m, ':', s);
    assert clock == "" + h + [':'] + m + [':'] + s;
    assert clock[..2] == h && clock[3..5] == m && clock[6..8] == s;
    if scale > 0 {
      var f := FormatMilliSecond(dt[6], scale);
      FractionDigits(dt[6], scale);
      hide FormatMilliSecond, ClockText;
      TwoParts(clock, '.', f);
      assert TimeText(dt, scale) == clock + ['.'] + f;
    }
  }

  lemma TwoParts(a: string, p: char, b: string)
    ensures var t := a + [p] + b;
      t[..|a|] == a && t[|a|] == p && t[|a| + 1..] == b
      && forall i, j :: 0 <= i <= j <= |a| ==> t[i..j] == a[i..j]
  {
    var t := a + [p] + b;
    forall i, j | 0 <= i <= j <= |a| ensures t[i..j] == a[i..j] {
      assert t[..|a|][i..j] == t[i..j];
    }
  }

  lemma FractionDigits(n: nat, scale: nat)
    requires n < 1_000_000_000 && scale >= 1
    ensures var f := FormatMilliSecond(n, scale);
      AllDigits(f) && |f| == (if scale < 9 then scale else 9) && NatVal(f) == n / Pow10(9 - |f|)
  {
    hide Nine, NatVal, Padded, Pow10;
    NineLength(n);
    PaddedDigits(n, 9);
    if scale < 9 {
      FirstDigits(Nine(n), n, scale);
    } else {
      PowZero();
    }
  }

  /** Sign, hours and minutes of the zone. */
  lemma ZoneSpelled(tz: int)
    requires -780 < tz <= 840
    ensures var t := FormatTZ(tz);
      && |t| == 6 && t[0] == (if tz >= 0 then '+' else '-') && t[3] == ':'
      && AllDigits(t[1..3]) && AllDigits(t[4..])
      && NatVal(t[4..]) < 60 && NatVal(t[1..3]) * 60 + NatVal(t[4..]) == Abs(tz)
  {
    var hour, min := Abs(TruncDiv(tz, 60)), Abs(TruncMod(tz, 60));
    ZoneFields(tz);
    var h, m, sign := Format2(hour), Format2(min), if tz >= 0 then "+" else "-";
    Format2Numeral(hour);
    Format2Numeral(min);
    assert FormatTZ(tz) == sign + h + [':'] + m;
    hide Format2, NatVal, FormatTZ, TruncDiv, TruncMod;
    TwoParts(sign + h, ':', m);
    assert (sign + h)[1..3] == h;
    assert FormatTZ(tz)[0] == FormatTZ(tz)[0..1][0];
  }

  lemma ZoneFields(tz: int)
    requires -780 < tz <= 840
    ensures var hour, min := Abs(TruncDiv(tz, 60)), Abs(TruncMod(tz, 60));
      hour * 60 + min == Abs(tz) && 0 <= min < 60 && 0 <= hour < 15
  {}

  /** Which of them each type prints, by its code in the protocol. */
  lemma TypesSpelled(dt: seq<int>, scale: int)
    requires |dt| == DT_LEN && 0 <= dt[6]
    ensures var date, time, zone := DateText(dt), TimeText(dt, scale), FormatTZ(dt[7]);
      && Printed(dt, 14, scale) == date
      && Printed(dt, 15, scale) == time
      && Printed(dt, 22, scale) == time + " " + zone
      && Printed(dt, 16, scale) == Printed(dt, 26, scale) == date + " " + time
      && Printed(dt, 23, scale) == Printed(dt, 27, scale) == date + " " + time + " " + zone
  {
    hide DateText, TimeText, FormatTZ;
  }
}
