/**
 What the zone shifts around the packed form do to the instant a value stands for
 (dm/h.go:64-76, 606-625): going forward they keep it; going back they keep it exactly
 when no month of another length is entered.
 */
module Zones {
  import opened Bytes
  import opened Calendar
  import opened DateTimeCodec
  import opened Division
  import opened LittleEndian

  /** Whether adding n minutes is exact: forward always; back if the value stays in its
      month, or enters December or July, which are as long as January and August. */
  predicate Exact(dt: seq<int>, n: int)
    requires |dt| == DT_LEN
  {
    n >= 0 || (dt[OFFSET_DAY] - 1) * 1440 + dt[OFFSET_HOUR] * 60 + dt[OFFSET_MINUTE] + n >= 0 || dt[OFFSET_MONTH] in {1, 8}
  }

  lemma StaysInMonth(dt: seq<int>, n: int)
    requires |dt| == DT_LEN
    ensures dt[OFFSET_DAY] + DayShift(dt, n) >= 1
      <==> (dt[OFFSET_DAY] - 1) * 1440 + dt[OFFSET_HOUR] * 60 + dt[OFFSET_MINUTE] + n >= 0
  {
    Calendar.ClockSplit(dt[OFFSET_HOUR], dt[OFFSET_MINUTE], n);
  }

  lemma SameLengthBefore(year: int, month: int)
    requires 1 <= month <= 12
    ensures MonthLength(MonthIndex(year, month) - 1) == DaysOfMonth(year, month) <==> month in {1, 8}
  {
    hide IsLeapYear;
    var m := MonthIndex(year, month) - 1;
    if month == 1 {
      assert m % 12 + 1 == 12;
    } else {
      assert m / 12 == year && m % 12 + 1 == month - 1;
    }
  }

  /** A change of zone keeps the instant, and the valid date, exactly when adding the
      difference is exact. */
  lemma ZoneChange(dt: seq<int>, srcTz: int, destTz: int)
    requires ValidDate(dt) && srcTz != INVALID_VALUE && destTz != INVALID_VALUE
    requires -27 * 1440 <= destTz - srcTz <= 27 * 1440
    ensures var r := Transformed(dt, srcTz, destTz);
      && (AbsMinute(r) - destTz == AbsMinute(dt) - srcTz <==> Exact(dt, destTz - srcTz))
      && (Exact(dt, destTz - srcTz) ==> ValidDate(r))
      && r[OFFSET_TIMEZONE] == (if srcTz == destTz then dt[OFFSET_TIMEZONE] else destTz)
      && r[OFFSET_SECOND] == dt[OFFSET_SECOND] && r[OFFSET_NANOSECOND] == dt[OFFSET_NANOSECOND]
  {
    var n := destTz - srcTz;
    if n != 0 {
      var a := AddedMinutes(dt, n);
      AddedFields(dt, n);
      StaysInMonth(dt, n);
      SameLengthBefore(dt[OFFSET_YEAR], dt[OFFSET_MONTH]);
      if n > 0 {
        ForwardExact(dt, n);
      } else {
        BackwardExactIff(dt, n);
      }
      SameFraction(a, dt);
      hide AddedMinutes, DayShift, MonthLength, DaysOfMonth, MonthIndex, DaysUpTo, MonthSteps;
    }
  }

  lemma SameFraction(a: seq<int>, b: seq<int>)
    requires |a| == |b| == DT_LEN && a[OFFSET_SECOND..] == b[OFFSET_SECOND..]
    ensures a[OFFSET_SECOND] == b[OFFSET_SECOND] && a[OFFSET_NANOSECOND] == b[OFFSET_NANOSECOND]
  {
    assert a[OFFSET_SECOND..][0] == b[OFFSET_SECOND..][0] && a[OFFSET_SECOND..][1] == b[OFFSET_SECOND..][1];
  }

  // ---------- errors of successive shifts ----------

  /** A date with a proper clock, whose day need not be in its month. */
  predicate Clocked(dt: seq<int>) {
    && |dt| == DT_LEN && 1 <= dt[OFFSET_MONTH] <= 12 && 1 <= dt[OFFSET_DAY] <= 31
    && 0 <= dt[OFFSET_HOUR] < 24 && 0 <= dt[OFFSET_MINUTE] < 60
  }

  function Month(dt: seq<int>): int
    requires |dt| == DT_LEN
  {
    MonthIndex(dt[OFFSET_YEAR], dt[OFFSET_MONTH])
  }

  lemma StepError(dt: seq<int>, days: int)
    requires Clocked(dt) && -9 <= days <= 9
    ensures var k, e := MonthSteps(dt, days), Drift(dt, days);
      && -1 <= k <= 1
      && (days >= 0 || dt[OFFSET_DAY] >= 10 ==> e == 0 && k >= 0)
      && (e != 0 ==> k == -1 && e == MonthLength(Month(dt)) - MonthLength(Month(dt) - 1))
      && (e != 0 ==> (dt[OFFSET_DAY] + days - 1) % DaysOfMonth(dt[OFFSET_YEAR], dt[OFFSET_MONTH]) >= 19)
      && (k == 0 && days >= 0 ==>
            (dt[OFFSET_DAY] + days - 1) % DaysOfMonth(dt[OFFSET_YEAR], dt[OFFSET_MONTH]) == dt[OFFSET_DAY] + days - 1)
  {
    DayStep(dt[OFFSET_DAY], days, DaysOfMonth(dt[OFFSET_YEAR], dt[OFFSET_MONTH]));
    StepDrift(dt, days);
    hide DaysOfMonth, Drift, MonthLength, MonthIndex;
  }

  lemma StepDrift(dt: seq<int>, days: int)
    requires |dt| == DT_LEN && 1 <= dt[OFFSET_MONTH] <= 12 && -1 <= MonthSteps(dt, days) <= 1
    ensures Drift(dt, days)
      == if MonthSteps(dt, days) == -1 then MonthLength(Month(dt)) - MonthLength(Month(dt) - 1) else 0
  {
    MonthOf(dt[OFFSET_YEAR], dt[OFFSET_MONTH]);
    NextMonth(Month(dt));
    NextMonth(Month(dt) - 1);
    var m, k := Month(dt), MonthSteps(dt, days);
    var md := DaysOfMonth(dt[OFFSET_YEAR], dt[OFFSET_MONTH]);
    assert Drift(dt, days) == DaysUpTo(m + k) - DaysUpTo(m) - k * md;
    hide *;
    OneMonth(DaysUpTo(m - 1), DaysUpTo(m), DaysUpTo(m + 1), DaysUpTo(m + k), md, MonthLength(m - 1), k);
  }

  lemma OneMonth(before: int, here: int, after: int, there: int, md: int, prev: int, k: int)
    requires -1 <= k <= 1 && after == here + md && here == before + prev
    requires (k == -1 ==> there == before) && (k == 0 ==> there == here) && (k == 1 ==> there == after)
    ensures there - here - k * md == if k == -1 then md - prev else 0
  {}

  lemma DayStep(day: int, days: int, md: int)
    requires 1 <= day <= 31 && -9 <= days <= 9 && 28 <= md <= 31
    ensures -1 <= (day + days - 1) / md <= 1
    ensures days >= 0 || day >= 10 ==> (day + days - 1) / md >= 0
    ensures (day + days - 1) / md == -1 ==> (day + days - 1) % md >= 19
    ensures (day + days - 1) / md == 0 ==> (day + days - 1) % md == day + days - 1
  {
    var x := day + days - 1;
    if x < 0 {
      DivisionIs(x, md, -1, x + md);
    } else if x < md {
      DivisionIs(x, md, 0, x);
    } else {
      DivisionIs(x, md, 1, x - md);
    }
  }

  /** What one shift adds, in days, to the instant: nothing going forward or from the
      tenth day on, else what the month left is longer than the one entered. */
  lemma ShiftError(dt: seq<int>, srcTz: int, destTz: int) returns (e: int)
    requires Clocked(dt) && srcTz != INVALID_VALUE && destTz != INVALID_VALUE
    requires -9 * 1440 <= destTz - srcTz <= 9 * 1440
    ensures var r := Transformed(dt, srcTz, destTz);
      && Clocked(r) && AbsMinute(r) - destTz == AbsMinute(dt) - srcTz + 1440 * e
      && (destTz >= srcTz || dt[OFFSET_DAY] >= 10 ==> e == 0)
      && (e != 0 ==> r[OFFSET_DAY] >= 20 && Month(r) == Month(dt) - 1
                     && e == MonthLength(Month(dt)) - MonthLength(Month(dt) - 1))
      && (destTz >= srcTz ==> Month(r) == Month(dt) + 1 || (Month(r) == Month(dt) && r[OFFSET_DAY] >= dt[OFFSET_DAY]))
      && r[OFFSET_TIMEZONE] == (if srcTz == destTz then dt[OFFSET_TIMEZONE] else destTz)
  {
    var n := destTz - srcTz;
    e := 0;
    if n != 0 {
      var days := DayShift(dt, n);
      NineDays(dt, n);
      e := Drift(dt, days);
      MinutesDrift(dt, n);
      AddedFields(dt, n);
      StepError(dt, days);
      hide AddedMinutes, DayShift, MonthLength, DaysOfMonth, DaysUpTo, MonthSteps, Drift;
    }
  }

  lemma NineDays(dt: seq<int>, n: int)
    requires Clocked(dt) && -9 * 1440 <= n <= 9 * 1440
    ensures -9 <= DayShift(dt, n) <= 9 && (n >= 0 ==> DayShift(dt, n) >= 0)
  {}

  // ---------- what is sent ----------

  lemma ValidIsClocked(dt: seq<int>)
    requires ValidDate(dt)
    ensures Clocked(dt)
  {}

  /** What `encode` packs: the value's instant, told in the local zone, or for a local
      column in the server's, if and only if each shift on the way is exact. */
  lemma ShiftedInstant(dt: seq<int>, local: bool, lTz: int, dTz: int)
    requires ValidDate(dt) && dt[OFFSET_TIMEZONE] != INVALID_VALUE && lTz != INVALID_VALUE && dTz != INVALID_VALUE
    requires -9 * 1440 <= lTz - dt[OFFSET_TIMEZONE] <= 9 * 1440 && -9 * 1440 <= dTz - lTz <= 9 * 1440
    ensures var a, r := Transformed(dt, dt[OFFSET_TIMEZONE], lTz), Shifted(dt, local, lTz, dTz);
      && r[OFFSET_TIMEZONE] == (if local then dTz else lTz)
      && (AbsMinute(r) - r[OFFSET_TIMEZONE] == AbsMinute(dt) - dt[OFFSET_TIMEZONE]
          <==> Exact(dt, lTz - dt[OFFSET_TIMEZONE]) && (local ==> Exact(a, dTz - lTz)))
      && (AbsMinute(r) - r[OFFSET_TIMEZONE] == AbsMinute(dt) - dt[OFFSET_TIMEZONE] ==> ValidDate(r))
      && r[OFFSET_SECOND] == dt[OFFSET_SECOND] && r[OFFSET_NANOSECOND] == dt[OFFSET_NANOSECOND]
  {
    var a := Transformed(dt, dt[OFFSET_TIMEZONE], lTz);
    ZoneChange(dt, dt[OFFSET_TIMEZONE], lTz);
    FractionKept(dt, dt[OFFSET_TIMEZONE], lTz);
    ValidIsClocked(dt);
    var e := ShiftError(dt, dt[OFFSET_TIMEZONE], lTz);
    if local {
      FractionKept(a, lTz, dTz);
      var f := ShiftError(a, lTz, dTz);
      if Exact(dt, lTz - dt[OFFSET_TIMEZONE]) {
        ZoneChange(a, lTz, dTz);
      }
    }
    hide Transformed, AbsMinute, Exact, ValidDate, Clocked, Month, MonthLength;
  }

  lemma FractionKept(dt: seq<int>, srcTz: int, destTz: int)
    requires Clocked(dt)
    ensures var r := Transformed(dt, srcTz, destTz);
      r[OFFSET_SECOND] == dt[OFFSET_SECOND] && r[OFFSET_NANOSECOND] == dt[OFFSET_NANOSECOND]
  {
    if Shifts(srcTz, destTz) {
      AddedFields(dt, destTz - srcTz);
      SameFraction(AddedMinutes(dt, destTz - srcTz), dt);
      hide AddedMinutes;
    }
  }

  /** 23:00 of 30 April, sent from a zone two hours east of it and the server's, is
      packed as 23:00 of "31 April". */
  lemma ShiftedWrong()
    ensures var dt := [2024, 4, 30, 23, 0, 0, 0, 0];
      ValidDate(dt) && Shifted(dt, true, 120, 0) == [2024, 4, 31, 23, 0, 0, 0, 0]
  {
    TwoHoursOn();
    TwoHoursBack();
    hide AddedMinutes;
  }

  lemma TwoHoursOn()
    ensures AddedMinutes([2024, 4, 30, 23, 0, 0, 0, 0], 120)[OFFSET_TIMEZONE := 120] == [2024, 5, 1, 1, 0, 0, 0, 120]
  {
    var dt := [2024, 4, 30, 23, 0, 0, 0, 0];
    var d := dt[OFFSET_MINUTE := 0][OFFSET_HOUR := 1];
    assert AddedMinutes(dt, 120) == AddedDays(d, 1);
  }

  lemma TwoHoursBack()
    ensures AddedMinutes([2024, 5, 1, 1, 0, 0, 0, 120], -120)[OFFSET_TIMEZONE := 0] == [2024, 4, 31, 23, 0, 0, 0, 0]
  {
    var dt := [2024, 5, 1, 1, 0, 0, 0, 120];
    var d := dt[OFFSET_MINUTE := 0][OFFSET_HOUR := 23];
    assert AddedMinutes(dt, -120) == AddedDays(d, -1);
  }

  // ---------- what is read back ----------

  /** `decode`, without compressed values: a local column is read from the server's zone. */
  method DecodeColumn(value: seq<Byte>, local: bool, lTz: int, dTz: int) returns (dt: array<int>)
    requires local && Shifts(dTz, lTz) ==> 1 <= Unpacked(value)[OFFSET_MONTH] <= 12
    ensures fresh(dt) && dt[..] == if local then Transformed(Unpacked(value), dTz, lTz) else Unpacked(value)
  {
    dt := Decode(value);
    hide Unpacked, AddedMinutes;
    if local {
      TransformTZ(dt, dTz, lTz);
    }
  }

  /** What a column without zones keeps of the array that was packed. */
  function Stored(colType: int, s: seq<int>): (r: seq<int>)
    requires |s| == DT_LEN
    ensures |r| == DT_LEN
  {
    s[OFFSET_NANOSECOND := if colType == DATETIME2 then s[OFFSET_NANOSECOND] else s[OFFSET_NANOSECOND] / 1000 * 1000]
     [OFFSET_TIMEZONE := INVALID_VALUE]
  }

  lemma UnpackedLocal(colType: int, s: seq<int>, dTz: int)
    requires InWidth(s) && -4712 <= s[OFFSET_YEAR] <= 9999 && FitsInt16(ZoneOf(s, dTz))
    requires colType in {DATETIME, DATETIME2}
    ensures Unpacked(Layout(colType, s, dTz)) == Stored(colType, s)
  {
    RoundTrip(colType, s, dTz);
    hide Unpacked, Layout, FitsInt16;
    assert Kept(colType, s, dTz) == Stored(colType, s);
  }

  /** The three shifts of a value on its way to a local column and back. */
  lemma ThreeShifts(dt: seq<int>, colType: int, lTz: int, dTz: int)
    requires ValidDate(dt) && dt[OFFSET_TIMEZONE] != INVALID_VALUE && lTz != INVALID_VALUE && dTz != INVALID_VALUE
    requires -9 * 1440 <= lTz - dt[OFFSET_TIMEZONE] <= 9 * 1440 && -9 * 1440 <= dTz - lTz <= 9 * 1440
    ensures Clocked(Shifted(dt, true, lTz, dTz))
    ensures var a, s := Transformed(dt, dt[OFFSET_TIMEZONE], lTz), Shifted(dt, true, lTz, dTz);
      var r := Transformed(Stored(colType, s), dTz, lTz);
      && (AbsMinute(r) - lTz == AbsMinute(dt) - dt[OFFSET_TIMEZONE]
          <==> Exact(dt, lTz - dt[OFFSET_TIMEZONE]) && Exact(a, dTz - lTz) && Exact(s, lTz - dTz))
      && (AbsMinute(r) - lTz == AbsMinute(dt) - dt[OFFSET_TIMEZONE] ==> ValidDate(r))
  {
    var z := dt[OFFSET_TIMEZONE];
    ValidIsClocked(dt);
    LocalShifts(dt, lTz, dTz);
    var a, s := Transformed(dt, z, lTz), Shifted(dt, true, lTz, dTz);
    var b := Stored(colType, s);
    SameDay(s, b);
    hide *;
    var e1 := ShiftErrorIff(dt, z, lTz);
    var e2 := ShiftErrorIff(a, lTz, dTz);
    var e3 := ShiftErrorIff(b, dTz, lTz);
    assert e1 != 0 ==> e2 == 0;
    assert e1 != 0 && e3 != 0 ==> e1 == e3;
    assert e2 != 0 ==> e3 == 0;
  }

  lemma LocalShifts(dt: seq<int>, lTz: int, dTz: int)
    requires Clocked(dt) && dt[OFFSET_TIMEZONE] != INVALID_VALUE && lTz != INVALID_VALUE
    requires -9 * 1440 <= lTz - dt[OFFSET_TIMEZONE] <= 9 * 1440 && -9 * 1440 <= dTz - lTz <= 9 * 1440
    requires dTz != INVALID_VALUE
    ensures var a := Transformed(dt, dt[OFFSET_TIMEZONE], lTz);
      && Clocked(a) && a[OFFSET_TIMEZONE] == lTz && Clocked(Transformed(a, lTz, dTz))
      && Shifted(dt, true, lTz, dTz) == Transformed(a, lTz, dTz)
  {
    var e1 := ShiftError(dt, dt[OFFSET_TIMEZONE], lTz);
    var e2 := ShiftError(Transformed(dt, dt[OFFSET_TIMEZONE], lTz), lTz, dTz);
    hide AddedMinutes;
  }

  lemma ShiftErrorIff(dt: seq<int>, srcTz: int, destTz: int) returns (e: int)
    requires Clocked(dt) && srcTz != INVALID_VALUE && destTz != INVALID_VALUE
    requires -9 * 1440 <= destTz - srcTz <= 9 * 1440
    ensures var r := Transformed(dt, srcTz, destTz);
      && Clocked(r) && AbsMinute(r) - destTz == AbsMinute(dt) - srcTz + 1440 * e
      && (destTz >= srcTz || dt[OFFSET_DAY] >= 10 ==> e == 0)
      && (e != 0 ==> r[OFFSET_DAY] >= 20 && Month(r) == Month(dt) - 1
                     && e == MonthLength(Month(dt)) - MonthLength(Month(dt) - 1))
      && (destTz >= srcTz ==> Month(r) == Month(dt) + 1 || (Month(r) == Month(dt) && r[OFFSET_DAY] >= dt[OFFSET_DAY]))
      && r[OFFSET_TIMEZONE] == (if srcTz == destTz then dt[OFFSET_TIMEZONE] else destTz)
      && (ValidDate(dt) ==> (e == 0 <==> Exact(dt, destTz - srcTz)))
      && (ValidDate(dt) && e == 0 ==> ValidDate(r))
  {
    hide Transformed, AbsMinute, Exact, ValidDate, Clocked, Month, MonthLength;
    e := ShiftError(dt, srcTz, destTz);
    if ValidDate(dt) {
      ZoneChange(dt, srcTz, destTz);
    }
  }

  lemma SameDay(s: seq<int>, b: seq<int>)
    requires Clocked(s) && |b| == DT_LEN && b[..OFFSET_SECOND] == s[..OFFSET_SECOND]
    ensures Clocked(b) && AbsMinute(b) == AbsMinute(s) && Month(b) == Month(s) && b[OFFSET_DAY] == s[OFFSET_DAY]
    ensures ValidDate(b) <==> ValidDate(s)
    ensures forall n :: Exact(b, n) == Exact(s, n)
  {
    assert forall i :: 0 <= i < OFFSET_SECOND ==> b[..OFFSET_SECOND][i] == b[i] && s[..OFFSET_SECOND][i] == s[i];
    hide DaysUpTo, DaysOfMonth;
    assert b[0] == s[0] && b[1] == s[1] && b[2] == s[2] && b[3] == s[3] && b[4] == s[4];
  }

  lemma ShiftedInWidth(dt: seq<int>, local: bool, lTz: int, dTz: int)
    requires InWidth(dt) && (dt[OFFSET_TIMEZONE] == INVALID_VALUE || 1 <= dt[OFFSET_MONTH] <= 12)
    ensures InWidth(Shifted(dt, local, lTz, dTz))
  {
    MonthKept(dt, dt[OFFSET_TIMEZONE], lTz);
    TransformedInWidth(dt, dt[OFFSET_TIMEZONE], lTz);
    hide InWidth;
    if local {
      var a := Transformed(dt, dt[OFFSET_TIMEZONE], lTz);
      TransformedInWidth(a, a[OFFSET_TIMEZONE], dTz);
    }
    hide Transformed;
  }

  /** A value written to a local column and read back stands for the same instant, now
      told in the local zone, if and only if all three shifts are exact. */
  lemma LocalRoundTrip(colType: int, dt: seq<int>, lTz: int, dTz: int)
    requires ValidDate(dt) && InWidth(dt) && colType in {DATETIME, DATETIME2} && FitsInt16(dTz)
    requires dt[OFFSET_TIMEZONE] != INVALID_VALUE && lTz != INVALID_VALUE && dTz != INVALID_VALUE
    requires -9 * 1440 <= lTz - dt[OFFSET_TIMEZONE] <= 9 * 1440 && -9 * 1440 <= dTz - lTz <= 9 * 1440
    requires -4712 <= Shifted(dt, true, lTz, dTz)[OFFSET_YEAR] <= 9999
    ensures InWidth(Shifted(dt, true, lTz, dTz))
    ensures 1 <= Unpacked(Layout(colType, Shifted(dt, true, lTz, dTz), dTz))[OFFSET_MONTH] <= 12
    ensures var a, s := Transformed(dt, dt[OFFSET_TIMEZONE], lTz), Shifted(dt, true, lTz, dTz);
      var r := Transformed(Unpacked(Layout(colType, s, dTz)), dTz, lTz);
      && (AbsMinute(r) - lTz == AbsMinute(dt) - dt[OFFSET_TIMEZONE]
          <==> Exact(dt, lTz - dt[OFFSET_TIMEZONE]) && Exact(a, dTz - lTz) && Exact(s, lTz - dTz))
      && (AbsMinute(r) - lTz == AbsMinute(dt) - dt[OFFSET_TIMEZONE] ==> ValidDate(r))
      && r[OFFSET_SECOND] == dt[OFFSET_SECOND]
      && r[OFFSET_NANOSECOND] == (if colType == DATETIME2 then dt[OFFSET_NANOSECOND] else dt[OFFSET_NANOSECOND] / 1000 * 1000)
  {
    var s := Shifted(dt, true, lTz, dTz);
    ShiftedInWidth(dt, true, lTz, dTz);
    ShiftedInstant(dt, true, lTz, dTz);
    ThreeShifts(dt, colType, lTz, dTz);
    UnpackedLocal(colType, s, dTz);
    MonthInRange(s);
    SameDay(s, Stored(colType, s));
    FractionKept(Stored(colType, s), dTz, lTz);
    hide Transformed, Shifted, AbsMinute, Exact, ValidDate, Clocked, Unpacked, Layout, InWidth, FitsInt16;
  }

  lemma MonthInRange(s: seq<int>)
    requires Clocked(s)
    ensures 1 <= s[OFFSET_MONTH] <= 12
  {}
}
