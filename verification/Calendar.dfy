/**
 Calendar arithmetic on date/time field arrays (dm/h.go:606-615, 825-923), and how far it
 agrees with the Gregorian calendar.
 */
module Calendar {
  import opened Division

  const OFFSET_YEAR: nat := 0
  const OFFSET_MONTH: nat := 1
  const OFFSET_DAY: nat := 2
  const OFFSET_HOUR: nat := 3
  const OFFSET_MINUTE: nat := 4
  const OFFSET_SECOND: nat := 5
  const OFFSET_NANOSECOND: nat := 6
  const OFFSET_TIMEZONE: nat := 7
  const DT_LEN: nat := 8

  /** The zone of a value that carries none: the smallest 32-bit integer. */
  const INVALID_VALUE: int := -0x8000_0000

  // ---------- months ----------

  predicate IsLeapYear(year: int) {
    (year % 4 == 0 && year % 100 != 0) || year % 400 == 0
  }

  function DaysOfMonth(year: int, month: int): (d: nat)
    ensures 1 <= month <= 12 ==> 28 <= d <= 31
  {
    if month in {1, 3, 5, 7, 8, 10, 12} then 31
    else if month in {4, 6, 9, 11} then 30
    else if month == 2 then (if IsLeapYear(year) then 29 else 28)
    else 0
  }

  /** `checkDate` */
  predicate CheckDate(year: int, month: int, day: int) {
    -4712 <= year <= 9999 && 1 <= month <= 12 && 1 <= day <= DaysOfMonth(year, month)
  }

  /** Months counted from January of year 0. */
  function MonthIndex(year: int, month: int): int { 12 * year + month - 1 }

  function MonthLength(m: int): (d: nat)
    ensures 28 <= d <= 31
  {
    DaysOfMonth(m / 12, m % 12 + 1)
  }

  /** Days from the first of January of year 0 to the first day of month m. */
  function DaysUpTo(m: int): int
    decreases if m < 0 then -m else m
  {
    if m == 0 then 0
    else if m > 0 then DaysUpTo(m - 1) + MonthLength(m - 1)
    else DaysUpTo(m + 1) - MonthLength(m)
  }

  lemma NextMonth(m: int)
    ensures DaysUpTo(m + 1) == DaysUpTo(m) + MonthLength(m)
  {
    hide MonthLength;
  }

  lemma MonthOf(year: int, month: int)
    requires 1 <= month <= 12
    ensures MonthIndex(year, month) / 12 == year && MonthIndex(year, month) % 12 + 1 == month
    ensures MonthLength(MonthIndex(year, month)) == DaysOfMonth(year, month)
  {}

  // ---------- the day count, without months ----------

  /** A leap year's day is counted from March on. */
  function LeapDay(year: int): int { if IsLeapYear(year) then 1 else 0 }

  /** When each month begins, in days after the first of January. */
  lemma MonthStarts(year: int)
    ensures var start := DaysUpTo(12 * year);
      && DaysUpTo(12 * year + 1) == start + 31
      && DaysUpTo(12 * year + 2) == start + 59 + LeapDay(year)
      && DaysUpTo(12 * year + 3) == start + 90 + LeapDay(year)
      && DaysUpTo(12 * year + 4) == start + 120 + LeapDay(year)
      && DaysUpTo(12 * year + 5) == start + 151 + LeapDay(year)
      && DaysUpTo(12 * year + 6) == start + 181 + LeapDay(year)
      && DaysUpTo(12 * year + 7) == start + 212 + LeapDay(year)
      && DaysUpTo(12 * year + 8) == start + 243 + LeapDay(year)
      && DaysUpTo(12 * year + 9) == start + 273 + LeapDay(year)
      && DaysUpTo(12 * year + 10) == start + 304 + LeapDay(year)
      && DaysUpTo(12 * year + 11) == start + 334 + LeapDay(year)
      && DaysUpTo(12 * year + 12) == start + 365 + LeapDay(year)
  {
    hide DaysUpTo, IsLeapYear, DaysOfMonth;
    MonthBegins(year, 1);
    MonthBegins(year, 2);
    MonthBegins(year, 3);
    MonthBegins(year, 4);
    MonthBegins(year, 5);
    MonthBegins(year, 6);
    MonthBegins(year, 7);
    MonthBegins(year, 8);
    MonthBegins(year, 9);
    MonthBegins(year, 10);
    MonthBegins(year, 11);
    MonthBegins(year, 12);
  }

  lemma MonthBegins(year: int, month: int)
    requires 1 <= month <= 12
    ensures DaysUpTo(12 * year + month) - DaysUpTo(12 * year + month - 1)
      == if month == 2 then 28 + LeapDay(year) else if month in {4, 6, 9, 11} then 30 else 31
  {
    NextMonth(12 * year + month - 1);
    MonthOf(year, month);
    hide DaysUpTo;
  }

  /** The years before this one that have a leap day, from year 0 on; negative before it. */
  function LeapYearsBefore(year: int): int { (year + 3) / 4 - (year + 99) / 100 + (year + 399) / 400 }

  lemma OneMoreYear(year: int)
    ensures LeapYearsBefore(year + 1) == LeapYearsBefore(year) + LeapDay(year)
  {
    CeilStep(year, 4);
    CeilStep(year, 100);
    CeilStep(year, 400);
    if year % 400 == 0 { Divides(year, 100, 4); }
    if year % 100 == 0 { Divides(year, 4, 25); }
    hide DaysUpTo;
  }

  lemma Divides(x: int, a: int, b: int)
    requires a > 0 && b > 0 && x % (a * b) == 0
    ensures x % a == 0
  {
    var q := x / (a * b);
    assert x == a * (b * q);
    DivisionIs(x, a, b * q, 0);
  }

  lemma CeilStep(x: int, k: int)
    requires k > 0
    ensures (x + 1 + k - 1) / k == (x + k - 1) / k + if x % k == 0 then 1 else 0
  {
    var q, r := x / k, x % k;
    assert x == k * q + r;
    DivisionIs(x + k, k, q + 1, r);
    if r == 0 {
      DivisionIs(x + k - 1, k, q, k - 1);
    } else {
      DivisionIs(x + k - 1, k, q + 1, r - 1);
    }
  }

  /** The first of January of any year, by the Gregorian rule. */
  lemma {:induction false} FirstOfJanuary(year: int)
    ensures DaysUpTo(12 * year) == 365 * year + (year + 3) / 4 - (year + 99) / 100 + (year + 399) / 400
    decreases if year < 0 then -year else year
  {
    hide DaysUpTo, IsLeapYear, LeapYearsBefore, LeapDay;
    if year > 0 {
      FirstOfJanuary(year - 1);
      MonthStarts(year - 1);
      OneMoreYear(year - 1);
      CountIs(year - 1);
      CountIs(year);
    } else if year < 0 {
      FirstOfJanuary(year + 1);
      MonthStarts(year);
      OneMoreYear(year);
      CountIs(year + 1);
      CountIs(year);
    } else {
      StartsAtZero();
    }
  }

  lemma CountIs(year: int)
    ensures LeapYearsBefore(year) == (year + 3) / 4 - (year + 99) / 100 + (year + 399) / 400
  {}

  lemma StartsAtZero()
    ensures DaysUpTo(0) == 0
  {}

  /** Every 400 years have 146097 days, and 1970 begins 719528 days after year 0. */
  lemma Centuries(year: int)
    ensures DaysUpTo(12 * (year + 400)) == DaysUpTo(12 * year) + 146097
    ensures DaysUpTo(12 * 1970) == 719528
  {
    FirstOfJanuary(year);
    FirstOfJanuary(year + 400);
    FirstOfJanuary(1970);
    hide DaysUpTo;
  }

  // ---------- the arithmetic ----------

  predicate IsDT(dt: array<int>) { dt.Length == DT_LEN }

  /** `addYear` */
  method AddYear(dt: array<int>, n: int)
    requires IsDT(dt)
    modifies dt
    ensures dt[..] == old(dt[..])[OFFSET_YEAR := old(dt[OFFSET_YEAR]) + n]
  {
    dt[OFFSET_YEAR] := dt[OFFSET_YEAR] + n;
  }

  /** The month after adding n months; the day is cut to that month's length in the old year. */
  function AddedMonths(dt: seq<int>, n: int): (r: seq<int>)
    requires |dt| == DT_LEN
    ensures |r| == DT_LEN && 1 <= r[OFFSET_MONTH] <= 12
    ensures MonthIndex(r[OFFSET_YEAR], r[OFFSET_MONTH]) == MonthIndex(dt[OFFSET_YEAR], dt[OFFSET_MONTH]) + n
  {
    var m := MonthIndex(dt[OFFSET_YEAR], dt[OFFSET_MONTH]) + n;
    var last := DaysOfMonth(dt[OFFSET_YEAR], m % 12 + 1);
    dt[OFFSET_YEAR := m / 12][OFFSET_MONTH := m % 12 + 1]
      [OFFSET_DAY := if dt[OFFSET_DAY] > last then last else dt[OFFSET_DAY]]
  }

  /** `addMonth` */
  method AddMonth(dt: array<int>, n: int)
    requires IsDT(dt)
    modifies dt
    ensures dt[..] == AddedMonths(old(dt[..]), n)
  {
    var month := dt[OFFSET_MONTH] + n;
    var addYearValue := TruncDiv(month, 12);
    month := TruncMod(month, 12);
    if month < 1 {
      month := month + 12;
      addYearValue := addYearValue - 1;
    }
    assert 12 * addYearValue + month == dt[OFFSET_MONTH] + n && 1 <= month <= 12;
    var daysOfMonth := DaysOfMonth(dt[OFFSET_YEAR], month);
    if dt[OFFSET_DAY] > daysOfMonth {
      dt[OFFSET_DAY] := daysOfMonth;
    }
    dt[OFFSET_MONTH] := month;
    AddYear(dt, addYearValue);
  }

  /** Adding months keeps a date valid, except that the length of February is taken from
      the year the date had before. */
  lemma AddMonthValid(dt: seq<int>, n: int)
    requires |dt| == DT_LEN && 1 <= dt[OFFSET_MONTH] <= 12
    requires 1 <= dt[OFFSET_DAY] <= DaysOfMonth(dt[OFFSET_YEAR], dt[OFFSET_MONTH])
    ensures var r := AddedMonths(dt, n);
      1 <= r[OFFSET_DAY] <= DaysOfMonth(r[OFFSET_YEAR], r[OFFSET_MONTH])
      <==> !(dt[OFFSET_DAY] >= 29 && r[OFFSET_MONTH] == 2 && IsLeapYear(dt[OFFSET_YEAR]) && !IsLeapYear(r[OFFSET_YEAR]))
  {
    hide IsLeapYear;
  }

  /** How many times the loop of `addDay` steps to another month: the length of the month
      it starts in is used throughout. */
  function MonthSteps(dt: seq<int>, n: int): int
    requires |dt| == DT_LEN && 1 <= dt[OFFSET_MONTH] <= 12
  {
    (dt[OFFSET_DAY] + n - 1) / DaysOfMonth(dt[OFFSET_YEAR], dt[OFFSET_MONTH])
  }

  function AddedDays(dt: seq<int>, n: int): (r: seq<int>)
    requires |dt| == DT_LEN && 1 <= dt[OFFSET_MONTH] <= 12
    ensures |r| == DT_LEN
  {
    var m := MonthIndex(dt[OFFSET_YEAR], dt[OFFSET_MONTH]) + MonthSteps(dt, n);
    dt[OFFSET_YEAR := m / 12][OFFSET_MONTH := m % 12 + 1]
      [OFFSET_DAY := (dt[OFFSET_DAY] + n - 1) % DaysOfMonth(dt[OFFSET_YEAR], dt[OFFSET_MONTH]) + 1]
  }

  /** `addDay` */
  method AddDay(dt: array<int>, n: int)
    requires IsDT(dt) && 1 <= dt[OFFSET_MONTH] <= 12
    modifies dt
    ensures dt[..] == AddedDays(old(dt[..]), n)
  {
    ghost var was, k := dt[..], 0;
    ghost var m := MonthIndex(dt[OFFSET_YEAR], dt[OFFSET_MONTH]);
    var tmp := dt[OFFSET_DAY] + n;
    var monthDays := DaysOfMonth(dt[OFFSET_YEAR], dt[OFFSET_MONTH]);
    while tmp > monthDays || tmp <= 0
      invariant tmp == was[OFFSET_DAY] + n - monthDays * k
      invariant 1 <= dt[OFFSET_MONTH] <= 12 && MonthIndex(dt[OFFSET_YEAR], dt[OFFSET_MONTH]) == m + k
      invariant forall i :: OFFSET_HOUR <= i < DT_LEN ==> dt[i] == was[i]
      decreases if tmp > monthDays then tmp else if tmp <= 0 then monthDays + 1 - tmp else 0
    {
      if tmp > monthDays {
        AddMonth(dt, 1);
        tmp := tmp - monthDays;
        k := k + 1;
      } else {
        AddMonth(dt, -1);
        tmp := tmp + monthDays;
        k := k - 1;
      }
    }
    dt[OFFSET_DAY] := tmp;
    DivisionIs(was[OFFSET_DAY] + n - 1, monthDays, k, tmp - 1);
    MonthOf(dt[OFFSET_YEAR], dt[OFFSET_MONTH]);
    hide DaysOfMonth;
    assert dt[..] == AddedDays(was, n);
  }

  /** Hours, with whole days carried. */
  function AddedHours(dt: seq<int>, n: int): (r: seq<int>)
    requires |dt| == DT_LEN && 1 <= dt[OFFSET_MONTH] <= 12
    ensures |r| == DT_LEN
  {
    var hours := dt[OFFSET_HOUR] + n;
    AddedDays(dt[OFFSET_HOUR := hours % 24], hours / 24)
  }

  /** `addHour` */
  method AddHour(dt: array<int>, n: int)
    requires IsDT(dt) && 1 <= dt[OFFSET_MONTH] <= 12
    modifies dt
    ensures dt[..] == AddedHours(old(dt[..]), n)
  {
    hide AddedDays;
    var hour := dt[OFFSET_HOUR] + n;
    var addDayValue := TruncDiv(hour, 24);
    hour := TruncMod(hour, 24);
    if hour < 0 {
      hour := hour + 24;
      addDayValue := addDayValue - 1;
    }
    DivisionIs(dt[OFFSET_HOUR] + n, 24, addDayValue, hour);
    dt[OFFSET_HOUR] := hour;
    assert dt[..] == old(dt[..])[OFFSET_HOUR := hour];
    AddDay(dt, addDayValue);
  }

  function AddedMinutes(dt: seq<int>, n: int): (r: seq<int>)
    requires |dt| == DT_LEN && 1 <= dt[OFFSET_MONTH] <= 12
    ensures |r| == DT_LEN
  {
    var minutes := dt[OFFSET_MINUTE] + n;
    AddedHours(dt[OFFSET_MINUTE := minutes % 60], minutes / 60)
  }

  /** `addMinute` */
  method AddMinute(dt: array<int>, n: int)
    requires IsDT(dt) && 1 <= dt[OFFSET_MONTH] <= 12
    modifies dt
    ensures dt[..] == AddedMinutes(old(dt[..]), n)
  {
    hide AddedHours;
    var minute := dt[OFFSET_MINUTE] + n;
    var addHourValue := TruncDiv(minute, 60);
    minute := TruncMod(minute, 60);
    if minute < 0 {
      minute := minute + 60;
      addHourValue := addHourValue - 1;
    }
    DivisionIs(dt[OFFSET_MINUTE] + n, 60, addHourValue, minute);
    dt[OFFSET_MINUTE] := minute;
    assert dt[..] == old(dt[..])[OFFSET_MINUTE := minute];
    AddHour(dt, addHourValue);
  }

  /** Does changing between these zones move the clock? */
  predicate Shifts(srcTz: int, destTz: int) {
    srcTz != INVALID_VALUE && destTz != INVALID_VALUE && destTz != srcTz
  }

  function Transformed(dt: seq<int>, srcTz: int, destTz: int): (r: seq<int>)
    requires |dt| == DT_LEN && (Shifts(srcTz, destTz) ==> 1 <= dt[OFFSET_MONTH] <= 12)
    ensures |r| == DT_LEN
  {
    if Shifts(srcTz, destTz) then AddedMinutes(dt, destTz - srcTz)[OFFSET_TIMEZONE := destTz] else dt
  }

  /** `transformTZ` */
  method TransformTZ(dt: array<int>, defaultSrcTz: int, destTz: int)
    requires IsDT(dt) && (Shifts(defaultSrcTz, destTz) ==> 1 <= dt[OFFSET_MONTH] <= 12)
    modifies dt
    ensures dt[..] == Transformed(old(dt[..]), defaultSrcTz, destTz)
  {
    hide AddedMinutes;
    if defaultSrcTz != INVALID_VALUE && destTz != INVALID_VALUE && destTz != defaultSrcTz {
      AddMinute(dt, destTz - defaultSrcTz);
      dt[OFFSET_TIMEZONE] := destTz;
    }
  }

  // ---------- agreement with the calendar ----------

  predicate ValidDate(dt: seq<int>) {
    && |dt| == DT_LEN && 1 <= dt[OFFSET_MONTH] <= 12
    && 1 <= dt[OFFSET_DAY] <= DaysOfMonth(dt[OFFSET_YEAR], dt[OFFSET_MONTH])
    && 0 <= dt[OFFSET_HOUR] < 24 && 0 <= dt[OFFSET_MINUTE] < 60
  }

  /** Minutes since the first of January of year 0. */
  function AbsMinute(dt: seq<int>): int
    requires |dt| == DT_LEN
  {
    ((DaysUpTo(MonthIndex(dt[OFFSET_YEAR], dt[OFFSET_MONTH])) + dt[OFFSET_DAY] - 1) * 24 + dt[OFFSET_HOUR]) * 60
    + dt[OFFSET_MINUTE]
  }

  /** The whole days an addition of n minutes carries into the date. */
  function DayShift(dt: seq<int>, n: int): int
    requires |dt| == DT_LEN
  {
    (dt[OFFSET_HOUR] + (dt[OFFSET_MINUTE] + n) / 60) / 24
  }

  /** What using one month length for every step adds to the true number of days. */
  function Drift(dt: seq<int>, days: int): int
    requires |dt| == DT_LEN && 1 <= dt[OFFSET_MONTH] <= 12
  {
    var m, k := MonthIndex(dt[OFFSET_YEAR], dt[OFFSET_MONTH]), MonthSteps(dt, days);
    DaysUpTo(m + k) - DaysUpTo(m) - k * DaysOfMonth(dt[OFFSET_YEAR], dt[OFFSET_MONTH])
  }

  lemma DaysDrift(dt: seq<int>, n: int)
    requires |dt| == DT_LEN && 1 <= dt[OFFSET_MONTH] <= 12
    ensures var r := AddedDays(dt, n);
      DaysUpTo(MonthIndex(r[OFFSET_YEAR], r[OFFSET_MONTH])) + r[OFFSET_DAY]
      == DaysUpTo(MonthIndex(dt[OFFSET_YEAR], dt[OFFSET_MONTH])) + dt[OFFSET_DAY] + n + Drift(dt, n)
  {
    var md := DaysOfMonth(dt[OFFSET_YEAR], dt[OFFSET_MONTH]);
    hide DaysUpTo, DaysOfMonth;
    var x, k := dt[OFFSET_DAY] + n - 1, MonthSteps(dt, n);
    assert x == md * k + x % md;
    var m := MonthIndex(dt[OFFSET_YEAR], dt[OFFSET_MONTH]) + k;
    assert 12 * (m / 12) + m % 12 == m;
  }

  lemma ClockSplit(hour: int, minute: int, n: int)
    ensures var hours := hour + (minute + n) / 60;
      hours / 24 * 1440 + hours % 24 * 60 + (minute + n) % 60 == hour * 60 + minute + n
  {}

  /** For every n, `addMinute` adds n minutes plus its drift. */
  lemma MinutesDrift(dt: seq<int>, n: int)
    requires |dt| == DT_LEN && 1 <= dt[OFFSET_MONTH] <= 12
    ensures AbsMinute(AddedMinutes(dt, n)) == AbsMinute(dt) + n + 1440 * Drift(dt, DayShift(dt, n))
  {
    hide DaysUpTo, Drift, DaysOfMonth;
    var hours := dt[OFFSET_HOUR] + (dt[OFFSET_MINUTE] + n) / 60;
    var d := dt[OFFSET_MINUTE := (dt[OFFSET_MINUTE] + n) % 60][OFFSET_HOUR := hours % 24];
    assert AddedMinutes(dt, n) == AddedDays(d, hours / 24);
    DaysDrift(d, hours / 24);
    DriftOfDate(d, dt, hours / 24);
    var r := AddedDays(d, hours / 24);
    assert r[OFFSET_HOUR] == hours % 24 && r[OFFSET_MINUTE] == (dt[OFFSET_MINUTE] + n) % 60;
    ClockSplit(dt[OFFSET_HOUR], dt[OFFSET_MINUTE], n);
    hide AddedMinutes, AddedDays, MonthIndex;
  }

  lemma DriftOfDate(a: seq<int>, b: seq<int>, days: int)
    requires |a| == |b| == DT_LEN && 1 <= a[OFFSET_MONTH] <= 12 && a[..OFFSET_HOUR] == b[..OFFSET_HOUR]
    ensures 1 <= b[OFFSET_MONTH] <= 12 && Drift(a, days) == Drift(b, days)
  {
    assert forall i :: 0 <= i < OFFSET_HOUR ==> a[..OFFSET_HOUR][i] == a[i] && b[..OFFSET_HOUR][i] == b[i];
    assert a[OFFSET_YEAR] == b[OFFSET_YEAR] && a[OFFSET_MONTH] == b[OFFSET_MONTH] && a[OFFSET_DAY] == b[OFFSET_DAY];
    hide DaysUpTo, DaysOfMonth;
  }

  /** Exactly when the months stepped over are together as long as the first one repeated. */
  lemma MinutesExactIff(dt: seq<int>, n: int)
    requires |dt| == DT_LEN && 1 <= dt[OFFSET_MONTH] <= 12
    ensures AbsMinute(AddedMinutes(dt, n)) == AbsMinute(dt) + n <==> Drift(dt, DayShift(dt, n)) == 0
  {
    hide AbsMinute, Drift, AddedMinutes;
    MinutesDrift(dt, n);
  }

  lemma AddedFields(dt: seq<int>, n: int)
    requires |dt| == DT_LEN && 1 <= dt[OFFSET_MONTH] <= 12
    ensures var r := AddedMinutes(dt, n);
      && 1 <= r[OFFSET_MONTH] <= 12 && 0 <= r[OFFSET_HOUR] < 24 && 0 <= r[OFFSET_MINUTE] < 60
      && MonthIndex(r[OFFSET_YEAR], r[OFFSET_MONTH])
        == MonthIndex(dt[OFFSET_YEAR], dt[OFFSET_MONTH]) + MonthSteps(dt, DayShift(dt, n))
      && r[OFFSET_DAY] == (dt[OFFSET_DAY] + DayShift(dt, n) - 1) % DaysOfMonth(dt[OFFSET_YEAR], dt[OFFSET_MONTH]) + 1
      && r[OFFSET_SECOND..] == dt[OFFSET_SECOND..]
  {
    hide DaysOfMonth;
  }

  lemma ShiftBound(dt: seq<int>, n: int)
    requires |dt| == DT_LEN && 0 <= dt[OFFSET_HOUR] < 24 && 0 <= dt[OFFSET_MINUTE] < 60
    ensures 0 <= n <= 27 * 1440 ==> 0 <= DayShift(dt, n) <= 27
    ensures -27 * 1440 <= n < 0 ==> -27 <= DayShift(dt, n) <= 0
  {}

  /** Up to 27 days forward there is at most one step, and it does not pass the 27th. */
  lemma ForwardSteps(dt: seq<int>, days: int)
    requires |dt| == DT_LEN && 1 <= dt[OFFSET_MONTH] <= 12
    requires 1 <= dt[OFFSET_DAY] <= DaysOfMonth(dt[OFFSET_YEAR], dt[OFFSET_MONTH]) && 0 <= days <= 27
    ensures var day := (dt[OFFSET_DAY] + days - 1) % DaysOfMonth(dt[OFFSET_YEAR], dt[OFFSET_MONTH]) + 1;
      && Drift(dt, days) == 0
      && (MonthSteps(dt, days) == 0 ==> 1 <= day <= DaysOfMonth(dt[OFFSET_YEAR], dt[OFFSET_MONTH]))
      && (MonthSteps(dt, days) != 0 ==> 1 <= day <= 27)
  {
    var m, md := MonthIndex(dt[OFFSET_YEAR], dt[OFFSET_MONTH]), DaysOfMonth(dt[OFFSET_YEAR], dt[OFFSET_MONTH]);
    var x := dt[OFFSET_DAY] + days - 1;
    MonthOf(dt[OFFSET_YEAR], dt[OFFSET_MONTH]);
    NextMonth(m);
    hide DaysOfMonth, DaysUpTo;
    if x < md {
      DivisionIs(x, md, 0, x);
    } else {
      DivisionIs(x, md, 1, x - md);
    }
  }

  /** Up to 27 days forward the result is the date n minutes later, and valid. */
  lemma ForwardExact(dt: seq<int>, n: int)
    requires ValidDate(dt) && 0 <= n <= 27 * 1440
    ensures ValidDate(AddedMinutes(dt, n)) && AbsMinute(AddedMinutes(dt, n)) == AbsMinute(dt) + n
  {
    var r := AddedMinutes(dt, n);
    ShiftBound(dt, n);
    MinutesExactIff(dt, n);
    AddedFields(dt, n);
    ForwardSteps(dt, DayShift(dt, n));
    assert 28 <= DaysOfMonth(r[OFFSET_YEAR], r[OFFSET_MONTH]);
    if MonthSteps(dt, DayShift(dt, n)) == 0 {
      assert r[OFFSET_YEAR] == dt[OFFSET_YEAR] && r[OFFSET_MONTH] == dt[OFFSET_MONTH];
    }
    hide AddedMinutes, DaysOfMonth, AbsMinute, DayShift, MonthSteps, Drift;
  }

  /** Up to 27 days back there is at most one step. */
  lemma BackwardSteps(dt: seq<int>, days: int)
    requires |dt| == DT_LEN && 1 <= dt[OFFSET_MONTH] <= 12
    requires 1 <= dt[OFFSET_DAY] <= DaysOfMonth(dt[OFFSET_YEAR], dt[OFFSET_MONTH]) && -27 <= days <= 0
    ensures MonthSteps(dt, days) == if dt[OFFSET_DAY] + days >= 1 then 0 else -1
  {
    var md := DaysOfMonth(dt[OFFSET_YEAR], dt[OFFSET_MONTH]);
    var x := dt[OFFSET_DAY] + days - 1;
    hide DaysOfMonth;
    if x >= 0 {
      DivisionIs(x, md, 0, x);
    } else {
      DivisionIs(x, md, -1, x + md);
    }
  }

  lemma BackwardDrift(dt: seq<int>, days: int)
    requires |dt| == DT_LEN && 1 <= dt[OFFSET_MONTH] <= 12
    requires 1 <= dt[OFFSET_DAY] <= DaysOfMonth(dt[OFFSET_YEAR], dt[OFFSET_MONTH]) && -27 <= days <= 0
    ensures Drift(dt, days) == 0
      <==> (dt[OFFSET_DAY] + days >= 1
        || MonthLength(MonthIndex(dt[OFFSET_YEAR], dt[OFFSET_MONTH]) - 1) == DaysOfMonth(dt[OFFSET_YEAR], dt[OFFSET_MONTH]))
  {
    BackwardSteps(dt, days);
    NextMonth(MonthIndex(dt[OFFSET_YEAR], dt[OFFSET_MONTH]) - 1);
    hide DaysOfMonth, DaysUpTo, MonthLength, MonthSteps;
  }

  /** The day a step back into a month of the same length ends on is one of that month. */
  lemma BackwardValid(dt: seq<int>, n: int)
    requires ValidDate(dt) && -27 * 1440 <= n < 0
    requires dt[OFFSET_DAY] + DayShift(dt, n) >= 1
      || MonthLength(MonthIndex(dt[OFFSET_YEAR], dt[OFFSET_MONTH]) - 1) == DaysOfMonth(dt[OFFSET_YEAR], dt[OFFSET_MONTH])
    ensures ValidDate(AddedMinutes(dt, n))
  {
    var r, days := AddedMinutes(dt, n), DayShift(dt, n);
    var md := DaysOfMonth(dt[OFFSET_YEAR], dt[OFFSET_MONTH]);
    ShiftBound(dt, n);
    AddedFields(dt, n);
    BackwardSteps(dt, days);
    MonthOf(r[OFFSET_YEAR], r[OFFSET_MONTH]);
    MonthOf(dt[OFFSET_YEAR], dt[OFFSET_MONTH]);
    assert 1 <= (dt[OFFSET_DAY] + days - 1) % md + 1 <= md;
    hide AddedMinutes, DaysOfMonth, DayShift, MonthSteps, MonthLength;
  }

  /** Up to 27 days back it is exactly when the date stays in its month or the month
      entered is as long as the one left, and then the result is a valid date. */
  lemma BackwardExactIff(dt: seq<int>, n: int)
    requires ValidDate(dt) && -27 * 1440 <= n < 0
    ensures
      AbsMinute(AddedMinutes(dt, n)) == AbsMinute(dt) + n
      <==> (dt[OFFSET_DAY] + DayShift(dt, n) >= 1
        || MonthLength(MonthIndex(dt[OFFSET_YEAR], dt[OFFSET_MONTH]) - 1) == DaysOfMonth(dt[OFFSET_YEAR], dt[OFFSET_MONTH]))
    ensures AbsMinute(AddedMinutes(dt, n)) == AbsMinute(dt) + n ==> ValidDate(AddedMinutes(dt, n))
  {
    ShiftBound(dt, n);
    hide AddedMinutes, DaysOfMonth, AbsMinute, DayShift, Drift, MonthLength;
    MinutesExactIff(dt, n);
    BackwardDrift(dt, DayShift(dt, n));
    if AbsMinute(AddedMinutes(dt, n)) == AbsMinute(dt) + n {
      BackwardValid(dt, n);
    }
  }

  /** One minute before the first of March is "the 31st of February". */
  lemma BackwardInvalid()
    ensures var dt := [2024, 3, 1, 0, 0, 0, 0, 0];
      ValidDate(dt) && AddedMinutes(dt, -1) == [2024, 2, 31, 23, 59, 0, 0, 0] && !ValidDate(AddedMinutes(dt, -1))
  {
    var dt := [2024, 3, 1, 0, 0, 0, 0, 0];
    var d := dt[OFFSET_MINUTE := 59][OFFSET_HOUR := 23];
    assert AddedMinutes(dt, -1) == AddedDays(d, -1);
  }
}
