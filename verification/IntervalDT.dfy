/**
 Day-time intervals (dm/q.go): conversion between kinds with rounding and carries, the
 field checks, and the wire form. Fields are days, hours, minutes, seconds, microseconds.
 */
module IntervalDT {
  import opened Bytes
  import opened Division
  import opened IntervalScale
  import opened LittleEndian
  import opened Options
  import opened Text

  const QUA_D: int := 3
  const QUA_DH: int := 4
  const QUA_DHM: int := 5
  const QUA_DHMS: int := 6
  const QUA_H: int := 7
  const QUA_HM: int := 8
  const QUA_HMS: int := 9
  const QUA_M: int := 10
  const QUA_MS: int := 11
  const QUA_S: int := 12

  const SECDPREC_MAX: int := 6

  datatype DT = DT(kind: int, leadScale: int, secScale: int, negative: bool,
                   days: int, hours: int, minutes: int, seconds: int, fraction: int, scaleForSvr: int)

  function Fields(dt: DT): (f: seq<int>)
    ensures |f| == 5
  {
    [dt.days, dt.hours, dt.minutes, dt.seconds, dt.fraction]
  }

  const MICROS: int := 1000000

  /** The length of an interval in microseconds. */
  function Length(f: seq<int>): int
    requires |f| == 5
  {
    (((f[0] * 24 + f[1]) * 60 + f[2]) * 60 + f[3]) * MICROS + f[4]
  }

  predicate IsKind(kind: int) { QUA_D <= kind <= QUA_S }

  /** Index of the leading field of a kind. */
  function First(kind: int): int {
    if kind <= QUA_DHMS then 0 else if kind <= QUA_HMS then 1 else if kind <= QUA_MS then 2 else 3
  }

  /** Index of the last field of a kind; seconds come with their fraction. */
  function Last(kind: int): int {
    if kind == QUA_D then 0 else if kind in {QUA_DH, QUA_H} then 1 else if kind in {QUA_DHM, QUA_HM, QUA_M} then 2 else 4
  }

  predicate EndsInSeconds(kind: int) { Last(kind) == 4 }

  function Limit(i: int): int { if i == 1 then 24 else if i < 4 then 60 else MICROS }

  /** A field of a carried interval: zero outside the kind, below its limit unless it leads. */
  predicate FieldOk(kind: int, i: int, v: int) {
    && v >= 0
    && (i < First(kind) || i > Last(kind) ==> v == 0)
    && (i > First(kind) ==> v < Limit(i))
  }

  predicate Carried(kind: int, f: seq<int>) {
    && |f| == 5 && FieldOk(kind, 0, f[0]) && FieldOk(kind, 1, f[1]) && FieldOk(kind, 2, f[2])
    && FieldOk(kind, 3, f[3]) && FieldOk(kind, 4, f[4])
  }

  /** By the protocol's kind codes, 3 for DAY to 12 for SECOND: which fields a kind has
      and how large those behind the first may be. */
  lemma CarriedMeans(kind: int, f: seq<int>)
    requires 3 <= kind <= 12
    ensures var first, last := [0, 0, 0, 0, 1, 1, 1, 2, 2, 3][kind - 3], [0, 1, 2, 4, 1, 2, 4, 2, 4, 4][kind - 3];
      Carried(kind, f) <==>
        |f| == 5 && forall i :: 0 <= i < 5 ==>
          && f[i] >= 0
          && (i < first || i > last ==> f[i] == 0)
          && (i > first ==> f[i] < [0, 24, 60, 60, 1000000][i])
  {
    var first, last := [0, 0, 0, 0, 1, 1, 1, 2, 2, 3][kind - 3], [0, 1, 2, 4, 1, 2, 4, 2, 4, 4][kind - 3];
    assert first == First(kind) && last == Last(kind);
    assert forall i :: 1 <= i < 5 ==> Limit(i) == [0, 24, 60, 60, 1000000][i];
    hide First, Last, Limit;
  }

  /** Microseconds in each field. */
  lemma LengthMeans(f: seq<int>)
    requires |f| == 5
    ensures Length(f) == 86400000000 * f[0] + 3600000000 * f[1] + 60000000 * f[2] + 1000000 * f[3] + f[4]
  {}

  /** Kind and length determine a carried interval, so the contracts below, which give
      both, leave the fields no freedom. */
  lemma CarriedUnique(kind: int, f: seq<int>, g: seq<int>)
    requires IsKind(kind) && Carried(kind, f) && Carried(kind, g) && Length(f) == Length(g)
    ensures f == g
  {
    var fs, gs := ((f[0] * 24 + f[1]) * 60 + f[2]) * 60 + f[3], ((g[0] * 24 + g[1]) * 60 + g[2]) * 60 + g[3];
    assert fs == gs && f[4] == g[4];
  }

  // ---------- carries ----------

  /** Every field below its limit, as far as a kind has carries. */
  predicate Below(a: array<int>, kind: int, i: int)
    requires a.Length == 5 && 0 <= i < 5
    reads a
  {
    0 <= a[i] && (i > First(kind) ==> a[i] < Limit(i))
  }

  /** `incrementDay` */
  method IncrementDay(a: array<int>)
    requires a.Length == 5
    modifies a
    ensures a[..] == old(a[..])[0 := old(a[0]) + 1]
  {
    a[0] := a[0] + 1;
  }

  /** `incrementHour`: adds one hour, carrying into the days if the kind has them. */
  method IncrementHour(destType: int, a: array<int>)
    requires a.Length == 5 && IsKind(destType) && Last(destType) >= 1 && First(destType) <= 1
    requires Below(a, destType, 0) && Below(a, destType, 1)
    modifies a
    ensures Length(a[..]) == old(Length(a[..])) + 3600 * MICROS
    ensures Below(a, destType, 0) && Below(a, destType, 1)
    ensures First(destType) == 1 ==> a[0] == old(a[0])
    ensures a[2] == old(a[2]) && a[3] == old(a[3]) && a[4] == old(a[4])
  {
    a[1] := a[1] + 1;
    if a[1] == 24 && destType < QUA_H {
      IncrementDay(a);
      a[1] := 0;
    }
  }

  /** `incrementMinute` */
  method IncrementMinute(destType: int, a: array<int>)
    requires a.Length == 5 && IsKind(destType) && Last(destType) >= 2 && First(destType) <= 2
    requires Below(a, destType, 0) && Below(a, destType, 1) && Below(a, destType, 2)
    modifies a
    ensures Length(a[..]) == old(Length(a[..])) + 60 * MICROS
    ensures Below(a, destType, 0) && Below(a, destType, 1) && Below(a, destType, 2)
    ensures First(destType) >= 1 ==> a[0] == old(a[0])
    ensures First(destType) >= 2 ==> a[1] == old(a[1])
    ensures a[3] == old(a[3]) && a[4] == old(a[4])
  {
    a[2] := a[2] + 1;
    if a[2] == 60 && destType < QUA_M {
      IncrementHour(destType, a);
      a[2] := 0;
    }
  }

  /** `incrementSecond` */
  method IncrementSecond(destType: int, a: array<int>)
    requires a.Length == 5 && IsKind(destType) && EndsInSeconds(destType)
    requires Below(a, destType, 0) && Below(a, destType, 1) && Below(a, destType, 2) && Below(a, destType, 3)
    modifies a
    ensures Length(a[..]) == old(Length(a[..])) + MICROS
    ensures Below(a, destType, 0) && Below(a, destType, 1) && Below(a, destType, 2) && Below(a, destType, 3)
    ensures First(destType) >= 1 ==> a[0] == old(a[0])
    ensures First(destType) >= 2 ==> a[1] == old(a[1])
    ensures First(destType) >= 3 ==> a[2] == old(a[2])
    ensures a[4] == old(a[4])
  {
    a[3] := a[3] + 1;
    if a[3] == 60 && destType < QUA_S {
      IncrementMinute(destType, a);
      a[3] := 0;
    }
  }

  // ---------- the second scale ----------

  /** The nearest multiple of a unit, halves going up. */
  function RoundHalfUp(length: int, unit: int): int
    requires unit > 0
  {
    (length + unit / 2) / unit * unit
  }

  /** Does the conversion cut the fraction to `destSec` digits? */
  predicate Reduces(secScale: int, destSec: int) { destSec == 0 || destSec < secScale }

  /** The microseconds one digit in the last place of the new second scale stands for. */
  function SecUnit(destSec: int): (u: int)
    requires 0 <= destSec < SECDPREC_MAX
    ensures u >= 10 && u % 10 == 0
  {
    assert Pow10(6 - destSec) == 10 * Pow10(5 - destSec);
    Pow10(6 - destSec)
  }

  /** The case in which cutting the fraction works: it rounds up, or no digit is kept. */
  predicate CutsWell(fraction: int, destSec: int)
    requires 0 <= destSec < SECDPREC_MAX && fraction >= 0
  {
    fraction % SecUnit(destSec) * 2 >= SecUnit(destSec) || fraction < SecUnit(destSec)
  }

  /** The length left after cutting the fraction: rounded, or, in the branch that does not
      round up, with the kept digits in the place of the lost ones. */
  function CutLength(length: int, fraction: int, destSec: int): int
    requires 0 <= destSec < SECDPREC_MAX && 0 <= fraction
  {
    if CutsWell(fraction, destSec) then length - fraction + RoundHalfUp(fraction, SecUnit(destSec))
    else length - fraction + fraction / SecUnit(destSec)
  }

  /** f = 10n a + n b + r with a digit b. */
  lemma DigitSplit(f: nat, n: nat)
    requires n > 0
    ensures var b := f / n % 10; 0 <= n * b + f % n < 10 * n && f == 10 * n * (f / n / 10) + (n * b + f % n)
  {
    var q, r := f / n, f % n;
    var a, b := q / 10, q % 10;
    assert q == 10 * a + b;
    Distribute(n, 10 * a, -b);
    Regroup(a, n);
    ProductNonNegative(n, b);
    if b < 9 {
      ProductGrows(n, b, 9);
    }
    assert f == n * q + r;
  }

  lemma DigitOfQuotient(f: nat, n: nat)
    requires n > 0
    ensures f / n / 10 == f / (10 * n)
    ensures (f / n) % 10 >= 5 <==> f % (10 * n) >= 5 * n
  {
    var b := f / n % 10;
    DigitSplit(f, n);
    DivisionIs(f, 10 * n, f / n / 10, n * b + f % n);
    if b >= 5 {
      ProductNonNegative(n, b - 5);
      Distribute(n, b, 5);
    } else {
      ProductGrows(n, b, 5);
    }
  }

  lemma RoundsUp(f: nat, n: nat)
    requires n > 0
    ensures f % (10 * n) >= 5 * n ==> RoundHalfUp(f, 10 * n) == (f / (10 * n) + 1) * (10 * n)
    ensures f < 5 * n ==> RoundHalfUp(f, 10 * n) == 0
    ensures f < 10 * n && f % (10 * n) < 5 * n ==> f < 5 * n
  {
    var u, a, r := 10 * n, f / (10 * n), f % (10 * n);
    assert f == u * a + r;
    assert u / 2 == 5 * n;
    if r >= 5 * n {
      Distribute(u, a, -1);
      DivisionIs(f + 5 * n, u, a + 1, r - 5 * n);
    }
    if f < u {
      DivisionIs(f, u, 0, f);
      if f < 5 * n {
        DivisionIs(f + 5 * n, u, 0, f + 5 * n);
      }
    }
  }

  lemma FractionOf(kind: int, f: seq<int>)
    requires IsKind(kind) && Carried(kind, f)
    ensures |f| == 5 && 0 <= f[4] < MICROS
  {}

  lemma SetFraction(kind: int, f: seq<int>, fraction: int)
    requires IsKind(kind) && EndsInSeconds(kind) && Carried(kind, f) && 0 <= fraction < MICROS
    ensures Carried(kind, f[4 := fraction]) && Length(f[4 := fraction]) == Length(f) - f[4] + fraction
  {}

  /** The fraction rounded up to a whole second. */
  method NextSecond(destType: int, dest: array<int>)
    requires dest.Length == 5 && IsKind(destType) && EndsInSeconds(destType)
    requires Carried(destType, dest[..])
    modifies dest
    ensures Carried(destType, dest[..])
    ensures Length(dest[..]) == old(Length(dest[..])) - old(dest[4]) + MICROS
  {
    dest[4] := 0;
    IncrementSecond(destType, dest);
  }

  /** `convertMSecond` */
  method ConvertMSecond(secScale: int, destType: int, dest: array<int>, destSec: int)
    requires dest.Length == 5 && IsKind(destType) && EndsInSeconds(destType)
    requires 0 <= secScale <= SECDPREC_MAX && 0 <= destSec
    requires Carried(destType, dest[..])
    modifies dest
    ensures Carried(destType, dest[..])
    ensures Length(dest[..]) ==
      if Reduces(secScale, destSec) then CutLength(old(Length(dest[..])), old(dest[4]), destSec) else old(Length(dest[..]))
  {
    var orgFraction := dest[4];
    if destSec == 0 || destSec < secScale {
      var n := Pow10(6 - destSec - 1);
      CutSteps(orgFraction, destSec, n);
      hide RoundHalfUp, SecUnit, Pow10, Length, Carried;
      ghost var before := dest[..];
      FractionOf(destType, before);
      var f := orgFraction / n / 10;
      if (orgFraction / n) % 10 >= 5 {
        f := f + 1;
        f := f * n * 10;
        if f == 1000000 {
          NextSecond(destType, dest);
          return;
        }
      }
      dest[4] := f;
      assert dest[..] == before[4 := f];
      SetFraction(destType, before, f);
    }
  }

  /** What the arithmetic of `convertMSecond` computes. */
  lemma CutSteps(f: int, destSec: int, n: int)
    requires 0 <= f < MICROS && 0 <= destSec < SECDPREC_MAX && n == Pow10(6 - destSec - 1)
    ensures n > 0
    ensures var cut := CutLength(0, f, destSec) + f;
      if (f / n) % 10 >= 5 then (f / n / 10 + 1) * n * 10 == cut && 0 <= cut <= MICROS
      else f / n / 10 == cut && 0 <= cut <= f
  {
    assert SecUnit(destSec) == 10 * n;
    CutBounds(f, destSec);
    DigitOfQuotient(f, n);
    RoundsUp(f, n);
    Regroup(f / (10 * n) + 1, n);
    QuotientSmall(f, 10 * n);
    hide RoundHalfUp, SecUnit, Pow10;
  }

  lemma QuotientSmall(f: nat, u: nat)
    requires u > 0
    ensures f < u ==> f / u == 0
  {
    if f < u {
      DivisionIs(f, u, 0, f);
    }
  }

  lemma Regroup(x: int, n: int)
    ensures x * n * 10 == x * (10 * n)
  {}

  /** Rounding stays within a second. */
  lemma CutBounds(f: int, destSec: int)
    requires 0 <= f < MICROS && 0 <= destSec < SECDPREC_MAX
    ensures 0 <= RoundHalfUp(f, SecUnit(destSec)) <= MICROS
    ensures 0 <= f / SecUnit(destSec) <= f
  {
    UnitValue(destSec);
    hide SecUnit;
  }

  lemma UnitValue(destSec: int)
    requires 0 <= destSec < SECDPREC_MAX
    ensures SecUnit(destSec) == [1000000, 100000, 10000, 1000, 100, 10][destSec]
  {
    assert Pow10(1) == 10 && Pow10(2) == 100 && Pow10(3) == 1000;
    assert Pow10(4) == 10000 && Pow10(5) == 100000 && Pow10(6) == 1000000;
  }

  // ---------- conversion ----------

  /** An interval as the driver holds it: carried, with the scales its server scale packs. */
  ghost predicate WellFormed(dt: DT) {
    && IsKind(dt.kind) && Carried(dt.kind, Fields(dt))
    && 0 <= dt.leadScale <= 15 && 0 <= dt.secScale <= SECDPREC_MAX
    && dt.scaleForSvr == dt.kind * 0x100 + dt.leadScale * 0x10 + dt.secScale
  }

  function DestSec(scale: int): nat { scale % 0x10 }

  // Each group of kinds, spread over days, hours, minutes and seconds.

  ghost predicate Spread(dt: DT, f: seq<int>) {
    Carried(QUA_DHMS, f) && Length(f) == Length(Fields(dt)) && f[4] == dt.fraction
  }

  lemma SpreadDays(dt: DT)
    requires WellFormed(dt) && dt.kind <= QUA_DHMS
    ensures Spread(dt, Fields(dt))
  {
    hide Length;
  }

  lemma SpreadHours(dt: DT)
    requires WellFormed(dt) && QUA_H <= dt.kind <= QUA_HMS
    ensures Spread(dt, [dt.hours / 24, dt.hours % 24, dt.minutes, dt.seconds, dt.fraction])
  {}

  lemma SpreadMinutes(dt: DT)
    requires WellFormed(dt) && QUA_M <= dt.kind <= QUA_MS
    ensures Spread(dt, [dt.minutes / 1440, dt.minutes % 1440 / 60, dt.minutes % 1440 % 60, dt.seconds, dt.fraction])
  {
    var m := dt.minutes;
    assert (m / 1440 * 24 + m % 1440 / 60) * 60 + m % 1440 % 60 == m;
  }

  lemma SpreadSeconds(dt: DT)
    requires WellFormed(dt) && dt.kind == QUA_S
    ensures var rest := dt.seconds % 86400;
      Spread(dt, [dt.seconds / 86400, rest / 3600, rest % 3600 / 60, rest % 3600 % 60, dt.fraction])
  {
    SplitSeconds(dt.seconds);
  }

  /** The `orgDT` fields: the same length spread over days, hours, minutes and seconds. */
  method Origin(dt: DT) returns (org: array<int>)
    requires WellFormed(dt)
    ensures fresh(org) && Carried(QUA_DHMS, org[..])
    ensures Length(org[..]) == Length(Fields(dt)) && org[4] == dt.fraction
  {
    hide Length, Carried;
    org := new int[5](_ => 0);
    if dt.kind <= QUA_DHMS {
      SpreadDays(dt);
      org[0], org[1], org[2], org[3], org[4] := dt.days, dt.hours, dt.minutes, dt.seconds, dt.fraction;
    } else if dt.kind <= QUA_HMS {
      SpreadHours(dt);
      org[0], org[1] := dt.hours / 24, dt.hours % 24;
      org[2], org[3], org[4] := dt.minutes, dt.seconds, dt.fraction;
    } else if dt.kind <= QUA_MS {
      SpreadMinutes(dt);
      org[0], org[1], org[2] := dt.minutes / (24 * 60), dt.minutes % (24 * 60) / 60, dt.minutes % (24 * 60) % 60;
      org[3], org[4] := dt.seconds, dt.fraction;
    } else {
      SpreadSeconds(dt);
      var rest := dt.seconds % (24 * 60 * 60);
      org[0], org[1] := dt.seconds / (24 * 60 * 60), rest / (60 * 60);
      org[2], org[3], org[4] := rest % (60 * 60) / 60, rest % (60 * 60) % 60, dt.fraction;
    }
    assert org[..] == [org[0], org[1], org[2], org[3], org[4]];
  }

  lemma SplitSeconds(s: nat)
    ensures var rest := s % 86400;
      ((s / 86400 * 24 + rest / 3600) * 60 + rest % 3600 / 60) * 60 + rest % 3600 % 60 == s
  {}

  /** The smallest unit of a kind without seconds. */
  function Unit(kind: int): (u: int)
    ensures u > 0
  {
    if Last(kind) == 0 then 86400 * MICROS else if Last(kind) == 1 then 3600 * MICROS else 60 * MICROS
  }

  /** The length a converted interval has. */
  function Target(dt: DT, kind: int, destSec: int): int
    requires dt.fraction >= 0 && dt.secScale <= SECDPREC_MAX && destSec >= 0
  {
    if !EndsInSeconds(kind) then RoundHalfUp(Length(Fields(dt)), Unit(kind))
    else if Reduces(dt.secScale, destSec) then CutLength(Length(Fields(dt)), dt.fraction, destSec)
    else Length(Fields(dt))
  }

  lemma RoundSplit(length: int, u: int, a: int, r: int)
    requires u > 0 && u % 2 == 0 && length == u * a + r && 0 <= r < u
    ensures RoundHalfUp(length, u) == u * (if r * 2 >= u then a + 1 else a)
  {
    if r * 2 >= u {
      Distribute(u, a, -1);
      DivisionIs(length + u / 2, u, a + 1, r - u / 2);
    } else {
      DivisionIs(length + u / 2, u, a, r + u / 2);
    }
  }

  /** The field after the last kept one decides which way the length is rounded. */
  lemma RoundDays(f: seq<int>)
    requires Carried(QUA_DHMS, f)
    ensures RoundHalfUp(Length(f), Unit(QUA_D)) == Unit(QUA_D) * (if f[1] >= 12 then f[0] + 1 else f[0])
  {
    hide RoundHalfUp;
    RoundSplit(Length(f), Unit(QUA_D), f[0], ((f[1] * 60 + f[2]) * 60 + f[3]) * MICROS + f[4]);
  }

  lemma RoundHours(f: seq<int>)
    requires Carried(QUA_DHMS, f)
    ensures var h := f[0] * 24 + f[1];
      RoundHalfUp(Length(f), Unit(QUA_H)) == Unit(QUA_H) * (if f[2] >= 30 then h + 1 else h)
  {
    hide RoundHalfUp;
    RoundSplit(Length(f), Unit(QUA_H), f[0] * 24 + f[1], (f[2] * 60 + f[3]) * MICROS + f[4]);
  }

  lemma RoundMinutes(f: seq<int>)
    requires Carried(QUA_DHMS, f)
    ensures var m := (f[0] * 24 + f[1]) * 60 + f[2];
      RoundHalfUp(Length(f), Unit(QUA_M)) == Unit(QUA_M) * (if f[3] >= 30 then m + 1 else m)
  {
    hide RoundHalfUp;
    RoundSplit(Length(f), Unit(QUA_M), (f[0] * 24 + f[1]) * 60 + f[2], f[3] * MICROS + f[4]);
  }

  /** Rounding to whole days. */
  method ToDays(org: array<int>, dest: array<int>)
    requires org.Length == 5 && dest.Length == 5 && org != dest
    requires Carried(QUA_DHMS, org[..]) && dest[..] == [0, 0, 0, 0, 0]
    modifies dest
    ensures Carried(QUA_D, dest[..]) && Length(dest[..]) == RoundHalfUp(Length(org[..]), Unit(QUA_D))
  {
    RoundDays(org[..]);
    hide RoundHalfUp;
    dest[0] := org[0];
    if org[1] >= 12 {
      IncrementDay(dest);
    }
  }

  /** Rounding to whole hours, with or without days. */
  method ToHours(kind: int, org: array<int>, dest: array<int>)
    requires kind in {QUA_DH, QUA_H} && org.Length == 5 && dest.Length == 5 && org != dest
    requires Carried(QUA_DHMS, org[..]) && dest[..] == [0, 0, 0, 0, 0]
    modifies dest
    ensures Carried(kind, dest[..]) && Length(dest[..]) == RoundHalfUp(Length(org[..]), Unit(kind))
  {
    RoundHours(org[..]);
    hide RoundHalfUp;
    if kind == QUA_DH {
      dest[0], dest[1] := org[0], org[1];
    } else {
      dest[1] := org[0] * 24 + org[1];
    }
    if org[2] >= 30 {
      IncrementHour(kind, dest);
    }
  }

  /** The whole minutes, with hours, days or neither. */
  method CopyMinutes(kind: int, org: array<int>, dest: array<int>)
    requires kind in {QUA_DHM, QUA_HM, QUA_M} && org.Length == 5 && dest.Length == 5 && org != dest
    requires Carried(QUA_DHMS, org[..]) && dest[..] == [0, 0, 0, 0, 0]
    modifies dest
    ensures Carried(kind, dest[..]) && Length(dest[..]) == Unit(kind) * ((org[0] * 24 + org[1]) * 60 + org[2])
  {
    if kind == QUA_DHM {
      dest[0], dest[1], dest[2] := org[0], org[1], org[2];
    } else if kind == QUA_HM {
      dest[1], dest[2] := org[0] * 24 + org[1], org[2];
    } else {
      dest[2] := org[0] * 24 * 60 + org[1] * 60 + org[2];
    }
    assert dest[3] == dest[4] == 0;
    hide Length, Carried;
    WholeMinutes(kind, org[..], dest[..]);
  }

  /** Rounding to whole minutes. */
  method ToMinutes(kind: int, org: array<int>, dest: array<int>)
    requires kind in {QUA_DHM, QUA_HM, QUA_M} && org.Length == 5 && dest.Length == 5 && org != dest
    requires Carried(QUA_DHMS, org[..]) && dest[..] == [0, 0, 0, 0, 0]
    modifies dest
    ensures Carried(kind, dest[..]) && Length(dest[..]) == RoundHalfUp(Length(org[..]), Unit(kind))
  {
    hide RoundHalfUp, Length;
    RoundMinutes(org[..]);
    CopyMinutes(kind, org, dest);
    if org[3] >= 30 {
      IncrementMinute(kind, dest);
    }
  }

  lemma WholeMinutes(kind: int, org: seq<int>, f: seq<int>)
    requires kind in {QUA_DHM, QUA_HM, QUA_M} && Carried(QUA_DHMS, org) && |f| == 5 && f[3] == f[4] == 0
    requires kind == QUA_DHM ==> f[0] == org[0] && f[1] == org[1] && f[2] == org[2]
    requires kind == QUA_HM ==> f[0] == 0 && f[1] == org[0] * 24 + org[1] && f[2] == org[2]
    requires kind == QUA_M ==> f[0] == f[1] == 0 && f[2] == org[0] * 24 * 60 + org[1] * 60 + org[2]
    ensures Carried(kind, f) && Length(f) == Unit(kind) * ((org[0] * 24 + org[1]) * 60 + org[2])
  {}

  /** Seconds and fraction are copied, then the fraction is fitted to the second scale. */
  method ToSeconds(secScale: int, kind: int, org: array<int>, dest: array<int>, destSec: int)
    requires IsKind(kind) && EndsInSeconds(kind) && org.Length == 5 && dest.Length == 5 && org != dest
    requires 0 <= secScale <= SECDPREC_MAX && 0 <= destSec
    requires Carried(QUA_DHMS, org[..]) && dest[..] == [0, 0, 0, 0, 0]
    modifies dest
    ensures Carried(kind, dest[..])
    ensures Length(dest[..]) ==
      if Reduces(secScale, destSec) then CutLength(Length(org[..]), org[4], destSec) else Length(org[..])
  {
    hide CutLength, Reduces;
    if kind == QUA_DHMS {
      dest[0], dest[1], dest[2], dest[3] := org[0], org[1], org[2], org[3];
    } else if kind == QUA_HMS {
      dest[1], dest[2], dest[3] := org[0] * 24 + org[1], org[2], org[3];
    } else if kind == QUA_MS {
      dest[2], dest[3] := org[0] * 24 * 60 + org[1] * 60 + org[2], org[3];
    } else {
      dest[3] := org[0] * 24 * 60 * 60 + org[1] * 60 * 60 + org[2] * 60 + org[3];
    }
    dest[4] := org[4];
    ConvertMSecond(secScale, kind, dest, destSec);
  }

  /** Does the leading field fit in so many digits? */
  predicate LeadFits(lead: int, prec: int) {
    prec >= 1 && lead < Pow10(prec)
  }

  lemma LeadDigits(lead: nat, prec: nat)
    ensures |Itoa(lead)| <= prec <==> LeadFits(lead, prec)
  {
    ItoaDenotes(lead);
    if prec >= 1 {
      ItoaLength(lead, prec);
    }
  }

  /** The switch over the ten kinds. */
  method Convert(dt: DT, destType: int, secScale: nat, org: array<int>, dest: array<int>)
    requires WellFormed(dt) && IsKind(destType) && org.Length == 5 && dest.Length == 5 && org != dest
    requires Carried(QUA_DHMS, org[..]) && Length(org[..]) == Length(Fields(dt)) && org[4] == dt.fraction
    requires dest[..] == [0, 0, 0, 0, 0]
    modifies dest
    ensures Carried(destType, dest[..]) && Length(dest[..]) == Target(dt, destType, secScale)
  {
    hide RoundHalfUp, CutLength, Carried, Length, Reduces;
    if destType == QUA_D {
      ToDays(org, dest);
    } else if destType in {QUA_DH, QUA_H} {
      ToHours(destType, org, dest);
    } else if destType in {QUA_DHM, QUA_HM, QUA_M} {
      ToMinutes(destType, org, dest);
    } else {
      ToSeconds(dt.secScale, destType, org, dest, secScale);
    }
  }

  /** `convertTo`; None is the overflow error. A kind outside the ten is not refused: the
      result is an empty interval. */
  method ConvertTo(dt: DT, scale: int) returns (r: Option<DT>)
    requires WellFormed(dt)
    ensures IsKind(DestKind(scale)) && r.Some? ==>
      && r.value.kind == DestKind(scale) && Carried(r.value.kind, Fields(r.value))
      && Length(Fields(r.value)) == Target(dt, DestKind(scale), DestSec(scale))
    ensures IsKind(DestKind(scale)) ==>
      (r.Some? <==> LeadFits(Target(dt, DestKind(scale), DestSec(scale)) / LeadUnit(DestKind(scale)), DestLead(scale)))
    ensures !IsKind(DestKind(scale)) ==> r.Some? && Fields(r.value) == [0, 0, 0, 0, 0] && r.value.kind == DestKind(scale)
    ensures r.Some? ==>
      && r.value.negative == dt.negative && r.value.scaleForSvr == scale
      && r.value.leadScale == DestLead(scale) && r.value.secScale == DestSec(scale)
  {
    var destType, leadPrec, secScale := DestKind(scale), DestLead(scale), DestSec(scale);
    var org := Origin(dt);
    var dest := new int[5](_ => 0);
    assert dest[..] == [0, 0, 0, 0, 0];
    hide Target, Carried, Length, LeadFits, Pow10, Itoa;
    if IsKind(destType) {
      Convert(dt, destType, secScale, org, dest);
      LeadOfLength(destType, dest[..]);
      LeadDigits(dest[First(destType)], leadPrec);
      if leadPrec < |Itoa(dest[First(destType)])| {
        return None;
      }
    }
    var d := DT(destType, leadPrec, secScale, dt.negative, dest[0], dest[1], dest[2], dest[3], dest[4], scale);
    assert Fields(d) == dest[..];
    r := Some(d);
  }

  /** One unit of the leading field. */
  function LeadUnit(kind: int): (u: int)
    ensures u > 0
  {
    if First(kind) == 0 then 86400 * MICROS
    else if First(kind) == 1 then 3600 * MICROS
    else if First(kind) == 2 then 60 * MICROS
    else MICROS
  }

  /** The leading field of a carried interval is its length in whole leading units. */
  lemma LeadOfLength(kind: int, f: seq<int>)
    requires IsKind(kind) && Carried(kind, f)
    ensures 0 <= f[First(kind)] == Length(f) / LeadUnit(kind)
  {
    DivisionIs(Length(f), LeadUnit(kind), f[First(kind)], Length(f) - LeadUnit(kind) * f[First(kind)]);
  }

  // ---------- how far a conversion is from the interval ----------

  lemma RoundClose(length: int, unit: int)
    requires unit > 0 && unit % 2 == 0
    ensures -unit < (RoundHalfUp(length, unit) - length) * 2 <= unit
    ensures RoundHalfUp(length, unit) % unit == 0
  {
    var q := (length + unit / 2) / unit;
    assert length + unit / 2 == unit * q + (length + unit / 2) % unit;
    assert RoundHalfUp(length, unit) == unit * q;
    DivisionIs(unit * q, unit, q, 0);
  }

  /** To a kind without seconds, the nearest whole day, hour or minute, halves going up. */
  lemma WithinHalfUnit(dt: DT, kind: int, destSec: int)
    requires WellFormed(dt) && kind in {3, 4, 5, 7, 8, 10} && destSec >= 0
    ensures var u := if kind == 3 then 86400000000 else if kind in {4, 7} then 3600000000 else 60000000;
      && -u < (Target(dt, kind, destSec) - Length(Fields(dt))) * 2 <= u
      && Target(dt, kind, destSec) % u == 0
  {
    hide RoundHalfUp, Length;
    RoundClose(Length(Fields(dt)), Unit(kind));
  }

  /** To a kind with seconds and fewer digits, branch by branch: rounded up, or the whole
      fraction gone if no digit is left of it, or else the kept digits as microseconds. */
  lemma CutMeans(dt: DT, kind: int, destSec: int)
    requires WellFormed(dt) && kind in {6, 9, 11, 12} && 0 <= destSec < 6 && (destSec == 0 || destSec < dt.secScale)
    ensures var u, f := [1000000, 100000, 10000, 1000, 100, 10][destSec], dt.fraction;
      Target(dt, kind, destSec) == Length(Fields(dt)) - f
        + (if f % u * 2 >= u then (f / u + 1) * u else if f < u then 0 else f / u)
  {
    UnitValue(destSec);
    var u, f := SecUnit(destSec), dt.fraction;
    RoundSplit(f, u, f / u, f % u);
    assert f < u ==> f / u == 0 by { if f < u { DivisionIs(f, u, 0, f); } }
    hide SecUnit, RoundHalfUp, Length;
  }

  /** To a kind with seconds: exact when no second digit is lost. */
  lemma ExactSeconds(dt: DT, kind: int, destSec: int)
    requires WellFormed(dt) && IsKind(kind) && EndsInSeconds(kind)
    requires destSec >= dt.secScale && destSec > 0
    ensures Target(dt, kind, destSec) == Length(Fields(dt))
  {}

  /** When digits are lost, the result is within half of the last kept digit exactly when
      the fraction rounds up or keeps no digit at all: the branch that does not round up
      leaves the kept digits unscaled. */
  lemma ReducedSeconds(dt: DT, kind: int, destSec: int)
    requires WellFormed(dt) && IsKind(kind) && EndsInSeconds(kind)
    requires Reduces(dt.secScale, destSec) && destSec >= 0
    ensures destSec < SECDPREC_MAX
    ensures
      (-SecUnit(destSec) <= (Target(dt, kind, destSec) - Length(Fields(dt))) * 2 <= SecUnit(destSec))
      <==> CutsWell(dt.fraction, destSec)
  {
    var f, u := dt.fraction, SecUnit(destSec);
    RoundClose(f, u);
    hide RoundHalfUp, Length, SecUnit, Fields;
    if !CutsWell(f, destSec) {
      assert f == u * (f / u) + f % u;
      if f / u <= 0 {
        ProductGrows(u, f / u, 1);
      }
      MulAtLeast(u, f / u);
    }
  }

  lemma MulAtLeast(u: int, q: int)
    requires u >= 10 && q >= 1
    ensures (u * q - q) * 10 >= u * 9
  {
    ProductNonNegative(u - 1, q - 1);
    assert (u - 1) * (q - 1) == u * q - u - q + 1;
  }

  /** 0.120000 s cut to one digit: the result is 0.000001 s instead of 0.1 s. */
  lemma LostFraction()
    ensures CutLength(120000, 120000, 1) == 1 && !CutsWell(120000, 1)
  {
    UnitValue(1);
  }

  // ---------- field checks and the wire form ----------

  /** `checkScale` for a lead scale that is given. */
  predicate CheckScale(dt: DT, lead: int) {
    && lead <= 9
    && (if dt.kind <= QUA_DHMS then
          && lead >= |Itoa(Abs(dt.days))|
          && (dt.kind >= QUA_DH ==> Abs(dt.hours) <= 23)
          && (dt.kind >= QUA_DHM ==> Abs(dt.minutes) <= 59)
          && (dt.kind >= QUA_DHMS ==> Abs(dt.seconds) <= 59)
        else if dt.kind <= QUA_HMS then
          && lead >= |Itoa(Abs(dt.hours))|
          && (dt.kind >= QUA_HM ==> Abs(dt.minutes) <= 59)
          && (dt.kind >= QUA_HMS ==> Abs(dt.seconds) <= 59)
        else
          && lead >= |Itoa(Abs(dt.minutes))|
          && (dt.kind == QUA_MS ==> Abs(dt.seconds) <= 59))
  }

  /** On carried intervals the check is that the leading field fits, except for SECOND
      intervals, where it looks at the (absent) minutes and lets any seconds pass. */
  lemma CheckScaleMeans(dt: DT, lead: nat)
    requires IsKind(dt.kind) && Carried(dt.kind, Fields(dt))
    ensures dt.kind != QUA_S ==>
      (CheckScale(dt, lead) <==> lead <= 9 && LeadFits(Fields(dt)[First(dt.kind)], lead))
    ensures dt.kind == QUA_S ==> (CheckScale(dt, lead) <==> 1 <= lead <= 9)
  {
    hide Pow10, LeadFits;
    if dt.kind == QUA_S {
      assert Itoa(0) == ['0'];
    } else {
      LeadDigits(Fields(dt)[First(dt.kind)], lead);
    }
  }

  function Signed(dt: DT, v: int): int { if dt.negative then -v else v }

  function Packed(dt: DT, scale: int): (b: seq<Byte>)
    ensures |b| == 24
  {
    PutInt32(Signed(dt, dt.days)) + PutInt32(Signed(dt, dt.hours)) + PutInt32(Signed(dt, dt.minutes))
    + PutInt32(Signed(dt, dt.seconds)) + PutInt32(Signed(dt, dt.fraction)) + PutInt32(scale)
  }

  /** The 24 bytes: five fields of 32 bits with the interval's sign, then the scale word,
      whose low bytes are the scales and the kind. */
  lemma PackedBytes(dt: DT, kind: int, lead: int, sec: int)
    requires 0 <= kind < 256 && 0 <= lead < 16 && 0 <= sec < 16
    ensures var b, sign := Packed(dt, kind * 0x100 + lead * 0x10 + sec), if dt.negative then -1 else 1;
      && b[0..4] == PutInt32(sign * dt.days) && b[4..8] == PutInt32(sign * dt.hours)
      && b[8..12] == PutInt32(sign * dt.minutes) && b[12..16] == PutInt32(sign * dt.seconds)
      && b[16..20] == PutInt32(sign * dt.fraction)
      && b[20] as int == lead * 16 + sec && b[21] as int == kind && b[22] as int == 0 && b[23] as int == 0
  {
    var scale := kind * 0x100 + lead * 0x10 + sec;
    DivisionIs(scale, 0x100, kind, lead * 0x10 + sec);
    DivisionIs(scale, 0x1_0000, 0, scale);
    DivisionIs(scale, 0x100_0000, 0, scale);
    var p := PutInt32(scale);
    assert p[0] as int == lead * 16 + sec && p[1] as int == kind && p[2] as int == 0 && p[3] as int == 0;
    hide PutInt32;
  }

  lemma ScaleFields(kind: int, lead: int, sec: int)
    requires IsKind(kind) && 0 <= lead < 16 && 0 <= sec < 16
    ensures var scale := kind * 0x100 + lead * 0x10 + sec;
      DestKind(scale) == kind && DestLead(scale) == lead && DestSec(scale) == sec
  {
    var scale := kind * 0x100 + lead * 0x10 + sec;
    DivisionIs(scale, 0x100, kind, lead * 0x10 + sec);
    DivisionIs(kind, 0x100, 0, kind);
    DivisionIs(scale, 0x10, kind * 0x10 + lead, sec);
    DivisionIs(kind * 0x10 + lead, 0x10, kind, lead);
  }

  /** `encode` */
  method Encode(dt: DT, scale: int) returns (b: Option<seq<Byte>>, ghost sent: DT)
    requires WellFormed(dt)
    ensures scale == 0 || scale == dt.scaleForSvr ==>
      (b.Some? <==> CheckScale(dt, dt.leadScale)) && sent == dt
    ensures b.Some? ==> b.value == Packed(sent, if scale == 0 then dt.scaleForSvr else scale)
    ensures scale != 0 && scale != dt.scaleForSvr && IsKind(DestKind(scale)) ==>
      (b.Some? <==> LeadFits(Target(dt, DestKind(scale), DestSec(scale)) / LeadUnit(DestKind(scale)), DestLead(scale)))
    ensures b.Some? && scale != 0 && scale != dt.scaleForSvr && IsKind(DestKind(scale)) ==>
      && Carried(DestKind(scale), Fields(sent)) && sent.kind == DestKind(scale) && sent.negative == dt.negative
      && Length(Fields(sent)) == Target(dt, DestKind(scale), DestSec(scale))
  {
    ScaleFields(dt.kind, dt.leadScale, dt.secScale);
    hide Target, Carried, CheckScale, Length, Packed, LeadFits, LeadUnit;
    var target := if scale == 0 then dt.scaleForSvr else scale;
    sent := dt;
    var c := dt;
    if target != dt.scaleForSvr {
      var r := ConvertTo(dt, target);
      if r.None? {
        return None, sent;
      }
      c := r.value;
      sent := c;
    } else if !CheckScale(dt, DestLead(target)) {
      return None, sent;
    }
    b := Some(Packed(c, target));
  }

  /** A field of the kind is read from its place; the others stay zero. */
  function WireField(b: seq<Byte>, i: int): int
    requires |b| >= 24 && 0 <= i < 5
  {
    var kind: int := b[21];
    if IsKind(kind) && First(kind) <= i <= Last(kind) then GetInt32(b, 4 * i) else 0
  }

  /** `newDmIntervalDTByBytes`: negative fields are made positive and the sign noted. */
  function Decode(b: seq<Byte>): DT
    requires |b| >= 24
  {
    var kind: int, scale := b[21], GetInt32(b, 20);
    var f0, f1, f2, f3, f4 := WireField(b, 0), WireField(b, 1), WireField(b, 2), WireField(b, 3), WireField(b, 4);
    DT(kind, scale / 0x10 % 0x10, scale % 0x10, f0 < 0 || f1 < 0 || f2 < 0 || f3 < 0 || f4 < 0,
       Abs(f0), Abs(f1), Abs(f2), Abs(f3), Abs(f4), scale)
  }

  predicate FitsWire(dt: DT) {
    && FitsInt32(Signed(dt, dt.days)) && FitsInt32(Signed(dt, dt.hours)) && FitsInt32(Signed(dt, dt.minutes))
    && FitsInt32(Signed(dt, dt.seconds)) && FitsInt32(Signed(dt, dt.fraction))
  }

  lemma PackedAt(dt: DT, scale: int, i: int)
    requires 0 <= i < 5 && FitsInt32(scale)
    ensures var v := Signed(dt, Fields(dt)[i]); GetInt32(Packed(dt, scale), 4 * i) == v <==> FitsInt32(v)
    ensures FitsInt32(GetInt32(Packed(dt, scale), 4 * i))
    ensures GetInt32(Packed(dt, scale), 20) == scale && Packed(dt, scale)[21] as int == DestKind(scale)
  {
    hide PutInt32;
    var b, v := Packed(dt, scale), Signed(dt, Fields(dt)[i]);
    assert b[20..24] == PutInt32(scale);
    GetInt32At(b, 20, scale);
    SecondByte(b, scale);
    assert b[4 * i..4 * i + 4] == PutInt32(v);
    if FitsInt32(v) {
      GetInt32At(b, 4 * i, v);
    }
  }

  lemma SecondByte(b: seq<Byte>, scale: int)
    requires |b| == 24 && b[20..24] == PutInt32(scale)
    ensures b[21] as int == DestKind(scale)
  {
    assert b[20..24][1] == b[21];
  }

  /** The interval's scales are those its server scale packs. */
  ghost predicate Tagged(dt: DT) {
    && IsKind(dt.kind) && Carried(dt.kind, Fields(dt)) && FitsInt32(dt.scaleForSvr)
    && dt.kind == DestKind(dt.scaleForSvr) && dt.leadScale == DestLead(dt.scaleForSvr)
    && dt.secScale == DestSec(dt.scaleForSvr)
  }

  lemma WireFieldIs(dt: DT, i: int)
    requires Tagged(dt) && 0 <= i < 5
    ensures var v, w := Signed(dt, Fields(dt)[i]), WireField(Packed(dt, dt.scaleForSvr), i);
      (w == v <==> FitsInt32(v)) && FitsInt32(w)
    ensures GetInt32(Packed(dt, dt.scaleForSvr), 20) == dt.scaleForSvr
    ensures Packed(dt, dt.scaleForSvr)[21] as int == dt.kind
  {
    hide Packed, GetInt32;
    PackedAt(dt, dt.scaleForSvr, i);
  }

  /** A field read back with the sign it was sent with is the field. */
  lemma SignedAbs(negative: bool, f: int, w: int)
    requires f >= 0 && FitsInt32(w)
    requires w == (if negative then -f else f) <==> FitsInt32(if negative then -f else f)
    ensures (Abs(w) == f && (w < 0 ==> negative)) <==> FitsInt32(if negative then -f else f)
  {}

  /** Packing and unpacking is the identity exactly when every field fits the wire and the
      interval is not a negative zero. */
  lemma EncodeDecode(dt: DT)
    requires Tagged(dt)
    ensures Decode(Packed(dt, dt.scaleForSvr)) == dt
      <==> FitsWire(dt) && (dt.negative ==> Length(Fields(dt)) > 0)
  {
    hide Packed, GetInt32;
    var b := Packed(dt, dt.scaleForSvr);
    forall i | 0 <= i < 5
      ensures var v, w := Signed(dt, Fields(dt)[i]), WireField(b, i);
        (w == v <==> FitsInt32(v)) && (Abs(w) == Fields(dt)[i] && (w < 0 ==> dt.negative) <==> FitsInt32(v))
      ensures GetInt32(b, 20) == dt.scaleForSvr && b[21] as int == dt.kind
    {
      WireFieldIs(dt, i);
      SignedAbs(dt.negative, Fields(dt)[i], WireField(b, i));
    }
    SomeField(dt);
    hide Length, WireField, FitsInt32, Carried;
    assert forall i :: 0 <= i < 5 ==> Fields(dt)[i] >= 0 by { FieldsNonNegative(dt); }
  }

  lemma FieldsNonNegative(dt: DT)
    requires Carried(dt.kind, Fields(dt))
    ensures forall i :: 0 <= i < 5 ==> Fields(dt)[i] >= 0
  {}

  lemma SomeField(dt: DT)
    requires Carried(dt.kind, Fields(dt))
    ensures Length(Fields(dt)) > 0 <==> exists i :: 0 <= i < 5 && Fields(dt)[i] > 0
  {
    var f := Fields(dt);
    if f[0] > 0 || f[1] > 0 || f[2] > 0 || f[3] > 0 || f[4] > 0 {
      assert Length(f) > 0;
    }
  }
}
