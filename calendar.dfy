/**
 * The proleptic Gregorian civil calendar and fixed-offset time zones, as the
 * dashboard uses them through luxon's DateTime: an instant is a count of
 * milliseconds since 1970-01-01T00:00:00Z, a zone is a fixed offset from UTC
 * in minutes, and a zone-local wall-clock time is the instant shifted by that
 * offset and split into calendar fields.
 */
module Calendar {

  const MillisPerSecond := 1000
  const MillisPerMinute := 60_000
  const MillisPerHour := 3_600_000
  const MillisPerDay := 86_400_000

  predicate IsLeapYear(y: int) {
    y % 4 == 0 && (y % 100 != 0 || y % 400 == 0)
  }

  function DaysInYear(y: int): int {
    if IsLeapYear(y) then 366 else 365
  }

  /** The number of leap years before year y, counted from an arbitrary origin. */
  function LeapYearsBefore(y: int): int {
    (y - 1) / 4 - (y - 1) / 100 + (y - 1) / 400
  }

  lemma LeapYearsStep(y: int)
    ensures LeapYearsBefore(y + 1) == LeapYearsBefore(y) + (if IsLeapYear(y) then 1 else 0)
  {
    QuotientStep4(y);
    QuotientStep100(y);
    QuotientStep400(y);
    if y % 400 == 0 {
      MultipleOf400(y);
      MultipleOf100(y);
    } else if y % 100 == 0 {
      MultipleOf100(y);
    }
  }

  lemma MultipleOf100(y: int)
    requires y % 100 == 0
    ensures y % 4 == 0
  {
    var k := y / 100;
    assert y == 4 * (25 * k);
  }

  lemma MultipleOf400(y: int)
    requires y % 400 == 0
    ensures y % 100 == 0
  {
    var k := y / 400;
    assert y == 100 * (4 * k);
  }

  /** Going from y - 1 to y, the quotient by 4 grows exactly at multiples of 4; likewise for 100 and 400. */
  lemma QuotientStep4(y: int)
    ensures y / 4 - (y - 1) / 4 == (if y % 4 == 0 then 1 else 0)
  {
    var q := (y - 1) / 4;
    assert y - 1 == 4 * q + (y - 1) % 4;
  }

  lemma QuotientStep100(y: int)
    ensures y / 100 - (y - 1) / 100 == (if y % 100 == 0 then 1 else 0)
  {
    var q := (y - 1) / 100;
    assert y - 1 == 100 * q + (y - 1) % 100;
  }

  lemma QuotientStep400(y: int)
    ensures y / 400 - (y - 1) / 400 == (if y % 400 == 0 then 1 else 0)
  {
    var q := (y - 1) / 400;
    assert y - 1 == 400 * q + (y - 1) % 400;
  }

  /** The number of days from 1970-01-01 to 1 January of year y (negative before 1970). */
  function YearStart(y: int): int {
    365 * (y - 1970) + LeapYearsBefore(y) - LeapYearsBefore(1970)
  }

  lemma YearStartStep(y: int)
    ensures YearStart(y + 1) == YearStart(y) + DaysInYear(y)
  {
    LeapYearsStep(y);
  }

  lemma {:induction false} YearStartGrows(a: int, b: int)
    requires a < b
    ensures YearStart(a) + 365 * (b - a) <= YearStart(b)
    decreases b - a
  {
    YearStartStep(b - 1);
    if a < b - 1 {
      YearStartGrows(a, b - 1);
    }
  }

  /** The year y whose days [YearStart(y), YearStart(y + 1)) hold `days`, searching upwards from y. */
  function YearUp(days: int, y: int): (r: int)
    requires YearStart(y) <= days
    ensures YearStart(r) <= days < YearStart(r + 1)
    decreases days - YearStart(y)
  {
    YearStartStep(y);
    if days < YearStart(y + 1) then y else YearUp(days, y + 1)
  }

  /** The same search, downwards from y. */
  function YearDown(days: int, y: int): (r: int)
    requires days < YearStart(y + 1)
    ensures YearStart(r) <= days < YearStart(r + 1)
    decreases YearStart(y + 1) - days
  {
    YearStartStep(y);
    if YearStart(y) <= days then y else YearDown(days, y - 1)
  }

  /** The calendar year that day number `days` (days since 1970-01-01) falls in. */
  function YearOf(days: int): (y: int)
    ensures YearStart(y) <= days < YearStart(y + 1)
  {
    if days >= 0 then YearUp(days, 1970) else YearDown(days, 1969)
  }

  /** A year's span of days is unique: the year found by YearOf is the only one. */
  lemma YearUnique(days: int, y: int)
    requires YearStart(y) <= days < YearStart(y + 1)
    ensures YearOf(days) == y
  {
    YearSpansDisjoint(days, YearOf(days), y);
  }

  lemma YearSpansDisjoint(days: int, x: int, y: int)
    requires YearStart(x) <= days < YearStart(x + 1)
    requires YearStart(y) <= days < YearStart(y + 1)
    ensures x == y
  {
    if x < y {
      YearStartGrows(x + 1, y);
    } else if y < x {
      YearStartGrows(y + 1, x);
    }
  }

  datatype Date = Date(year: int, month: int, day: int)

  function DaysInMonth(y: int, m: int): int {
    if m == 2 then (if IsLeapYear(y) then 29 else 28)
    else if m == 4 || m == 6 || m == 9 || m == 11 then 30
    else 31
  }

  predicate ValidDate(d: Date) {
    1 <= d.month <= 12 && 1 <= d.day <= DaysInMonth(d.year, d.month)
  }

  /** The days of year y that precede the first of month m; month 13 stands for the next year. */
  function DaysBeforeMonth(y: int, m: int): int
    requires 1 <= m <= 13
  {
    [0, 31, 59, 90, 120, 151, 181, 212, 243, 273, 304, 334, 365][m - 1]
      + (if m > 2 && IsLeapYear(y) then 1 else 0)
  }

  lemma DaysBeforeMonthStep(y: int, m: int)
    requires 1 <= m <= 12
    ensures DaysBeforeMonth(y, m + 1) == DaysBeforeMonth(y, m) + DaysInMonth(y, m)
    ensures DaysBeforeMonth(y, 13) == DaysInYear(y)
  {
  }

  /** The month of year y that day-of-year doy (0 for 1 January) falls in, searching down from m. */
  function MonthFrom(y: int, doy: int, m: int): (r: int)
    requires 1 <= m <= 12 && 0 <= doy < DaysBeforeMonth(y, m + 1)
    ensures 1 <= r <= m && DaysBeforeMonth(y, r) <= doy < DaysBeforeMonth(y, r + 1)
    decreases m
  {
    if DaysBeforeMonth(y, m) <= doy then m else MonthFrom(y, doy, m - 1)
  }

  /** The number of days from 1970-01-01 to date d: days-from-civil. */
  function DaysFromCivil(d: Date): int
    requires 1 <= d.month <= 12
  {
    YearStart(d.year) + DaysBeforeMonth(d.year, d.month) + d.day - 1
  }

  /** Civil-from-days: the calendar date of day number `days`; inverse of DaysFromCivil. */
  function DateOf(days: int): (d: Date)
    ensures ValidDate(d) && DaysFromCivil(d) == days
  {
    var y := YearOf(days);
    YearStartStep(y);
    DaysBeforeMonthStep(y, 12);
    var doy := days - YearStart(y);
    var m := MonthFrom(y, doy, 12);
    DaysBeforeMonthStep(y, m);
    Date(y, m, doy - DaysBeforeMonth(y, m) + 1)
  }

  /** The other round trip: every valid date is recovered from its day number. */
  lemma DateOfDaysFromCivil(d: Date)
    requires ValidDate(d)
    ensures DateOf(DaysFromCivil(d)) == d
  {
    DaysFromCivilInjective(DateOf(DaysFromCivil(d)), d);
  }

  /** Distinct valid dates have distinct day numbers. */
  lemma DaysFromCivilInjective(a: Date, b: Date)
    requires ValidDate(a) && ValidDate(b) && DaysFromCivil(a) == DaysFromCivil(b)
    ensures a == b
  {
    DaysFromCivilInYear(a);
    DaysFromCivilInYear(b);
    YearSpansDisjoint(DaysFromCivil(a), a.year, b.year);
    SameYearSameDate(a, b);
  }

  /** A valid date's day number lies in the span of its year. */
  lemma DaysFromCivilInYear(d: Date)
    requires ValidDate(d)
    ensures YearStart(d.year) <= DaysFromCivil(d) < YearStart(d.year + 1)
  {
    DaysBeforeMonthStep(d.year, d.month);
    DaysBeforeMonthStep(d.year, 12);
    YearStartStep(d.year);
    if d.month < 12 {
      MonthsOrdered(d.year, d.month, 12);
    }
  }

  /** Within one year, the day of the year determines month and day. */
  lemma SameYearSameDate(a: Date, b: Date)
    requires ValidDate(a) && ValidDate(b) && a.year == b.year
    requires DaysBeforeMonth(a.year, a.month) + a.day == DaysBeforeMonth(b.year, b.month) + b.day
    ensures a == b
  {
    DaysBeforeMonthStep(a.year, a.month);
    DaysBeforeMonthStep(b.year, b.month);
    if a.month < b.month {
      MonthsOrdered(a.year, a.month, b.month);
    } else if b.month < a.month {
      MonthsOrdered(a.year, b.month, a.month);
    }
  }

  lemma MonthsOrdered(y: int, a: int, b: int)
    requires 1 <= a < b <= 12
    ensures DaysBeforeMonth(y, a + 1) <= DaysBeforeMonth(y, b)
  {
  }

  /** Zone-local wall-clock fields. */
  datatype DateTime = DateTime(date: Date, hour: int, minute: int, second: int, millisecond: int)

  predicate ValidDateTime(dt: DateTime) {
    ValidDate(dt.date) && 0 <= dt.hour < 24 && 0 <= dt.minute < 60
    && 0 <= dt.second < 60 && 0 <= dt.millisecond < 1000
  }

  /** The instant at which wall-clock time dt occurs in the zone offsetMinutes east of UTC. */
  function FromLocal(dt: DateTime, offsetMinutes: int): int
    requires 1 <= dt.date.month <= 12
  {
    DaysFromCivil(dt.date) * 86_400_000 + dt.hour * 3_600_000 + dt.minute * 60_000
      + dt.second * 1000 + dt.millisecond - offsetMinutes * 60_000
  }

  /** A millisecond of the day splits into hours, minutes, seconds and milliseconds. */
  lemma SplitTimeOfDay(ms: int)
    requires 0 <= ms < 86_400_000
    ensures 0 <= ms / 3_600_000 < 24 && 0 <= ms % 3_600_000 / 60_000 < 60
    ensures 0 <= ms % 60_000 / 1000 < 60 && 0 <= ms % 1000 < 1000
    ensures ms == ms / 3_600_000 * 3_600_000 + ms % 3_600_000 / 60_000 * 60_000
                  + ms % 60_000 / 1000 * 1000 + ms % 1000
  {
    var h := ms / 3_600_000;
    var r := ms % 3_600_000;
    assert ms == h * 3_600_000 + r;
    assert r % 60_000 == ms % 60_000;
    assert r == r / 60_000 * 60_000 + r % 60_000;
    var s := r % 60_000;
    assert s == s / 1000 * 1000 + s % 1000;
    assert s % 1000 == ms % 1000;
  }

  /** luxon's setZone: the wall-clock fields of instant t in the zone offsetMinutes east of UTC. */
  function ToLocal(t: int, offsetMinutes: int): (dt: DateTime)
    ensures ValidDateTime(dt) && FromLocal(dt, offsetMinutes) == t
  {
    var local := t + offsetMinutes * 60_000;
    var ms := local % 86_400_000;
    SplitTimeOfDay(ms);
    var d := DateOf(local / 86_400_000);
    assert local == DaysFromCivil(d) * 86_400_000 + ms;
    DateTime(d, ms / 3_600_000, ms % 3_600_000 / 60_000, ms % 60_000 / 1000, ms % 1000)
  }

  /** The instant of 00:00 on 1 January of year y in the zone offsetMinutes east of UTC. */
  function StartOfYear(y: int, offsetMinutes: int): int {
    YearStart(y) * 86_400_000 - offsetMinutes * 60_000
  }

  /** The milliseconds elapsed since the start of the zone-local year that instant t falls in. */
  function ElapsedInYear(t: int, offsetMinutes: int): int {
    t - StartOfYear(LocalYear(t, offsetMinutes), offsetMinutes)
  }

  /** The zone-local calendar year of instant t. */
  function LocalYear(t: int, offsetMinutes: int): int {
    YearOf((t + offsetMinutes * 60_000) / 86_400_000)
  }

  /** LocalYear is the year of the zone-local wall-clock date. */
  lemma LocalYearOfToLocal(t: int, offsetMinutes: int)
    ensures ToLocal(t, offsetMinutes).date.year == LocalYear(t, offsetMinutes)
  {
  }

  predicate IsNewYearsDay(d: Date) { d.month == 1 && d.day == 1 }
  predicate IsNewYearsEve(d: Date) { d.month == 12 && d.day == 31 }

  /** The day-of-year of a day number, and the dates it singles out. */
  lemma DayOfYearFacts(days: int)
    ensures var d := DateOf(days); 0 <= days - YearStart(d.year) < DaysInYear(d.year)
    ensures var d := DateOf(days); IsNewYearsDay(d) <==> days == YearStart(d.year)
    ensures var d := DateOf(days); d.month == 1 <==> days - YearStart(d.year) < 31
    ensures var d := DateOf(days); IsNewYearsEve(d) <==> days == YearStart(d.year + 1) - 1
  {
    var d := DateOf(days);
    var y := d.year;
    YearStartStep(y);
    DaysBeforeMonthStep(y, d.month);
    DaysBeforeMonthStep(y, 12);
    if d.month >= 2 {
      MonthsOrdered(y, 1, d.month);
    }
    if d.month < 12 {
      MonthsOrdered(y, d.month, 12);
    }
  }

  /**
   * Where an instant sits in its zone-local year: it is at or after that
   * year's start and before the next one's, it is on 1 January iff less than a
   * day has passed, in January iff less than 31 days have, and on 31 December
   * iff at most a day remains.
   */
  lemma LocalYearFacts(t: int, offsetMinutes: int)
    ensures var y := ToLocal(t, offsetMinutes).date.year;
      StartOfYear(y, offsetMinutes) <= t < StartOfYear(y + 1, offsetMinutes)
    ensures var d := ToLocal(t, offsetMinutes).date;
      IsNewYearsDay(d) <==> ElapsedInYear(t, offsetMinutes) < 86_400_000
    ensures ToLocal(t, offsetMinutes).date.month == 1 <==> ElapsedInYear(t, offsetMinutes) < 31 * 86_400_000
    ensures var d := ToLocal(t, offsetMinutes).date;
      IsNewYearsEve(d) <==> StartOfYear(d.year + 1, offsetMinutes) - t <= 86_400_000
  {
    var doy, ms := LocalPosition(t, offsetMinutes);
  }

  /** The instant's place in its zone-local year, as whole days and the milliseconds into the last. */
  lemma LocalPosition(t: int, offsetMinutes: int) returns (doy: int, ms: int)
    ensures var d := ToLocal(t, offsetMinutes).date;
      0 <= ms < 86_400_000 && 0 <= doy < DaysInYear(d.year)
      && ElapsedInYear(t, offsetMinutes) == doy * 86_400_000 + ms
      && t - StartOfYear(d.year, offsetMinutes) == doy * 86_400_000 + ms
      && TimeOfDay(ToLocal(t, offsetMinutes)) == ms
      && StartOfYear(d.year, offsetMinutes) + DaysInYear(d.year) * 86_400_000 == StartOfYear(d.year + 1, offsetMinutes)
      && (IsNewYearsDay(d) <==> doy == 0)
      && (d.month == 1 <==> doy < 31)
      && (IsNewYearsEve(d) <==> doy == DaysInYear(d.year) - 1)
  {
    var local := t + offsetMinutes * 60_000;
    var days := local / 86_400_000;
    ms := local % 86_400_000;
    var d := DateOf(days);
    var y := d.year;
    assert ToLocal(t, offsetMinutes).date == d;
    DayOfYearFacts(days);
    YearStartStep(y);
    doy := days - YearStart(y);
    assert local == days * 86_400_000 + ms;
    assert ElapsedInYear(t, offsetMinutes) == doy * 86_400_000 + ms;
    SplitTimeOfDay(ms);
  }

  /** An instant between the starts of zone-local year y and year y + 1 falls in year y there. */
  lemma LocalYearUnique(t: int, offsetMinutes: int, y: int)
    requires StartOfYear(y, offsetMinutes) <= t < StartOfYear(y + 1, offsetMinutes)
    ensures ToLocal(t, offsetMinutes).date.year == y
  {
    LocalYearIs(t, offsetMinutes, y);
    LocalYearOfToLocal(t, offsetMinutes);
  }

  /** The same, for LocalYear. */
  lemma LocalYearIs(t: int, offsetMinutes: int, y: int)
    requires StartOfYear(y, offsetMinutes) <= t < StartOfYear(y + 1, offsetMinutes)
    ensures LocalYear(t, offsetMinutes) == y
  {
    var local := t + offsetMinutes * 60_000;
    var days := local / 86_400_000;
    assert YearStart(y) * 86_400_000 <= local < YearStart(y + 1) * 86_400_000;
    assert YearStart(y) <= days < YearStart(y + 1);
    YearUnique(days, y);
  }

  /** Within a local year, the elapsed time is counted from that year's start. */
  lemma ElapsedInYearWithin(t: int, offsetMinutes: int, y: int)
    requires StartOfYear(y, offsetMinutes) <= t < StartOfYear(y + 1, offsetMinutes)
    ensures ElapsedInYear(t, offsetMinutes) == t - StartOfYear(y, offsetMinutes)
  {
    LocalYearIs(t, offsetMinutes, y);
  }

  /** A local year lasts at least 365 days. */
  lemma LocalYearLength(y: int, offsetMinutes: int)
    ensures StartOfYear(y + 1, offsetMinutes) - StartOfYear(y, offsetMinutes) >= 365 * MillisPerDay
  {
    YearStartStep(y);
  }

  /** During the first day of a local year, the elapsed time is the time since its midnight. */
  lemma ElapsedAfterNewYear(y: int, offsetMinutes: int, e: int)
    requires 0 <= e < MillisPerDay
    ensures ElapsedInYear(StartOfYear(y, offsetMinutes) + e, offsetMinutes) == e
  {
    var t := StartOfYear(y, offsetMinutes) + e;
    LocalYearLength(y, offsetMinutes);
    ElapsedInYearWithin(t, offsetMinutes, y);
    assert t - StartOfYear(y, offsetMinutes) == e;
    assert ElapsedInYear(t, offsetMinutes) == e;
  }

  /** During the last day before a local New Year, at least 364 days of the old year have elapsed. */
  lemma ElapsedBeforeNewYear(y: int, offsetMinutes: int, e: int)
    requires -MillisPerDay <= e < 0
    ensures ElapsedInYear(StartOfYear(y, offsetMinutes) + e, offsetMinutes) >= 364 * MillisPerDay
  {
    var t := StartOfYear(y, offsetMinutes) + e;
    LocalYearLength(y - 1, offsetMinutes);
    ElapsedInYearWithin(t, offsetMinutes, y - 1);
  }

  /** Milliseconds since local midnight. */
  function TimeOfDay(dt: DateTime): int {
    dt.hour * 3_600_000 + dt.minute * 60_000 + dt.second * 1000 + dt.millisecond
  }

  /**
   * On 1 January the time since the start of the year is the time of day; on
   * 31 December the time left in the year is a day minus the time of day.
   */
  lemma TimeOfDayFacts(t: int, offsetMinutes: int)
    ensures var dt := ToLocal(t, offsetMinutes);
      0 <= TimeOfDay(dt) < 86_400_000
      && (IsNewYearsDay(dt.date) ==> t - StartOfYear(dt.date.year, offsetMinutes) == TimeOfDay(dt))
      && (IsNewYearsEve(dt.date) ==> StartOfYear(dt.date.year + 1, offsetMinutes) - t == 86_400_000 - TimeOfDay(dt))
  {
    var doy, ms := LocalPosition(t, offsetMinutes);
  }
}
