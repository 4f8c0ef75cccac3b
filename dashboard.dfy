/**
 * The dashboard's clock: the UTC time that drives the map's midnight line,
 * and the local-fireworks flag, which is on within 24 hours either side of
 * the user's local New Year midnight. The user's zone is a fixed offset in
 * minutes east of UTC.
 */
module Dashboard {
  import opened Calendar
  import opened MidnightLongitude

  /**
   * calculateMidnightLongitude: the same formula and normalising loops as the
   * server's, so the two agree on every time of day.
   */
  method CalculateMidnightLongitude(dt: DateTime) returns (longitude: real)
    requires ValidClock(dt.hour, dt.minute, dt.second)
    ensures longitude == LongitudeAt(dt.hour, dt.minute, dt.second)
    ensures -180.0 <= longitude < 180.0
  {
    var hours := dt.hour as real + dt.minute as real / 60.0 + dt.second as real / 3600.0;
    longitude := (12.0 - hours) * 15.0 - 180.0;
    ghost var subtracted, added;
    longitude, subtracted, added := Normalize(longitude);
    LongitudeAtPieces(dt.hour, dt.minute, dt.second);
  }

  /**
   * 00:00 on 1 January of the New Year the fireworks check looks at, in the
   * zone: this year's during January, the next one's otherwise.
   */
  function TargetStart(local: Date, offsetMinutes: int): int {
    if local.month == 1 then StartOfYear(local.year, offsetMinutes) else StartOfYear(local.year + 1, offsetMinutes)
  }

  /**
   * The fireworks flag for instant `now` in the user's zone: the hours from
   * now to 1 January 00:00 of the target year lie strictly between -24 and 24.
   * That is the case exactly on the local 1 January, and on the local
   * 31 December after its first instant (at 31 December 00:00:00.000 the
   * distance is exactly 24 hours); never in any other month.
   */
  function CelebrationSoon(now: int, offsetMinutes: int): (soon: bool)
    ensures var dt := ToLocal(now, offsetMinutes);
      soon <==> IsNewYearsDay(dt.date) || (IsNewYearsEve(dt.date) && TimeOfDay(dt) > 0)
    ensures var d := ToLocal(now, offsetMinutes).date;
      d.month == 1 ==> (soon <==> now - StartOfYear(d.year, offsetMinutes) < MillisPerDay)
    ensures var d := ToLocal(now, offsetMinutes).date;
      d.month == 12 ==> (soon <==> StartOfYear(d.year + 1, offsetMinutes) - now < MillisPerDay)
    ensures var d := ToLocal(now, offsetMinutes).date;
      d.month != 1 && d.month != 12 ==> !soon
  {
    var local := ToLocal(now, offsetMinutes);
    var target := TargetStart(local.date, offsetMinutes);
    var diffHours := (target - now) as real / 3_600_000.0;
    HoursWindow(target - now);
    DayWindow(now, offsetMinutes);
    diffHours < 24.0 && diffHours > -24.0
  }

  /** Strictly within 24 hours either way, in milliseconds. */
  lemma HoursWindow(diff: int)
    ensures (diff as real / 3_600_000.0 < 24.0 && diff as real / 3_600_000.0 > -24.0)
            <==> -MillisPerDay < diff < MillisPerDay
  {
  }

  /** The arithmetic of DayWindow: within a day of the target either way iff on the first day, or on the last day after midnight. */
  lemma WindowArithmetic(doy: int, ms: int, n: int, diff: int)
    requires 0 <= ms < MillisPerDay && 31 <= n - 1 && 0 <= doy < n
    requires doy < 31 ==> diff == -(doy * MillisPerDay + ms)
    requires doy >= 31 ==> diff == (n - doy) * MillisPerDay - ms
    ensures (-MillisPerDay < diff < MillisPerDay) <==> doy == 0 || (doy == n - 1 && ms > 0)
  {
    if doy < 31 && doy != 0 {
      assert diff <= -MillisPerDay;
    } else if doy >= 31 && doy != n - 1 {
      assert diff >= MillisPerDay;
    }
  }

  /**
   * The distance to the target New Year is under a day either way exactly on
   * the local 1 January and on 31 December after midnight.
   */
  lemma DayWindow(now: int, offsetMinutes: int)
    ensures var dt := ToLocal(now, offsetMinutes);
      var d := dt.date;
      var diff := TargetStart(d, offsetMinutes) - now;
      && ((-MillisPerDay < diff < MillisPerDay) <==> IsNewYearsDay(d) || (IsNewYearsEve(d) && TimeOfDay(dt) > 0))
      && (d.month == 1 ==> diff == -(now - StartOfYear(d.year, offsetMinutes)) && diff <= 0)
      && (d.month != 1 ==> diff == StartOfYear(d.year + 1, offsetMinutes) - now && diff > 0)
  {
    DayWindowSide(now, offsetMinutes);
    DayWindowNear(now, offsetMinutes);
  }

  lemma DayWindowSide(now: int, offsetMinutes: int)
    ensures var d := ToLocal(now, offsetMinutes).date;
      var diff := TargetStart(d, offsetMinutes) - now;
      && (d.month == 1 ==> diff == -(now - StartOfYear(d.year, offsetMinutes)) && diff <= 0)
      && (d.month != 1 ==> diff == StartOfYear(d.year + 1, offsetMinutes) - now && diff > 0)
  {
    LocalYearFacts(now, offsetMinutes);
  }

  lemma DayWindowNear(now: int, offsetMinutes: int)
    ensures var dt := ToLocal(now, offsetMinutes);
      var d := dt.date;
      var diff := TargetStart(d, offsetMinutes) - now;
      (-MillisPerDay < diff < MillisPerDay) <==> IsNewYearsDay(d) || (IsNewYearsEve(d) && TimeOfDay(dt) > 0)
  {
    var d := ToLocal(now, offsetMinutes).date;
    var y := d.year;
    var doy, ms := LocalPosition(now, offsetMinutes);
    var diff := TargetStart(d, offsetMinutes) - now;
    if d.month == 1 {
      assert diff == -(doy * MillisPerDay + ms);
    } else {
      assert diff == (DaysInYear(y) - doy) * MillisPerDay - ms;
    }
    WindowArithmetic(doy, ms, DaysInYear(y), diff);
  }

  /** The dashboard's clock state, written by the one-second tick. */
  class Clock {
    var currentTime: int
    var isLocalCelebrationSoon: bool

    constructor (now: int)
      ensures currentTime == now && !isLocalCelebrationSoon
    {
      currentTime := now;
      isLocalCelebrationSoon := false;
    }

    /**
     * One tick: the clock takes the latest instant and the flag is
     * recomputed from it alone, whatever earlier ticks set.
     */
    method Tick(nowUtc: int, userOffsetMinutes: int)
      modifies this
      ensures currentTime == nowUtc
      ensures isLocalCelebrationSoon == CelebrationSoon(nowUtc, userOffsetMinutes)
    {
      currentTime := nowUtc;
      var local := ToLocal(nowUtc, userOffsetMinutes);
      var target := TargetStart(local.date, userOffsetMinutes);
      var diffHours := (target - nowUtc) as real / 3_600_000.0;
      if diffHours < 24.0 && diffHours > -24.0 {
        isLocalCelebrationSoon := true;
      } else {
        isLocalCelebrationSoon := false;
      }
    }

    /** The map's midnight longitude for the clock's current UTC time. */
    method MidnightLon() returns (lon: real)
      ensures var utc := ToLocal(currentTime, 0);
        lon == LongitudeAt(utc.hour, utc.minute, utc.second)
    {
      var utc := ToLocal(currentTime, 0);
      lon := CalculateMidnightLongitude(utc);
    }
  }
}
