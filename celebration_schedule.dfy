/**
 * The celebration schedule: every catalog zone with the New Year it is
 * waiting for (or has just reached), sorted by the hours remaining, and
 * classified as done, incoming or waiting. Instants are milliseconds since
 * the epoch; each zone is a fixed offset in minutes east of UTC.
 */
module CelebrationSchedule {
  import opened Wrappers
  import opened Calendar
  import opened Strings
  import opened Zones
  import Sorting
  import opened Numbers

  /** The schedule's catalog; each zone carries its offset at New Year (summer time south of the equator). */
  const ScheduleZones: seq<ZoneEntry> := [
    ZoneEntry("Kiritimati (UTC+14)", "Pacific/Kiritimati", 840),
    ZoneEntry("Auckland (UTC+12)", "Pacific/Auckland", 780),
    ZoneEntry("Sydney (UTC+10)", "Australia/Sydney", 660),
    ZoneEntry("Tokyo (UTC+9)", "Asia/Tokyo", 540),
    ZoneEntry("Shanghai (UTC+8)", "Asia/Shanghai", 480),
    ZoneEntry("Bangkok (UTC+7)", "Asia/Bangkok", 420),
    ZoneEntry("Dhaka (UTC+6)", "Asia/Dhaka", 360),
    ZoneEntry("New Delhi (UTC+5:30)", "Asia/Kolkata", 330),
    ZoneEntry("Dubai (UTC+4)", "Asia/Dubai", 240),
    ZoneEntry("Moscow (UTC+3)", "Europe/Moscow", 180),
    ZoneEntry("Cairo (UTC+2)", "Africa/Cairo", 120),
    ZoneEntry("Paris (UTC+1)", "Europe/Paris", 60),
    ZoneEntry("London (UTC+0)", "Europe/London", 0),
    ZoneEntry("Azores (UTC-1)", "Atlantic/Azores", -60),
    ZoneEntry("Rio de Janeiro (UTC-3)", "America/Sao_Paulo", -180),
    ZoneEntry("New York (UTC-5)", "America/New_York", -300),
    ZoneEntry("Chicago (UTC-6)", "America/Chicago", -360),
    ZoneEntry("Denver (UTC-7)", "America/Denver", -420),
    ZoneEntry("Los Angeles (UTC-8)", "America/Los_Angeles", -480),
    ZoneEntry("Anchorage (UTC-9)", "America/Anchorage", -540),
    ZoneEntry("Honolulu (UTC-10)", "Pacific/Honolulu", -600),
    ZoneEntry("Pago Pago (UTC-11)", "Pacific/Pago_Pago", -660)
  ]

  /** luxon's single-unit diff in hours: the exact quotient of the milliseconds. */
  function HoursBetween(later: int, earlier: int): real {
    (later - earlier) as real / 3_600_000.0
  }

  /** Strictly more than 24 hours back and not in the future, in milliseconds. */
  lemma WithinLastDay(diff: int)
    ensures (diff as real / 3_600_000.0 > -24.0 && diff as real / 3_600_000.0 <= 0.0) <==> -MillisPerDay < diff <= 0
  {
  }

  /**
   * The New Year a zone's row counts towards: this year's 1 January when it
   * began less than 24 hours ago (that is, on the local 1 January), next
   * year's otherwise. The row's distance to it is then in (-24 h, 0] or
   * positive respectively.
   */
  function ChooseTarget(now: int, offsetMinutes: int): (target: int)
    ensures var d := ToLocal(now, offsetMinutes).date;
      && (target == StartOfYear(d.year, offsetMinutes) <==> IsNewYearsDay(d))
      && (!IsNewYearsDay(d) ==> target == StartOfYear(d.year + 1, offsetMinutes))
      && (IsNewYearsDay(d) ==> -MillisPerDay < target - now <= 0)
      && (!IsNewYearsDay(d) ==> 0 < target - now)
  {
    var zoneTime := ToLocal(now, offsetMinutes);
    var thisYearNewYear := StartOfYear(zoneTime.date.year, offsetMinutes);
    var nextYearNewYear := StartOfYear(zoneTime.date.year + 1, offsetMinutes);
    var diffThis := HoursBetween(thisYearNewYear, now);
    LocalYearFacts(now, offsetMinutes);
    WithinLastDay(thisYearNewYear - now);
    if diffThis > -24.0 && diffThis <= 0.0 then thisYearNewYear else nextYearNewYear
  }

  /** One row of the schedule: the zone, its target New Year, and the milliseconds from now to it. */
  datatype ScheduleRow = ScheduleRow(entry: ZoneEntry, target: int, diffMs: int)

  /** diffHours, the row's signed distance to its target in hours. */
  function DiffHours(row: ScheduleRow): real {
    row.diffMs as real / 3_600_000.0
  }

  function MakeRow(entry: ZoneEntry, now: int): (row: ScheduleRow)
    ensures row.entry == entry && row.target == ChooseTarget(now, entry.offsetMinutes)
    ensures DiffHours(row) == HoursBetween(row.target, now)
  {
    var target := ChooseTarget(now, entry.offsetMinutes);
    ScheduleRow(entry, target, target - now)
  }

  /** ALL_ZONES.map(...): one row per catalog entry, in catalog order. */
  function Rows(catalog: seq<ZoneEntry>, now: int): (rows: seq<ScheduleRow>)
    ensures |rows| == |catalog| && forall i :: 0 <= i < |catalog| ==> rows[i] == MakeRow(catalog[i], now)
  {
    seq(|catalog|, i requires 0 <= i < |catalog| => MakeRow(catalog[i], now))
  }

  /** The sort key: the comparator a.diffHours - b.diffHours orders rows as their millisecond distances do. */
  function RowKey(row: ScheduleRow): int {
    row.diffMs
  }

  /** sortedZones: the rows sorted by hours remaining, stably. */
  function SortedZones(catalog: seq<ZoneEntry>, now: int): seq<ScheduleRow> {
    Sorting.SortBy(Rows(catalog, now), RowKey)
  }

  /** The zones of a list of rows, in order. */
  function Entries(rows: seq<ScheduleRow>): (r: seq<ZoneEntry>)
    ensures |r| == |rows|
  {
    seq(|rows|, i requires 0 <= i < |rows| => rows[i].entry)
  }

  lemma EntriesAppend(u: seq<ScheduleRow>, v: seq<ScheduleRow>)
    ensures Entries(u + v) == Entries(u) + Entries(v)
  {
  }

  /** Taking row i out of a list takes its zone out of the list's zones. */
  lemma EntriesRemove(b: seq<ScheduleRow>, i: nat)
    requires i < |b|
    ensures multiset(Entries(b)) == multiset(Entries(b[..i] + b[i + 1..])) + multiset{b[i].entry}
  {
    assert b == b[..i] + [b[i]] + b[i + 1..];
    EntriesAppend(b[..i] + [b[i]], b[i + 1..]);
    EntriesAppend(b[..i], [b[i]]);
    EntriesAppend(b[..i], b[i + 1..]);
  }

  /** Two rearrangements of each other stay so once the same row is taken out of both. */
  lemma RemoveSame(a: seq<ScheduleRow>, b: seq<ScheduleRow>, i: nat)
    requires multiset(a) == multiset(b) && a != [] && i < |b| && b[i] == a[0]
    ensures multiset(a[1..]) == multiset(b[..i] + b[i + 1..])
  {
    var rest := b[..i] + b[i + 1..];
    assert a == [a[0]] + a[1..];
    assert b == b[..i] + [b[i]] + b[i + 1..];
    assert multiset(a) == multiset{a[0]} + multiset(a[1..]);
    assert multiset(b) == multiset(b[..i]) + multiset{b[i]} + multiset(b[i + 1..]);
    assert multiset(rest) == multiset(b[..i]) + multiset(b[i + 1..]);
    assert multiset(a[1..]) == multiset(a) - multiset{a[0]};
    assert multiset(rest) == multiset(b) - multiset{b[i]};
  }

  /** Rearranging rows rearranges their zones the same way. */
  lemma {:induction false} EntriesPermutation(a: seq<ScheduleRow>, b: seq<ScheduleRow>)
    requires multiset(a) == multiset(b)
    ensures multiset(Entries(a)) == multiset(Entries(b))
    decreases |a|
  {
    if a == [] {
      assert |b| == |multiset(b)| == 0;
    } else {
      assert a[0] in multiset(b);
      var i :| 0 <= i < |b| && b[i] == a[0];
      var rest := b[..i] + b[i + 1..];
      assert multiset(a[1..]) == multiset(rest) by {
        RemoveSame(a, b, i);
      }
      assert multiset(Entries(a[1..])) == multiset(Entries(rest)) by {
        EntriesPermutation(a[1..], rest);
      }
      assert multiset(Entries(b)) == multiset(Entries(rest)) + multiset{a[0].entry} by {
        EntriesRemove(b, i);
      }
      assert multiset(Entries(a)) == multiset(Entries(a[1..])) + multiset{a[0].entry} by {
        EntriesRemove(a, 0);
        assert a[..0] + a[1..] == a[1..];
      }
    }
  }

  /**
   * The schedule lists every catalog zone once (a rearrangement of the
   * catalog, each row built from its own zone), in ascending order of hours
   * remaining, with rows of equal distance in catalog order.
   */
  lemma SortedZonesFacts(catalog: seq<ZoneEntry>, now: int)
    ensures var rows := SortedZones(catalog, now);
      && |rows| == |catalog|
      && multiset(Entries(rows)) == multiset(catalog)
      && (forall i :: 0 <= i < |rows| ==> rows[i] == MakeRow(rows[i].entry, now))
      && (forall i, j :: 0 <= i < j < |rows| ==> DiffHours(rows[i]) <= DiffHours(rows[j]))
      && (forall k :: Sorting.WithKey(rows, RowKey, k) == Sorting.WithKey(Rows(catalog, now), RowKey, k))
  {
    var unsorted := Rows(catalog, now);
    var rows := SortedZones(catalog, now);
    Sorting.SortByFacts(unsorted, RowKey);
    EntriesPermutation(rows, unsorted);
    assert Entries(unsorted) == catalog;
    forall i | 0 <= i < |rows| ensures rows[i] == MakeRow(rows[i].entry, now) {
      assert rows[i] in multiset(unsorted);
    }
    forall i, j | 0 <= i < j < |rows| ensures DiffHours(rows[i]) <= DiffHours(rows[j]) {
      assert RowKey(rows[i]) <= RowKey(rows[j]);
    }
  }

  /** isCelebrated: the target is not in the future. */
  predicate IsCelebrated(row: ScheduleRow) {
    DiffHours(row) <= 0.0
  }

  /** isSoon: the target is in the future but less than 24 hours away. */
  predicate IsSoon(row: ScheduleRow) {
    DiffHours(row) > 0.0 && DiffHours(row) < 24.0
  }

  datatype Status = Done | Incoming | Waiting

  /** The status column: "Done" when celebrated, else "Incoming!" when soon, else "Waiting". */
  function RowStatus(row: ScheduleRow): (s: Status)
    ensures s == Done <==> IsCelebrated(row)
    ensures s == Incoming <==> IsSoon(row)
    ensures s == Waiting <==> !IsCelebrated(row) && !IsSoon(row)
  {
    if IsCelebrated(row) then Done else if IsSoon(row) then Incoming else Waiting
  }

  /** Strictly within 24 hours ahead, in milliseconds. */
  lemma WithinNextDay(diff: int)
    ensures (diff as real / 3_600_000.0 > 0.0 && diff as real / 3_600_000.0 < 24.0) <==> 0 < diff < MillisPerDay
  {
  }

  /**
   * A zone's row is celebrated exactly on the zone's local 1 January, and
   * incoming exactly on its 31 December after midnight; never both.
   */
  lemma RowClassification(entry: ZoneEntry, now: int)
    ensures var dt := ToLocal(now, entry.offsetMinutes);
      && (IsCelebrated(MakeRow(entry, now)) <==> IsNewYearsDay(dt.date))
      && (IsSoon(MakeRow(entry, now)) <==> IsNewYearsEve(dt.date) && TimeOfDay(dt) > 0)
      && !(IsCelebrated(MakeRow(entry, now)) && IsSoon(MakeRow(entry, now)))
  {
    var off := entry.offsetMinutes;
    var dt := ToLocal(now, off);
    var row := MakeRow(entry, now);
    LocalYearFacts(now, off);
    TimeOfDayFacts(now, off);
    WithinNextDay(row.diffMs);
    assert IsCelebrated(row) <==> row.diffMs <= 0;
    assert IsNewYearsEve(dt.date) ==> !IsNewYearsDay(dt.date);
  }

  /** A number of hours and minutes shown beside a row. */
  datatype HoursMinutes = HoursMinutes(hours: int, minutes: int)

  /** JavaScript's x % 1 for a real x: the part after the point, with x's sign. */
  function JsFraction(x: real): real {
    if x >= 0.0 then x - x.Floor as real else x + (-x).Floor as real
  }

  /**
   * The remaining time under a row that is not celebrated:
   * Math.floor(diffHours) hours and Math.floor((diffHours % 1) * 60) minutes,
   * which are the whole hours and the whole minutes of the rest; minutes run
   * 0 to 59. Celebrated rows show nothing.
   */
  function RemainingShown(row: ScheduleRow): (r: Option<HoursMinutes>)
    ensures r.None? <==> IsCelebrated(row)
    ensures r.Some? ==> r.value.hours == row.diffMs / MillisPerHour
                        && r.value.minutes == row.diffMs % MillisPerHour / MillisPerMinute
                        && 0 <= r.value.minutes < 60
    ensures r.Some? ==> r.value.hours * MillisPerHour + r.value.minutes * MillisPerMinute <= row.diffMs
                        < r.value.hours * MillisPerHour + (r.value.minutes + 1) * MillisPerMinute
  {
    if IsCelebrated(row) then None
    else
      var x := DiffHours(row);
      FractionFacts(row.diffMs);
      Some(HoursMinutes(x.Floor, (JsFraction(x) * 60.0).Floor))
  }

  /** For a positive distance d, the hour and minute figures are d's whole hours and whole minutes past them. */
  lemma FractionFacts(d: int)
    requires d > 0
    ensures var x := d as real / 3_600_000.0;
      && x.Floor == d / MillisPerHour
      && (JsFraction(x) * 60.0).Floor == d % MillisPerHour / MillisPerMinute
  {
    var x := d as real / 3_600_000.0;
    FloorOfQuotient(d, MillisPerHour);
    var q := d / MillisPerHour;
    var r := d % MillisPerHour;
    assert x == q as real + r as real / 3_600_000.0;
    assert JsFraction(x) == r as real / 3_600_000.0;
    assert JsFraction(x) * 60.0 == r as real / 60_000.0;
    FloorOfQuotient(r, MillisPerMinute);
  }

  /** The region column: label.split('(')[0].trim(). */
  function RegionName(labelText: string): string {
    Trim(Split(labelText, "(")[0])
  }

  /** A label of the form "City (UTC+X)" shows City. */
  lemma RegionNameOfLabel(city: string, offsetText: string)
    requires '(' !in city && '(' !in offsetText
    requires city != [] && !IsWhitespace(city[0]) && !IsWhitespace(city[|city| - 1])
    ensures RegionName(city + " (" + offsetText + ")") == city
  {
    assert city + " (" + offsetText + ")" == (city + " ") + ['('] + (offsetText + ")");
    assert '(' !in city + " ";
    SplitAround(city + " ", '(', offsetText + ")");
    TrimTrailingSpace(city);
  }

  /** The first schedule label shows its city. */
  lemma ScheduleRegions()
    ensures RegionName(ScheduleZones[0].labelText) == "Kiritimati"
  {
    assert ScheduleZones[0].labelText == "Kiritimati" + " (" + "UTC+14" + ")";
    RegionNameOfLabel("Kiritimati", "UTC+14");
  }
}
