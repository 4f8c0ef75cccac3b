/**
 * The countdown panel: the world (UTC) countdown, one card per tracked zone,
 * the "New Year has just arrived in" banner, and the zone selector.
 * Instants are milliseconds since the epoch; each zone is a fixed offset.
 */
module Countdown {
  import opened Wrappers
  import opened Calendar
  import opened Strings
  import opened Zones

  // ---------------------------------------------------------------------
  // luxon's diff in hours, minutes and seconds
  // ---------------------------------------------------------------------

  /** A millisecond count split into whole hours, whole minutes and the rest. */
  lemma Decompose(a: nat)
    ensures a == a / MillisPerHour * MillisPerHour + a % MillisPerHour / MillisPerMinute * MillisPerMinute
                 + a % MillisPerMinute
    ensures 0 <= a % MillisPerHour / MillisPerMinute < 60 && 0 <= a % MillisPerMinute < MillisPerMinute
  {
    assert a % MillisPerHour == a % MillisPerHour / MillisPerMinute * MillisPerMinute + a % MillisPerHour % MillisPerMinute;
    assert a % MillisPerHour % MillisPerMinute == a % MillisPerMinute;
  }

  /**
   * A difference as whole hours, whole minutes and seconds; the seconds,
   * which carry the milliseconds as a fraction, are kept as the exact
   * millisecond count `millis` (seconds = millis / 1000).
   */
  datatype HmsDiff = HmsDiff(hours: int, minutes: int, millis: int)

  /**
   * target.diff(now, ['hours', 'minutes', 'seconds']) for d = target - now
   * milliseconds: the parts of |d|, every part negated when d < 0.
   */
  function DiffHms(d: int): (r: HmsDiff)
    ensures r.hours * MillisPerHour + r.minutes * MillisPerMinute + r.millis == d
    ensures d >= 0 ==> r.hours >= 0 && 0 <= r.minutes < 60 && 0 <= r.millis < MillisPerMinute
    ensures d < 0 ==> r.hours <= 0 && -60 < r.minutes <= 0 && -MillisPerMinute < r.millis <= 0
  {
    var a := if d < 0 then -d else d;
    Decompose(a);
    var h := a / MillisPerHour;
    var m := a % MillisPerHour / MillisPerMinute;
    var ms := a % MillisPerMinute;
    if d < 0 then HmsDiff(-h, -m, -ms) else HmsDiff(h, m, ms)
  }

  /** Math.floor of a seconds value given in milliseconds (Dafny's division by a positive number floors). */
  function FloorSeconds(millis: int): int {
    millis / 1000
  }

  // ---------------------------------------------------------------------
  // Countdown cards
  // ---------------------------------------------------------------------

  /** What a card shows: whether New Year has passed, whether it is under a day away, and h:m:s. */
  datatype CardFigures = CardFigures(isPast: bool, isSoon: bool, hours: int, minutes: int, seconds: int)

  /** The card's reading of a difference: past when any part is negative; past cards show zeros. */
  function Figures(diff: HmsDiff): CardFigures {
    var isPast := diff.hours < 0 || diff.minutes < 0 || diff.millis < 0;
    var isSoon := diff.hours < 24 && diff.hours >= 0 && !isPast;
    CardFigures(isPast, isSoon,
                if isPast then 0 else diff.hours,
                if isPast then 0 else diff.minutes,
                if isPast then 0 else FloorSeconds(diff.millis))
  }

  /**
   * For d milliseconds to go: the card is past exactly when d < 0, and then
   * shows zeros; otherwise it shows d truncated to the second; it is soon
   * exactly when 0 <= d < 24 h, so never both soon and past.
   */
  lemma FiguresFacts(d: int)
    ensures var f := Figures(DiffHms(d));
      && (f.isPast <==> d < 0)
      && (f.isPast ==> f.hours == 0 && f.minutes == 0 && f.seconds == 0)
      && (!f.isPast ==>
            && 0 <= f.minutes < 60 && 0 <= f.seconds < 60
            && f.hours * MillisPerHour + f.minutes * MillisPerMinute + f.seconds * 1000 <= d
            && d < f.hours * MillisPerHour + f.minutes * MillisPerMinute + f.seconds * 1000 + 1000)
      && (f.isSoon <==> 0 <= d < 24 * MillisPerHour)
      && !(f.isSoon && f.isPast)
  {
    var r := DiffHms(d);
    if d >= 0 {
      assert r.millis == r.millis / 1000 * 1000 + r.millis % 1000;
    }
  }

  /** The card header: the zone name's last '/'-segment with its first '_' turned into a space. */
  function CardHeader(name: string): (header: string)
    ensures '/' !in header && |header| <= |name|
    ensures '/' !in name[|name| - |header|..]
    ensures |header| < |name| ==> name[|name| - |header| - 1] == '/'
    ensures var segment := name[|name| - |header|..];
      forall k :: 0 <= k < |header| ==>
        header[k] == if segment[k] == '_' && '_' !in segment[..k] then ' ' else segment[k]
  {
    var segment := AfterLast(name, '/');
    assert segment == name[|name| - |segment|..];
    ReplaceFirst(segment, '_', ' ')
  }

  datatype CardView = CardView(header: string, figures: CardFigures)

  /**
   * CountdownCard for the zone offsetMinutes east of UTC at instant `now`:
   * the target is 1 January 00:00 of the zone's next year, so the card is
   * never past; it shows the time left truncated to the second, and is soon
   * exactly during the zone's 31 December after midnight.
   */
  function CountdownCard(name: string, offsetMinutes: int, now: int): (v: CardView)
    ensures !v.figures.isPast
    ensures var dt := ToLocal(now, offsetMinutes);
      v.figures.isSoon <==> IsNewYearsEve(dt.date) && TimeOfDay(dt) > 0
    ensures var left := StartOfYear(ToLocal(now, offsetMinutes).date.year + 1, offsetMinutes) - now;
      var f := v.figures;
      && f.hours * MillisPerHour + f.minutes * MillisPerMinute + f.seconds * 1000 <= left
      && left < f.hours * MillisPerHour + f.minutes * MillisPerMinute + f.seconds * 1000 + 1000
    ensures v.header == CardHeader(name)
  {
    var nextYear := ToLocal(now, offsetMinutes).date.year + 1;
    var target := StartOfYear(nextYear, offsetMinutes);
    LocalYearFacts(now, offsetMinutes);
    TimeOfDayFacts(now, offsetMinutes);
    FiguresFacts(target - now);
    CardView(CardHeader(name), Figures(DiffHms(target - now)))
  }

  // ---------------------------------------------------------------------
  // The world (UTC) countdown
  // ---------------------------------------------------------------------

  datatype DhmsDiff = DhmsDiff(days: int, hours: int, minutes: int, millis: int)

  /** target.diff(now, ['days', 'hours', 'minutes', 'seconds']) in UTC, for d = target - now. */
  function DiffDhms(d: int): (r: DhmsDiff)
    ensures r.days * MillisPerDay + r.hours * MillisPerHour + r.minutes * MillisPerMinute + r.millis == d
    ensures d >= 0 ==> r.days >= 0 && 0 <= r.hours < 24 && 0 <= r.minutes < 60 && 0 <= r.millis < MillisPerMinute
    ensures d < 0 ==> r.days <= 0 && r.hours <= 0 && r.minutes <= 0 && -MillisPerMinute < r.millis <= 0
  {
    var a := if d < 0 then -d else d;
    var days := a / MillisPerDay;
    var rest := a % MillisPerDay;
    Decompose(rest);
    var h := rest / MillisPerHour;
    var m := rest % MillisPerHour / MillisPerMinute;
    var ms := rest % MillisPerMinute;
    if d < 0 then DhmsDiff(-days, -h, -m, -ms) else DhmsDiff(days, h, m, ms)
  }

  /** The four numbers on the world countdown. */
  datatype WorldUnits = WorldUnits(days: int, hours: int, minutes: int, seconds: int)

  /** Math.max(0, n). */
  function AtLeastZero(n: int): int {
    if n < 0 then 0 else n
  }

  /** Each unit is Math.max(0, Math.floor(part)). */
  function WorldFigures(diff: DhmsDiff): WorldUnits {
    WorldUnits(AtLeastZero(diff.days), AtLeastZero(diff.hours), AtLeastZero(diff.minutes),
               AtLeastZero(FloorSeconds(diff.millis)))
  }

  /**
   * For d milliseconds to go the world countdown never shows a negative
   * number: zeros once d < 0, otherwise d split into days, hours, minutes
   * and whole seconds.
   */
  lemma WorldFiguresFacts(d: int)
    ensures var u := WorldFigures(DiffDhms(d));
      && u.days >= 0 && u.hours >= 0 && u.minutes >= 0 && u.seconds >= 0
      && (d < 0 ==> u == WorldUnits(0, 0, 0, 0))
      && (d >= 0 ==>
            && u.hours < 24 && u.minutes < 60 && u.seconds < 60
            && u.days * MillisPerDay + u.hours * MillisPerHour + u.minutes * MillisPerMinute + u.seconds * 1000 <= d
            && d < u.days * MillisPerDay + u.hours * MillisPerHour + u.minutes * MillisPerMinute + u.seconds * 1000 + 1000)
  {
    var r := DiffDhms(d);
    if d >= 0 {
      assert r.millis == r.millis / 1000 * 1000 + r.millis % 1000;
    }
  }

  /** The world countdown at `now`: the time left until 1 January 00:00 UTC of next year. */
  function WorldCountdown(now: int): (u: WorldUnits)
    ensures u.days >= 0 && 0 <= u.hours < 24 && 0 <= u.minutes < 60 && 0 <= u.seconds < 60
    ensures var left := StartOfYear(ToLocal(now, 0).date.year + 1, 0) - now;
      && left > 0
      && u.days * MillisPerDay + u.hours * MillisPerHour + u.minutes * MillisPerMinute + u.seconds * 1000 <= left
      && left < u.days * MillisPerDay + u.hours * MillisPerHour + u.minutes * MillisPerMinute + u.seconds * 1000 + 1000
  {
    var utcTarget := StartOfYear(ToLocal(now, 0).date.year + 1, 0);
    LocalYearFacts(now, 0);
    WorldFiguresFacts(utcTarget - now);
    WorldFigures(DiffDhms(utcTarget - now))
  }

  // ---------------------------------------------------------------------
  // "New Year has just arrived in"
  // ---------------------------------------------------------------------

  /** How long after midnight a zone stays in the banner: 90 minutes. */
  const CelebrationWindowSeconds := 90 * 60

  /**
   * The zone is on 1 January and fewer than 5400 seconds have passed since
   * its local start of the year; equivalently, its latest New Year began at
   * most 90 minutes ago (exactly 5400 seconds is out).
   */
  function JustCelebrated(offsetMinutes: int, now: int): (b: bool)
    ensures b <==> ElapsedInYear(now, offsetMinutes) < 5_400_000
  {
    var nowInZone := ToLocal(now, offsetMinutes);
    LocalYearFacts(now, offsetMinutes);
    LocalYearOfToLocal(now, offsetMinutes);
    if nowInZone.date.month == 1 && nowInZone.date.day == 1 then
      var sinceMidnight := now - StartOfYear(nowInZone.date.year, offsetMinutes);
      var secondsSinceMidnight := sinceMidnight as real / 1000.0;
      SecondsInWindow(sinceMidnight);
      secondsSinceMidnight >= 0.0 && secondsSinceMidnight < CelebrationWindowSeconds as real
    else false
  }

  /** Milliseconds counted in fractional seconds fall in [0, 5400) exactly when they fall in [0, 5400000). */
  lemma SecondsInWindow(ms: int)
    ensures var s := ms as real / 1000.0;
      (s >= 0.0 && s < CelebrationWindowSeconds as real) <==> 0 <= ms < 5_400_000
  {
    var s := ms as real / 1000.0;
    assert s * 1000.0 == ms as real;
  }

  /**
   * Around a local New Year, the zone is in the banner from midnight until
   * 5400 seconds later, that instant excluded, and not before midnight.
   */
  lemma JustCelebratedNear(y: int, offsetMinutes: int, e: int)
    requires -MillisPerDay <= e < MillisPerDay
    ensures JustCelebrated(offsetMinutes, StartOfYear(y, offsetMinutes) + e) <==> 0 <= e < 5_400_000
  {
    if e >= 0 {
      ElapsedAfterNewYear(y, offsetMinutes, e);
    } else {
      ElapsedBeforeNewYear(y, offsetMinutes, e);
    }
  }

  /**
   * label.split(') ')[1] || label: the text after the first ") " up to any
   * next one, or the whole label when that piece is missing or empty.
   */
  function CityName(labelText: string): (city: string)
    ensures city == "" ==> labelText == ""
    ensures IndexOfFrom(labelText, ") ", 0).None? ==> city == labelText
    ensures IndexOfFrom(labelText, ") ", 0).Some? ==>
      var start := IndexOfFrom(labelText, ") ", 0).value + 2;
      var end := PieceEnd(labelText, ") ", start);
      city == if start < end then labelText[start..end] else labelText
  {
    SplitSecondPiece(labelText, ") ");
    var parts := Split(labelText, ") ");
    if |parts| >= 2 && parts[1] != "" then parts[1] else labelText
  }

  /** A label of the form "(UTC+X) City" yields City. */
  lemma CityNameOfLabel(offsetText: string, city: string)
    requires ')' !in offsetText && ')' !in city && city != ""
    ensures CityName("(" + offsetText + ") " + city) == city
  {
    SplitAroundPair("(" + offsetText, ") ", city);
    assert "(" + offsetText + ") " + city == ("(" + offsetText) + ") " + city;
  }

  /** A label without ") " is used whole. */
  lemma CityNameFallback(labelText: string)
    requires ')' !in labelText
    ensures CityName(labelText) == labelText
  {
    forall j | 0 <= j && j + 2 <= |labelText| ensures !OccursAt(labelText, ") ", j) {
      assert labelText[j..j + 2][0] == labelText[j];
    }
    assert IndexOfFrom(labelText, ") ", 0).None?;
  }

  predicate NoDuplicates(s: seq<string>) {
    forall i, j :: 0 <= i < j < |s| ==> s[i] != s[j]
  }

  /** [...new Set(s)]: each value once, where it first occurs. */
  function Dedupe(s: seq<string>): (r: seq<string>)
    ensures NoDuplicates(r)
    ensures forall x :: x in r <==> x in s
    ensures |r| <= |s|
  {
    if s == [] then []
    else
      var r := Dedupe(s[..|s| - 1]);
      var x := s[|s| - 1];
      assert forall y :: y in s <==> y in s[..|s| - 1] || y == x by {
        assert s == s[..|s| - 1] + [x];
      }
      if x in r then r else r + [x]
  }

  /** The position where x first occurs in s. */
  function FirstIndex(s: seq<string>, x: string): (i: nat)
    requires x in s
    ensures i < |s| && s[i] == x && x !in s[..i]
  {
    if s[0] == x then 0
    else
      var i := 1 + FirstIndex(s[1..], x);
      assert s[..i] == [s[0]] + s[1..][..i - 1];
      i
  }

  lemma FirstIndexOfPrefix(s: seq<string>, x: string)
    requires |s| > 0 && x in s[..|s| - 1]
    ensures FirstIndex(s, x) == FirstIndex(s[..|s| - 1], x)
  {
    var i := FirstIndex(s[..|s| - 1], x);
    var j := FirstIndex(s, x);
    assert s[..|s| - 1][..i] == s[..i];
  }

  /** The deduplicated values come in the order of their first occurrences. */
  lemma {:induction false} DedupeOrder(s: seq<string>)
    ensures forall i, j :: 0 <= i < j < |Dedupe(s)| ==> FirstIndex(s, Dedupe(s)[i]) < FirstIndex(s, Dedupe(s)[j])
  {
    if s != [] {
      var init := s[..|s| - 1];
      var x := s[|s| - 1];
      DedupeOrder(init);
      var r := Dedupe(init);
      forall i, j | 0 <= i < j < |Dedupe(s)| ensures FirstIndex(s, Dedupe(s)[i]) < FirstIndex(s, Dedupe(s)[j]) {
        var a := Dedupe(s)[i];
        var b := Dedupe(s)[j];
        assert a in r;
        FirstIndexOfPrefix(s, a);
        if j < |r| {
          assert b in r;
          FirstIndexOfPrefix(s, b);
        } else {
          assert b == x && x !in init;
          assert FirstIndex(s, b) == |s| - 1;
        }
      }
    }
  }

  /** The city names of the entries satisfying `chosen`, in catalog order. */
  function NamesWhere(catalog: seq<ZoneEntry>, chosen: ZoneEntry -> bool): seq<string> {
    if catalog == [] then []
    else
      var tz := catalog[|catalog| - 1];
      NamesWhere(catalog[..|catalog| - 1], chosen) + (if chosen(tz) then [CityName(tz.labelText)] else [])
  }

  /** A name is listed exactly when some chosen entry carries it. */
  lemma {:induction false} NamesWhereMembers(catalog: seq<ZoneEntry>, chosen: ZoneEntry -> bool, c: string)
    ensures c in NamesWhere(catalog, chosen)
        <==> exists k :: 0 <= k < |catalog| && chosen(catalog[k]) && CityName(catalog[k].labelText) == c
  {
    if catalog != [] {
      var init := catalog[..|catalog| - 1];
      var tz := catalog[|catalog| - 1];
      NamesWhereMembers(init, chosen, c);
      if exists k :: 0 <= k < |catalog| && chosen(catalog[k]) && CityName(catalog[k].labelText) == c {
        var k :| 0 <= k < |catalog| && chosen(catalog[k]) && CityName(catalog[k].labelText) == c;
        if k < |init| {
          assert init[k] == catalog[k];
        }
      }
      if exists k :: 0 <= k < |init| && chosen(init[k]) && CityName(init[k].labelText) == c {
        var k :| 0 <= k < |init| && chosen(init[k]) && CityName(init[k].labelText) == c;
        assert init[k] == catalog[k];
      }
    }
  }

  /** The banner's test for one catalog entry at instant `now`. */
  function BannerTest(now: int): ZoneEntry -> bool {
    (e: ZoneEntry) => JustCelebrated(e.offsetMinutes, now)
  }

  /** The city names pushed by the forEach loop, in catalog order. */
  function CelebratedNames(catalog: seq<ZoneEntry>, now: int): seq<string> {
    NamesWhere(catalog, BannerTest(now))
  }

  /**
   * getRecentlyCelebrated: the cities whose New Year began at most 90 minutes
   * ago, each name once, in the order the catalog first lists them.
   */
  method RecentlyCelebrated(catalog: seq<ZoneEntry>, now: int) returns (cities: seq<string>)
    ensures cities == Dedupe(CelebratedNames(catalog, now))
    ensures NoDuplicates(cities)
    ensures forall c :: c in cities <==> exists k ::
      (0 <= k < |catalog| && JustCelebrated(catalog[k].offsetMinutes, now) && CityName(catalog[k].labelText) == c)
  {
    var celebratedCities: seq<string> := [];
    for k := 0 to |catalog|
      invariant celebratedCities == CelebratedNames(catalog[..k], now)
    {
      var tz := catalog[k];
      assert catalog[..k + 1][..k] == catalog[..k];
      if JustCelebrated(tz.offsetMinutes, now) {
        celebratedCities := celebratedCities + [CityName(tz.labelText)];
      }
    }
    assert catalog[..|catalog|] == catalog;
    cities := Dedupe(celebratedCities);
    forall c ensures c in cities <==> exists k ::
      (0 <= k < |catalog| && JustCelebrated(catalog[k].offsetMinutes, now) && CityName(catalog[k].labelText) == c)
    {
      NamesWhereMembers(catalog, BannerTest(now), c);
    }
  }

  // ---------------------------------------------------------------------
  // The zone selector
  // ---------------------------------------------------------------------

  datatype SelectOption = SelectOption(value: string, text: string)

  /** ALL_ZONES.find(z => z.value === selected): the index of the first entry with that zone name. */
  function FindZone(catalog: seq<ZoneEntry>, selected: string): (r: Option<nat>)
    ensures r.Some? ==> r.value < |catalog| && catalog[r.value].value == selected
    ensures r.None? <==> forall k :: 0 <= k < |catalog| ==> catalog[k].value != selected
  {
    if catalog == [] then None
    else if catalog[0].value == selected then Some(0)
    else match FindZone(catalog[1..], selected)
      case None => None
      case Some(i) => Some(i + 1)
  }

  /**
   * The selector's options: one per catalog entry, plus a "Local: <zone>"
   * option exactly when the selected zone is not in the catalog, so the
   * selected value always has an option.
   */
  function SelectorOptions(catalog: seq<ZoneEntry>, selected: string): (opts: seq<SelectOption>)
    ensures exists i :: 0 <= i < |opts| && opts[i].value == selected
    ensures |opts| == |catalog| + (if FindZone(catalog, selected).None? then 1 else 0)
    ensures forall k :: 0 <= k < |catalog| ==> opts[k] == SelectOption(catalog[k].value, catalog[k].labelText)
    ensures FindZone(catalog, selected).None? ==> opts[|catalog|] == SelectOption(selected, "Local: " + selected)
  {
    var listed := seq(|catalog|, k requires 0 <= k < |catalog| => SelectOption(catalog[k].value, catalog[k].labelText));
    match FindZone(catalog, selected)
    case Some(i) =>
      assert listed[i].value == selected;
      listed
    case None =>
      var opts := listed + [SelectOption(selected, "Local: " + selected)];
      assert opts[|catalog|].value == selected;
      opts
  }

  // ---------------------------------------------------------------------
  // The zone catalog
  // ---------------------------------------------------------------------

  /** ALL_ZONES as written; its first entry, labelled UTC+14, names the UTC-12 zone. */
  const AllZonesAsWritten: seq<ZoneEntry> := [
    ZoneEntry("(UTC+14) Kiritimati", "Etc/GMT+12", -720),
    ZoneEntry("(UTC+13) Tongatapu", "Pacific/Tongatapu", 780),
    ZoneEntry("(UTC+12) Auckland", "Pacific/Auckland", 780),
    ZoneEntry("(UTC+11) Noumea", "Pacific/Noumea", 660),
    ZoneEntry("(UTC+10) Sydney", "Australia/Sydney", 660),
    ZoneEntry("(UTC+9) Tokyo", "Asia/Tokyo", 540),
    ZoneEntry("(UTC+8) Shanghai", "Asia/Shanghai", 480),
    ZoneEntry("(UTC+7) Bangkok", "Asia/Bangkok", 420),
    ZoneEntry("(UTC+6) Dhaka", "Asia/Dhaka", 360),
    ZoneEntry("(UTC+5:30) Kolkata", "Asia/Kolkata", 330),
    ZoneEntry("(UTC+5) Karachi", "Asia/Karachi", 300),
    ZoneEntry("(UTC+4) Dubai", "Asia/Dubai", 240),
    ZoneEntry("(UTC+3) Moscow", "Europe/Moscow", 180),
    ZoneEntry("(UTC+2) Cairo", "Africa/Cairo", 120),
    ZoneEntry("(UTC+1) Paris", "Europe/Paris", 60),
    ZoneEntry("(UTC+0) London", "Europe/London", 0),
    ZoneEntry("(UTC-1) Azores", "Atlantic/Azores", -60),
    ZoneEntry("(UTC-2) South Georgia", "Atlantic/South_Georgia", -120),
    ZoneEntry("(UTC-3) Buenos Aires", "America/Argentina/Buenos_Aires", -180),
    ZoneEntry("(UTC-4) Santiago", "America/Santiago", -180),
    ZoneEntry("(UTC-5) New York", "America/New_York", -300),
    ZoneEntry("(UTC-6) Chicago", "America/Chicago", -360),
    ZoneEntry("(UTC-7) Denver", "America/Denver", -420),
    ZoneEntry("(UTC-8) Los Angeles", "America/Los_Angeles", -480),
    ZoneEntry("(UTC-9) Anchorage", "America/Anchorage", -540),
    ZoneEntry("(UTC-10) Honolulu", "Pacific/Honolulu", -600),
    ZoneEntry("(UTC-11) Pago Pago", "Pacific/Pago_Pago", -660),
    ZoneEntry("(UTC-12) Baker Island", "Etc/GMT+12", -720)
  ]

  /** The catalog with Kiritimati in its own zone, UTC+14; every other entry as written. */
  const AllZones: seq<ZoneEntry> := [ZoneEntry("(UTC+14) Kiritimati", "Pacific/Kiritimati", 840)] + AllZonesAsWritten[1..]

  /** The offsets of a catalog's entries, in order. */
  function Offsets(catalog: seq<ZoneEntry>): (r: seq<int>)
    ensures |r| == |catalog| && forall k :: 0 <= k < |catalog| ==> r[k] == catalog[k].offsetMinutes
  {
    seq(|catalog|, k requires 0 <= k < |catalog| => catalog[k].offsetMinutes)
  }

  /** The offsets of the catalog as written, entry by entry. */
  lemma AsWrittenOffsets()
    ensures Offsets(AllZonesAsWritten) == [-720, 780, 780, 660, 660, 540, 480, 420, 360, 330, 300, 240, 180, 120, 60, 0, -60, -120, -180, -180, -300, -360, -420, -480, -540, -600, -660, -720]
  {
  }

  /** The catalog as written has 28 entries, none west of UTC-12 and none east of UTC+13. */
  lemma AsWrittenBounds()
    ensures |AllZonesAsWritten| == 28
    ensures forall k :: 0 <= k < |AllZonesAsWritten| ==> -720 <= AllZonesAsWritten[k].offsetMinutes <= 780
  {
    AsWrittenOffsets();
  }

  /** No entry of the corrected catalog is east of UTC+14. */
  lemma CorrectedEastmost()
    ensures |AllZones| == 28
    ensures forall k :: 0 <= k < |AllZones| ==> AllZones[k].offsetMinutes <= 840
  {
    AsWrittenBounds();
    ReplaceHeadBound(ZoneEntry("(UTC+14) Kiritimati", "Pacific/Kiritimati", 840), AllZonesAsWritten, 840);
  }

  /** Replacing the first entry by one at most `bound` keeps every offset at most `bound`. */
  lemma ReplaceHeadBound(e: ZoneEntry, catalog: seq<ZoneEntry>, bound: int)
    requires catalog != [] && e.offsetMinutes <= bound
    requires forall k :: 0 <= k < |catalog| ==> catalog[k].offsetMinutes <= bound
    ensures |[e] + catalog[1..]| == |catalog|
    ensures forall k :: 0 <= k < |catalog| ==> ([e] + catalog[1..])[k].offsetMinutes <= bound
  {
    forall k | 1 <= k < |catalog| ensures ([e] + catalog[1..])[k].offsetMinutes <= bound {
      assert ([e] + catalog[1..])[k] == catalog[k];
    }
  }

  /**
   * As written, the entry labelled UTC+14 is the UTC-12 zone of Baker Island:
   * its New Year comes 26 hours after the label's, last of all entries and at
   * the same instant as Baker Island's, so both names enter the banner together.
   */
  lemma KiritimatiAsWritten(y: int, now: int)
    ensures AllZonesAsWritten[0].offsetMinutes == AllZonesAsWritten[27].offsetMinutes == -12 * 60
    ensures StartOfYear(y, AllZonesAsWritten[0].offsetMinutes) - StartOfYear(y, 14 * 60) == 26 * MillisPerHour
    ensures forall k :: 0 <= k < |AllZonesAsWritten| ==>
      StartOfYear(y, AllZonesAsWritten[k].offsetMinutes) <= StartOfYear(y, AllZonesAsWritten[0].offsetMinutes)
    ensures JustCelebrated(AllZonesAsWritten[0].offsetMinutes, now) <==> JustCelebrated(AllZonesAsWritten[27].offsetMinutes, now)
  {
    AsWrittenBounds();
  }

  /** With the zone corrected, Kiritimati reaches New Year first of all entries, 14 hours before UTC. */
  lemma KiritimatiFirst(y: int)
    ensures forall k :: 0 <= k < |AllZones| ==>
      StartOfYear(y, AllZones[0].offsetMinutes) <= StartOfYear(y, AllZones[k].offsetMinutes)
    ensures StartOfYear(y, 0) - StartOfYear(y, AllZones[0].offsetMinutes) == 14 * MillisPerHour
    ensures |AllZones| == |AllZonesAsWritten| && AllZones[1..] == AllZonesAsWritten[1..]
  {
    CorrectedEastmost();
    AsWrittenBounds();
  }
}
