/**
 * The "Global Celebration Feed": which of the fetched public holidays are
 * shown, the header above them, and each entry's date prefix and country
 * name. The fetch is replaced by its outcome (the list, or None when it
 * failed); today's date is the user's local date, a parameter.
 */
module HolidaysToday {
  import opened Wrappers
  import opened Calendar
  import opened IsoDate

  /** A public holiday as the holiday service lists it. */
  datatype Holiday = Holiday(date: string, name: string, countryCode: string)

  /** dateString: today's local date as 'yyyy-MM-dd'. */
  function TodayString(now: int, offsetMinutes: int): string {
    FormatIsoDate(ToLocal(now, offsetMinutes).date)
  }

  /** For years 0 to 9999, today's text reads back as today's date, so it names that one day only. */
  lemma TodayStringReadsBack(now: int, offsetMinutes: int)
    requires 0 <= ToLocal(now, offsetMinutes).date.year <= 9999
    ensures ParseIsoDate(TodayString(now, offsetMinutes)) == Some(ToLocal(now, offsetMinutes).date)
  {
    ParseFormatIsoDate(ToLocal(now, offsetMinutes).date);
  }

  /** a is b with some entries left out, the rest in order. */
  predicate Subsequence(a: seq<Holiday>, b: seq<Holiday>)
    decreases |b|
  {
    if a == [] then true
    else if b == [] then false
    else if a[0] == b[0] then Subsequence(a[1..], b[1..])
    else Subsequence(a, b[1..])
  }

  lemma {:induction false} SubsequenceOfPrefix(a: seq<Holiday>, b: seq<Holiday>, k: nat)
    requires Subsequence(a, b) && k <= |a|
    ensures Subsequence(a[..k], b)
    decreases |b|
  {
    if k > 0 && b != [] {
      if a[0] == b[0] {
        SubsequenceOfPrefix(a[1..], b[1..], k - 1);
        assert a[..k][1..] == a[1..][..k - 1];
      } else {
        SubsequenceOfPrefix(a, b[1..], k);
      }
    }
  }

  lemma {:induction false} PrefixIsSubsequence(b: seq<Holiday>, k: nat)
    requires k <= |b|
    ensures Subsequence(b[..k], b)
    decreases |b|
  {
    if k > 0 {
      PrefixIsSubsequence(b[1..], k - 1);
      assert b[..k][1..] == b[1..][..k - 1];
    }
  }

  /** todaysHolidays: the fetched entries dated today, in fetched order. */
  function TodaysHolidays(fetched: seq<Holiday>, today: string): (r: seq<Holiday>)
    ensures forall i :: 0 <= i < |r| ==> r[i].date == today && r[i] in fetched
    ensures forall i :: 0 <= i < |fetched| && fetched[i].date == today ==> fetched[i] in r
    ensures |r| <= |fetched|
  {
    if fetched == [] then []
    else (if fetched[0].date == today then [fetched[0]] else []) + TodaysHolidays(fetched[1..], today)
  }

  /** The filter keeps the fetched order: its result is a subsequence of the fetched list. */
  lemma {:induction false} TodaysHolidaysSubsequence(fetched: seq<Holiday>, today: string)
    ensures Subsequence(TodaysHolidays(fetched, today), fetched)
    decreases |fetched|
  {
    if fetched != [] {
      TodaysHolidaysSubsequence(fetched[1..], today);
      var rest := TodaysHolidays(fetched[1..], today);
      if fetched[0].date == today {
        assert ([fetched[0]] + rest)[1..] == rest;
      } else {
        assert [] + rest == rest;
      }
    }
  }

  /** The filter keeps every entry dated today as often as it was fetched, and no other entry. */
  lemma {:induction false} TodaysHolidaysCounts(fetched: seq<Holiday>, today: string)
    ensures forall x :: multiset(TodaysHolidays(fetched, today))[x] == if x.date == today then multiset(fetched)[x] else 0
    decreases |fetched|
  {
    if fetched != [] {
      TodaysHolidaysCounts(fetched[1..], today);
      var rest := TodaysHolidays(fetched[1..], today);
      var head := if fetched[0].date == today then [fetched[0]] else [];
      assert fetched == [fetched[0]] + fetched[1..];
      assert TodaysHolidays(fetched, today) == head + rest;
      assert multiset(fetched) == multiset([fetched[0]]) + multiset(fetched[1..]);
      assert multiset(head + rest) == multiset(head) + multiset(rest);
    }
  }

  /** The filter leaves out exactly the entries of other days. */
  lemma TodaysHolidaysNone(fetched: seq<Holiday>, today: string)
    ensures TodaysHolidays(fetched, today) == [] <==> forall i :: 0 <= i < |fetched| ==> fetched[i].date != today
  {
  }

  /** xs.slice(0, n) for n >= 0. */
  function Take(xs: seq<Holiday>, n: nat): (r: seq<Holiday>)
    ensures |r| == if |xs| < n then |xs| else n
    ensures r == xs[..|r|]
  {
    if |xs| < n then xs else xs[..n]
  }

  /**
   * The list shown: the first five of today's holidays when there are any,
   * otherwise the first three upcoming ones.
   */
  function ShownHolidays(fetched: seq<Holiday>, today: string): (r: seq<Holiday>)
    ensures var todays := TodaysHolidays(fetched, today);
      todays != [] ==> r == Take(todays, 5)
    ensures TodaysHolidays(fetched, today) == [] ==> r == Take(fetched, 3)
  {
    var todaysHolidays := TodaysHolidays(fetched, today);
    if |todaysHolidays| > 0 then Take(todaysHolidays, 5) else Take(fetched, 3)
  }

  /** At most five entries are shown, in fetched order, and they are all today's when any of today's exist. */
  lemma ShownHolidaysFacts(fetched: seq<Holiday>, today: string)
    ensures |ShownHolidays(fetched, today)| <= 5
    ensures Subsequence(ShownHolidays(fetched, today), fetched)
    ensures TodaysHolidays(fetched, today) != [] ==>
      forall i :: 0 <= i < |ShownHolidays(fetched, today)| ==> ShownHolidays(fetched, today)[i].date == today
    ensures TodaysHolidays(fetched, today) == [] ==>
      forall i :: 0 <= i < |ShownHolidays(fetched, today)| ==> ShownHolidays(fetched, today)[i].date != today
  {
    var todays := TodaysHolidays(fetched, today);
    var shown := ShownHolidays(fetched, today);
    if todays != [] {
      TodaysHolidaysSubsequence(fetched, today);
      SubsequenceOfPrefix(todays, fetched, |shown|);
    } else {
      PrefixIsSubsequence(fetched, |shown|);
      TodaysHolidaysNone(fetched, today);
    }
  }

  datatype Header = Scanning | LiveToday | ComingUpNext

  /** The feed's header: scanning while loading, "Live Today" when the first shown entry is today's. */
  function FeedHeader(loading: bool, holidays: seq<Holiday>, today: string): (h: Header)
    ensures h == Scanning <==> loading
    ensures h == LiveToday <==> !loading && |holidays| > 0 && holidays[0].date == today
  {
    if loading then Scanning
    else if |holidays| > 0 && holidays[0].date == today then LiveToday
    else ComingUpNext
  }

  /** The feed's state once the fetch has settled. */
  datatype Feed = Feed(holidays: seq<Holiday>, loading: bool, error: bool)

  /** fetchHolidays' effect: the shown list on success, the error flag on failure; loading ends either way. */
  function AfterFetch(outcome: Option<seq<Holiday>>, today: string): (f: Feed)
    ensures !f.loading
    ensures f.error <==> outcome.None?
    ensures outcome.Some? ==> f.holidays == ShownHolidays(outcome.value, today)
    ensures outcome.None? ==> f.holidays == []
  {
    match outcome
    case Some(fetched) => Feed(ShownHolidays(fetched, today), false, false)
    case None => Feed([], false, true)
  }

  /** After a successful fetch the header says "Live Today" exactly when some fetched holiday is today's. */
  lemma LiveTodayIffAnyToday(fetched: seq<Holiday>, today: string)
    ensures FeedHeader(false, ShownHolidays(fetched, today), today) == LiveToday
        <==> exists i :: 0 <= i < |fetched| && fetched[i].date == today
  {
    ShownHolidaysFacts(fetched, today);
    TodaysHolidaysNone(fetched, today);
    var todays := TodaysHolidays(fetched, today);
    if todays != [] {
      assert todays[0] in fetched;
    }
  }

  const MonthAbbreviations: seq<string> :=
    ["Jan", "Feb", "Mar", "Apr", "May", "Jun", "Jul", "Aug", "Sep", "Oct", "Nov", "Dec"]

  /** DateTime.fromISO(text).toFormat('MMM dd'); an unreadable date formats as "Invalid DateTime". */
  function ShortDate(text: string): (r: string)
    ensures ParseIsoDate(text).None? ==> r == "Invalid DateTime"
    ensures ParseIsoDate(text).Some? ==> |r| == 6 && r[..3] == MonthAbbreviations[ParseIsoDate(text).value.month - 1]
                                         && r[3] == ' ' && AllDigits(r[4..]) && ParseDigits(r[4..]) == ParseIsoDate(text).value.day
  {
    match ParseIsoDate(text)
    case None => "Invalid DateTime"
    case Some(d) =>
      PadNumberLength(d.day, 2, 100);
      PadNumberParses(d.day, 2);
      assert (MonthAbbreviations[d.month - 1] + " " + PadNumber(d.day, 2))[4..] == PadNumber(d.day, 2);
      MonthAbbreviations[d.month - 1] + " " + PadNumber(d.day, 2)
  }

  /** The date prefix before an entry's country: shown exactly for entries not dated today. */
  function DatePrefix(h: Holiday, today: string): (r: Option<string>)
    ensures r.Some? <==> h.date != today
    ensures r.Some? ==> r.value == ShortDate(h.date)
  {
    if h.date != today then Some(ShortDate(h.date)) else None
  }

  /**
   * getCountryName: the browser's English name for the region code; when
   * the lookup throws (None), the code itself.
   */
  function CountryName(code: string, lookup: Option<string>): (name: string)
    ensures lookup.None? ==> name == code
    ensures lookup.Some? ==> name == lookup.value
  {
    lookup.GetOr(code)
  }
}
