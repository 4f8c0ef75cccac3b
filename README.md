# New Year watcher, modelled in Dafny

The application follows the New Year as it sweeps round the globe. It has a
small backend and a React dashboard.

The backend computes the longitude where it is midnight now. It keeps a
rolling store of the latest 50 wishes: new wishes are validated and
defaulted, and the store serves them newest first.

The dashboard shows:
- a world countdown in UTC;
- one countdown card per tracked zone;
- a "New Year has just arrived in" banner for zones that reached midnight less than 90 minutes ago;
- a schedule of every zone, sorted by time remaining and classified as done, incoming or waiting;
- a map that recenters on the midnight line and shades the part of the world that has already celebrated;
- a community poll with one vote per session;
- a feed of today's public holidays;
- a quote generator with a submission form;
- a time capsule that seals a message until a date and opens it by key.

This project models those parts. Each one is in its own module:

| module | models |
|---|---|
| `MidnightLongitude`, `Backend`, `Dashboard` | the midnight longitude, the wish store, and the local celebration window on the clock tick |
| `Countdown` | the countdown cards, the world countdown, the banner and the zone selector |
| `CelebrationSchedule` | the schedule table |
| `MapViz` | the map's pan rule, the shaded rectangle and the midnight line |
| `Polls` | the poll widget |
| `HolidaysToday` | the holiday feed |
| `QuoteGenerator` | the quotes page |
| `TimeCapsule` | the time capsule panel |

Several modules support the others:
- `Calendar`: the proleptic Gregorian calendar over millisecond instants and fixed zone offsets.
- `IsoDate`: `yyyy-MM-dd` text.
- `Strings`: `split`, `join` and `trim`.
- `Sorting`: a stable sort by key.
- `Numbers`: real floors.
- `Zones`: the zone record.
- `Wrappers`: `Option`.

Modelling conventions:
- An instant is a whole number of milliseconds since 1970-01-01T00:00Z.
- A zone is its UTC offset in minutes at New Year.
- Fractional hours and longitudes are exact reals.
- Every network request is cut in two: what the code does before the request (the guards and what is sent), and what it does with the outcome. The outcome is passed in as a parameter: the server's data on success, `None` on failure.
- "Now" and the user's zone offset are parameters.

A note on the midnight longitude. The code maps 12:00 UTC to -180 and never emits +180, so the model's range is [-180, 180). Using (-180, 180] would be the other seam convention, but the model follows the code.

## Model

| member | source | states |
|---|---|---|
| MidnightLongitude.FractionalHour | backend/main.py:71 | the fractional hour of a valid clock time lies in [hour, hour+1) and in [0, 24) |
| MidnightLongitude.LongitudeAt | backend/main.py:71-78 | the normalised longitude lies in [-180, 180), and the sun's local time there is midnight (solar hour 0 or 24) |
| MidnightLongitude.LongitudeAtUnique | backend/main.py:71-78 | it is the only longitude in [-180, 180) where it is midnight at that time |
| MidnightLongitude.LongitudeAtPieces | backend/main.py:74-78 | the longitude is -15h for h ≤ 12 and 360 - 15h for h > 12 |
| MidnightLongitude.Landmarks | backend/main.py:69-78 | 00:00 → 0, 06:00 → -90, 12:00 → -180, 18:00 → 90; +180 is never produced |
| MidnightLongitude.MovesWest | backend/main.py:74 | between two times on the same side of noon, the line moves west by 15 degrees per hour |
| MidnightLongitude.Normalize | backend/main.py:77-78 | both loops bring any value into [-180, 180] by whole turns; for values at most 180 the first loop never runs, and from -540 up the second runs at most once |
| Backend.CalculateMidnightLongitude | backend/main.py:67-80 | the backend's function returns LongitudeAt of the hour, minute and second; the `> 180` loop runs zero times and the `< -180` loop at most once |
| Backend.Appended | backend/main.py:29 | appending to the bounded store keeps at most 50 wishes and puts the new wish last; below capacity nothing is dropped; at capacity only the oldest is dropped, the rest in order |
| Backend.RingDistinct | backend/main.py:29 | the 50 ring slots of the deque are distinct |
| Backend.RingShift | backend/main.py:29 | after dropping the oldest, the ring's slots shift by one and wrap round |
| Backend.TakePrefix | backend/main.py:105 | Python's `[:limit]` slice: min(limit, n) entries for limit ≥ 0, n + limit (at least 0) for a negative limit, always a prefix |
| Backend.LatestWishesFacts | backend/main.py:100-105 | get_wishes is newest first by timestamp, a prefix of a permutation of the store, min(limit, n) long for limit ≥ 0, and stable: wishes with equal timestamps keep their insertion order |
| Backend.ValidateWish | backend/main.py:107-117 | a message over 200 characters is refused with 400 "Message too long"; otherwise the wish keeps message and region, is stamped with now, and is named "Anonymous" exactly when the name is missing, empty or "Anonymous" |
| Backend.WishStore.constructor | backend/main.py:29 | the store starts empty |
| Backend.WishStore.Append | backend/main.py:119 | the ring buffer in place holds exactly Appended(old contents, w) |
| Backend.WishStore.GetWishes | backend/main.py:100-105 | the result is LatestWishes of the contents: newest first, min(limit, count) long |
| Backend.WishStore.PostWish | backend/main.py:107-124 | the result is ValidateWish; a refused wish leaves the store unchanged; an accepted one is appended |
| Backend.MessageLengthBoundary | backend/main.py:109-110 | a 200-character message is accepted and a 201-character one refused |
| Backend.StoreBounded | backend/main.py:29 | after any sequence of posts the store holds min(50, old + posted) wishes, and the last posts are its tail |
| Backend.AppendAll | backend/main.py:119 | repeated appends never exceed 50 wishes |
| Dashboard.CalculateMidnightLongitude | frontend/src/Dashboard.jsx:24-30 | the dashboard's copy computes the same longitude as the backend, in [-180, 180) |
| Dashboard.CelebrationSoon | frontend/src/Dashboard.jsx:60-70 | the local fireworks flag is set exactly on the user's 1 January, or on 31 December after midnight; in January it means less than a day since New Year, in December less than a day to go, never in other months |
| Dashboard.HoursWindow | frontend/src/Dashboard.jsx:63-66 | the hours test -24 < diff/3600000 < 24 is the millisecond test -day < diff < day |
| Dashboard.DayWindow | frontend/src/Dashboard.jsx:60-66 | the target is this year's New Year in January (diff ≤ 0) and next year's otherwise (diff > 0), and the window holds exactly on 1 January or on 31 December after midnight |
| Dashboard.Clock.constructor | frontend/src/Dashboard.jsx:14-19 | the clock starts at the given instant with the flag off |
| Dashboard.Clock.Tick | frontend/src/Dashboard.jsx:52-70 | a tick stores the UTC time and sets the flag to CelebrationSoon for the user's zone |
| Dashboard.Clock.MidnightLon | frontend/src/Dashboard.jsx:32 | the map's longitude is LongitudeAt of the current UTC clock time |
| Countdown.Decompose | frontend/src/components/Countdown.jsx:73 | a non-negative duration splits into whole hours, minutes under 60 and a remainder under a minute |
| Countdown.DiffHms | frontend/src/components/Countdown.jsx:73 | the hours/minutes/seconds diff sums back to the duration; all parts are non-negative for a future target and non-positive for a past one |
| Countdown.FiguresFacts | frontend/src/components/Countdown.jsx:76-81 | the card is past exactly when the duration is negative and then shows zeros; otherwise it shows the time left truncated to the second, with minutes and seconds under 60; it is soon exactly when under 24 hours are left, never both |
| Countdown.CardHeader | frontend/src/components/Countdown.jsx:88 | the header comes from the zone name's last '/'-segment (no '/' in it, a '/' just before it unless it is the whole name), with only its first underscore turned into a space |
| Countdown.CountdownCard | frontend/src/components/Countdown.jsx:69-88 | the card counts down to the zone's next 1 January, so it is never past; it is soon exactly on the zone's 31 December after midnight; it shows the time left truncated to the second |
| Countdown.DiffDhms | frontend/src/components/Countdown.jsx:124 | the days/hours/minutes/seconds diff sums back to the duration with hours under 24, with one sign throughout |
| Countdown.WorldFiguresFacts | frontend/src/components/Countdown.jsx:176-179 | the world units are never negative; all zero for a past target; otherwise the time left truncated to the second |
| Countdown.WorldCountdown | frontend/src/components/Countdown.jsx:123-179 | the UTC countdown always has time left and shows it truncated to the second, hours under 24, minutes and seconds under 60 |
| Countdown.JustCelebrated | frontend/src/components/Countdown.jsx:130-142 | a zone is in the banner exactly when under 5400 seconds have passed since its local start of the year |
| Countdown.JustCelebratedNear | frontend/src/components/Countdown.jsx:137-142 | within a day of a local New Year, the zone is in the banner from midnight until 5400 s later, that instant excluded |
| Countdown.CityName | frontend/src/components/Countdown.jsx:145 | the city name is the text between the first ") " and the next one (or the end), or the whole label when there is no ") " or that piece is empty; it is empty only for an empty label |
| Strings.SplitSecondPiece | frontend/src/components/Countdown.jsx:145 | `split(sep)` gives the whole string when sep does not occur, and otherwise a second piece running from just after the first occurrence to the next one or the end |
| Countdown.CityNameOfLabel | frontend/src/components/Countdown.jsx:144-145 | a label "(UTC+X) City" gives City |
| Countdown.CityNameFallback | frontend/src/components/Countdown.jsx:145 | a label without ") " falls back to the whole label |
| Countdown.Dedupe | frontend/src/components/Countdown.jsx:151 | `[...new Set(xs)]` has no duplicates and the same members as xs |
| Countdown.FirstIndex | frontend/src/components/Countdown.jsx:151 | the first position of a member |
| Countdown.DedupeOrder | frontend/src/components/Countdown.jsx:151 | the Set keeps first-occurrence order |
| Countdown.NamesWhereMembers | frontend/src/components/Countdown.jsx:132-147 | a name is collected exactly when some chosen catalog entry has that city name |
| Countdown.RecentlyCelebrated | frontend/src/components/Countdown.jsx:127-152 | the loop returns the deduplicated celebrated names, without duplicates, and a city is listed exactly when some catalog zone with that city name celebrated less than 5400 s ago |
| Countdown.FindZone | frontend/src/components/Countdown.jsx:204 | `find` returns a matching entry, and nothing exactly when no entry has the selected value |
| Countdown.SelectorOptions | frontend/src/components/Countdown.jsx:201-206 | the selector lists every catalog zone in order, plus "Local: zone" exactly when the selected zone is not in the catalog, so the selection is always an option |
| Countdown.Offsets | frontend/src/components/Countdown.jsx:13-42 | the offsets of the catalog, entry by entry |
| Countdown.AsWrittenOffsets | frontend/src/components/Countdown.jsx:13-42 | the offsets of the catalog as written, entry by entry, in minutes |
| Countdown.AsWrittenBounds | frontend/src/components/Countdown.jsx:13-42 | the catalog as written has 28 entries, none west of UTC-12 and none east of UTC+13 |
| Countdown.CorrectedEastmost | frontend/src/components/Countdown.jsx:13-42 | the corrected catalog has 28 entries, none east of UTC+14 |
| Countdown.KiritimatiAsWritten | frontend/src/components/Countdown.jsx:14-41 | as written, the entry labelled UTC+14 is the UTC-12 zone: its New Year comes 26 hours after UTC+14's, last of all, and it is in the banner exactly when Baker Island is |
| Countdown.KiritimatiFirst | frontend/src/components/Countdown.jsx:14 | with Kiritimati at UTC+14 it reaches every New Year first, 14 hours before UTC; every other entry is unchanged |
| CelebrationSchedule.WithinLastDay | frontend/src/components/CelebrationSchedule.jsx:43-47 | the hours test -24 < diffThis ≤ 0 is the millisecond test -day < diff ≤ 0 |
| CelebrationSchedule.ChooseTarget | frontend/src/components/CelebrationSchedule.jsx:39-49 | the target is this year's New Year exactly on the zone's 1 January (then at most a day ago), otherwise next year's (then in the future) |
| CelebrationSchedule.MakeRow | frontend/src/components/CelebrationSchedule.jsx:33-53 | a row carries its zone, the chosen target and the hours from now to it |
| CelebrationSchedule.Rows | frontend/src/components/CelebrationSchedule.jsx:33 | the map makes one row per zone, in catalog order |
| CelebrationSchedule.EntriesPermutation | frontend/src/components/CelebrationSchedule.jsx:54 | rows that are a permutation carry a permutation of the zones |
| CelebrationSchedule.SortedZonesFacts | frontend/src/components/CelebrationSchedule.jsx:32-55 | sortedZones has one row per zone (a permutation of the catalog), each row as MakeRow makes it, ascending by hours remaining, with ties in catalog order |
| CelebrationSchedule.RowStatus | frontend/src/components/CelebrationSchedule.jsx:83-101 | Done exactly when celebrated, Incoming exactly when soon, Waiting otherwise |
| CelebrationSchedule.WithinNextDay | frontend/src/components/CelebrationSchedule.jsx:84 | the hours test 0 < h < 24 is the millisecond test 0 < diff < day |
| CelebrationSchedule.RowClassification | frontend/src/components/CelebrationSchedule.jsx:45-84 | a row is celebrated exactly on the zone's 1 January and soon exactly on its 31 December after midnight, never both |
| CelebrationSchedule.RemainingShown | frontend/src/components/CelebrationSchedule.jsx:125-127 | nothing for a celebrated row; otherwise the whole hours and whole minutes of the time left, minutes 0 to 59 |
| CelebrationSchedule.FractionFacts | frontend/src/components/CelebrationSchedule.jsx:127 | Math.floor(h) and Math.floor((h % 1) * 60) are the integer hours and minutes of the milliseconds |
| CelebrationSchedule.RegionNameOfLabel | frontend/src/components/CelebrationSchedule.jsx:107 | "City (UTC+X)" shows as City |
| CelebrationSchedule.ScheduleRegions | frontend/src/components/CelebrationSchedule.jsx:6 | the catalog's first label shows as Kiritimati |
| MapViz.NormalizedDiff | frontend/src/components/MapViz.jsx:24-28 | the distance is the absolute difference or 360 minus it |
| MapViz.NormalizedDiffFacts | frontend/src/components/MapViz.jsx:24-28 | for map longitudes the distance is in [0, 180], symmetric, zero to itself, and the shortest distance over whole turns of the globe |
| MapViz.UnwrappedCenterNeverPans | frontend/src/components/MapViz.jsx:24-31 | as written, a center more than a full turn from the line gives a negative distance and the map never pans |
| MapViz.UnwrappedCenterExample | frontend/src/components/MapViz.jsx:24-31 | a center at 370 and the line at -170 are 180 degrees apart, yet the distance is -180 and the map does not pan |
| MapViz.PanTarget | frontend/src/components/MapViz.jsx:28-31 | the map pans exactly when the distance exceeds 30 degrees, and then to latitude 20 on the midnight line |
| MapViz.PanSettles | frontend/src/components/MapViz.jsx:28-31 | after panning to the line, no further pan happens until the line moves more than 30 degrees; the seam at ±180 counts as near |
| MapViz.AlreadyCelebratedMeaning | frontend/src/components/MapViz.jsx:46-49 | a point is in the shaded rectangle exactly when it lies on or east of the midnight line |
| MapViz.LineBordersRectangle | frontend/src/components/MapViz.jsx:46-76 | the polyline runs pole to pole along the midnight longitude, which is the rectangle's western edge |
| Polls.Percentage | frontend/src/components/Polls.jsx:56-58 | 0 without votes; otherwise the nearest integer to 100·votes/total, with halves rounded up |
| Polls.PercentageBounds | frontend/src/components/Polls.jsx:56-58 | a share of the total shows between 0 and 100; no votes show 0 and all votes show 100 |
| Polls.OptionButtons | frontend/src/components/Polls.jsx:55-86 | one button per option: highlighted exactly for the session's vote, disabled and showing percentages exactly once a vote is recorded |
| Polls.PollWidget.constructor | frontend/src/components/Polls.jsx:6-8 | the widget starts loading, with no data and no vote |
| Polls.PollWidget.FinishFetch | frontend/src/components/Polls.jsx:11-20 | the fetched data on success, the old data on failure; loading ends either way |
| Polls.PollWidget.BeginVote | frontend/src/components/Polls.jsx:26-30 | a request is sent exactly when no vote is recorded, and the vote is then recorded before the request |
| Polls.PollWidget.FinishVote | frontend/src/components/Polls.jsx:33-39 | success shows the server's data and keeps the vote; failure withdraws the vote |
| Polls.OneVotePerSession | frontend/src/components/Polls.jsx:26-34 | after a successful vote, a second click sends nothing |
| Polls.RetryAfterFailure | frontend/src/components/Polls.jsx:26-38 | after a failed vote, a new vote is sent |
| HolidaysToday.TodayStringReadsBack | frontend/src/components/HolidaysToday.jsx:11-12 | today's `yyyy-MM-dd` text reads back as today's local date |
| HolidaysToday.TodaysHolidays | frontend/src/components/HolidaysToday.jsx:24 | every kept entry is dated today and was fetched, every fetched entry dated today is kept, and the result is no longer than the fetched list |
| HolidaysToday.TodaysHolidaysCounts | frontend/src/components/HolidaysToday.jsx:24 | each entry dated today is kept as many times as it was fetched, and no other entry is kept; with the order lemma this fixes the filter's result exactly |
| HolidaysToday.TodaysHolidaysSubsequence | frontend/src/components/HolidaysToday.jsx:24 | the filter keeps the fetched order |
| HolidaysToday.TodaysHolidaysNone | frontend/src/components/HolidaysToday.jsx:24 | the filter is empty exactly when no entry is dated today |
| HolidaysToday.Take | frontend/src/components/HolidaysToday.jsx:28-30 | `slice(0, n)` is the first min(n, length) entries |
| HolidaysToday.ShownHolidays | frontend/src/components/HolidaysToday.jsx:27-31 | the first five of today's holidays when there are any, otherwise the first three entries |
| HolidaysToday.ShownHolidaysFacts | frontend/src/components/HolidaysToday.jsx:24-31 | at most five entries, in fetched order, all today's when any are today's and none today's otherwise |
| HolidaysToday.FeedHeader | frontend/src/components/HolidaysToday.jsx:60-66 | "Scanning" exactly while loading; "Live Today" exactly when the first shown entry is today's |
| HolidaysToday.AfterFetch | frontend/src/components/HolidaysToday.jsx:23-37 | on success the shown list, on failure the error flag and an empty list; loading ends either way |
| HolidaysToday.LiveTodayIffAnyToday | frontend/src/components/HolidaysToday.jsx:24-62 | after a successful fetch the header says "Live Today" exactly when some fetched holiday is today's |
| HolidaysToday.ShortDate | frontend/src/components/HolidaysToday.jsx:94 | an unreadable date shows "Invalid DateTime"; a readable one shows the month's abbreviation, a space and two digits reading as the day |
| HolidaysToday.DatePrefix | frontend/src/components/HolidaysToday.jsx:92-96 | the date prefix is shown exactly for entries not dated today |
| HolidaysToday.CountryName | frontend/src/components/HolidaysToday.jsx:43-49 | the region's display name, or the code itself when the lookup throws |
| QuoteGenerator.FetchUrl | frontend/src/pages/QuoteGenerator.jsx:25-29 | the theme goes into the query except for 'all'; the limit is 3 either way |
| QuoteGenerator.FetchUrlDistinguishesThemes | frontend/src/pages/QuoteGenerator.jsx:25-29 | different themes give different URLs, none equal to the 'all' URL, and every URL ends in limit=3 |
| QuoteGenerator.SubmissionThemes | frontend/src/pages/QuoteGenerator.jsx:102 | the filter keeps exactly the themes whose id is not 'all' |
| QuoteGenerator.SubmissionThemesOfThemes | frontend/src/pages/QuoteGenerator.jsx:95-102 | the submission themes are the other three, in order |
| QuoteGenerator.ErrorMessage | frontend/src/pages/QuoteGenerator.jsx:78-84 | for 400, the server's detail if it is non-empty, else the fixed invalid-input text; the rate-limit text for 429; "Failed to submit quote." otherwise, including no response |
| QuoteGenerator.QuotePage.constructor | frontend/src/pages/QuoteGenerator.jsx:7-18 | the page starts on the generator with theme 'all' and an empty form themed 'motivation' |
| QuoteGenerator.QuotePage.BeginFetch | frontend/src/pages/QuoteGenerator.jsx:23-31 | loading starts and FetchUrl is requested; nothing else changes |
| QuoteGenerator.QuotePage.FinishFetch | frontend/src/pages/QuoteGenerator.jsx:31-38 | the quotes are replaced on success and kept on failure; loading ends |
| QuoteGenerator.QuotePage.ChangeTheme | frontend/src/pages/QuoteGenerator.jsx:47-50 | the theme is selected and its quotes requested |
| QuoteGenerator.QuotePage.Edit | frontend/src/pages/QuoteGenerator.jsx:53-55 | one field takes the typed value, the others are kept |
| QuoteGenerator.QuotePage.BeginSubmit | frontend/src/pages/QuoteGenerator.jsx:57-71 | no request exactly when the text is blank after trimming, and then nothing changes; otherwise the request carries the text as typed, the author or "Anonymous", and the theme, and the form is submitting |
| QuoteGenerator.QuotePage.FinishSubmit | frontend/src/pages/QuoteGenerator.jsx:73-87 | success resets the form to ("", "", 'motivation') and returns to the generator; failure keeps the form and gives ErrorMessage; submitting ends either way |
| QuoteGenerator.BlankIsRefused | frontend/src/pages/QuoteGenerator.jsx:60-63 | any quote made only of whitespace is not sent: no payload, the submitting flag unchanged, and text, author and theme left as typed |
| TimeCapsule.DateAcceptedMeaning | frontend/src/components/TimeCapsule.jsx:41-45 | a readable unlock date passes the guard exactly when it is after the user's local today, i.e. from the picker's minimum (tomorrow) on |
| TimeCapsule.UnlockDate | frontend/src/components/TimeCapsule.jsx:51 | the unlock date sent is the chosen date followed by "T00:00:00Z" |
| TimeCapsule.Present | frontend/src/components/TimeCapsule.jsx:200-221 | a capsule shows as still locked, with its days remaining and target date, exactly when its status is 'locked'; otherwise its message and sealing date |
| TimeCapsule.FoundNotice | frontend/src/components/TimeCapsule.jsx:75-79 | the notice agrees with how the capsule is presented |
| TimeCapsule.ExactlyOneTabActive | frontend/src/components/TimeCapsule.jsx:117-118 | "Create Capsule" is active in 'seal' and 'success', "Open Capsule" only in 'open'; exactly one at a time |
| TimeCapsule.PanelFor | frontend/src/components/TimeCapsule.jsx:138-227 | the seal form in 'seal', the key in 'success', and in 'open' the lookup form until a capsule is retrieved, then that capsule |
| TimeCapsule.CapsulePanel.constructor | frontend/src/components/TimeCapsule.jsx:8-21 | the panel starts on the seal form, target date 2026-01-01, nothing retrieved, not loading |
| TimeCapsule.CapsulePanel.ShowView | frontend/src/components/TimeCapsule.jsx:117-118 | a tab or "Create Another" changes the view only |
| TimeCapsule.CapsulePanel.Edit | frontend/src/components/TimeCapsule.jsx:145-189 | one input takes the typed value, the rest is kept |
| TimeCapsule.CapsulePanel.BeginSeal | frontend/src/components/TimeCapsule.jsx:37-53 | ignored exactly for a blank message; refused exactly for a non-blank message whose date fails the guard; in both cases nothing changes; otherwise loading starts and the message is sent as typed, with UnlockDate and is_public true |
| TimeCapsule.CapsulePanel.FinishSeal | frontend/src/components/TimeCapsule.jsx:55-63 | success stores the returned id, shows the key and clears the message; failure changes nothing but loading, which ends either way |
| TimeCapsule.CapsulePanel.BeginOpen | frontend/src/components/TimeCapsule.jsx:66-73 | ignored exactly for a blank key; otherwise loading starts, the shown capsule is dropped and the trimmed key is looked up |
| TimeCapsule.CapsulePanel.FinishOpen | frontend/src/components/TimeCapsule.jsx:74-84 | the found capsule on success, none on failure; loading ends |
| TimeCapsule.CapsulePanel.CheckAnother | frontend/src/components/TimeCapsule.jsx:223 | the shown capsule is dropped |
| TimeCapsule.SealShowsKey | frontend/src/components/TimeCapsule.jsx:37-172 | a sealed capsule leaves the panel showing its key, with the Create tab active and the message cleared |
| TimeCapsule.FailedLookupShowsForm | frontend/src/components/TimeCapsule.jsx:66-183 | a failed lookup shows the lookup form again, not an older capsule |
| Strings.TrimEmptyIffBlank | frontend/src/pages/QuoteGenerator.jsx:60 | `trim()` gives "" exactly for an all-whitespace string |
| IsoDate.ParseFormatIsoDate | frontend/src/components/HolidaysToday.jsx:12 | a date formatted as `yyyy-MM-dd` reads back as the same date (years 0 to 9999) |
| Calendar.DateOfDaysFromCivil | frontend/src/components/Countdown.jsx:134 | a day number and its calendar date convert back and forth without loss |
| Calendar.DaysFromCivilInjective | frontend/src/components/Countdown.jsx:134 | two valid dates with the same day number are the same date |
| Calendar.LocalYearFacts | frontend/src/components/Countdown.jsx:71 | a zone's local year is the one whose New Year instant is at or before now and whose next New Year is after now |
| Sorting.SortByFacts | frontend/src/components/CelebrationSchedule.jsx:54 | the sort returns a permutation, ascending by key and stable |

## Left out

- HTTP and WebSocket plumbing is not modelled: axios calls, the wish broadcast, the `/ws` connection manager, and the one- and ten-second polling intervals. Every request is replaced by its outcome, passed in.
- Time zones are fixed offsets, each zone's offset at New Year. The IANA database, daylight-saving changes and luxon's own calendar code are replaced by the `Calendar` module.
- Floating point is not modelled. Hours and longitudes are exact reals, and luxon's millisecond diffs are integers.
- Countdown.CountdownCard: computes luxon's diff on the integer milliseconds between two instants of one fixed-offset zone; luxon's month-aware duration arithmetic across daylight-saving changes is not modelled.
- `new Date().getFullYear()` in the page title, `document.title`, toasts and console logging are not modelled, except where a method returns the message shown.
- These components are not part of this model: the fireworks canvas, the share block, the wish wall, the traditions, about and privacy pages, and the app shell and router.
- Display formatting is not modelled: `userLocalTime.toFormat(...)` in the schedule, `toLocaleString` of the capsule count and dates, the "Personalized View:" and "CURRENTLY" lines on the main card, and `padStart` of the world units.
- QuoteGenerator: the effect that refetches quotes when the view returns to 'generate' is not modelled as its own method; BeginFetch is that request. The clipboard copy (`handleCopy`) is left out.
- TimeCapsule: the vault count fetch (`fetchStats`) and the clipboard copy (`copyKey`) are left out; they are I/O only.
- TimeCapsule.DateAccepted: reads only the `yyyy-MM-dd` form of `DateTime.fromISO`, the only form a date input produces; any other text is an invalid date, which the guard lets through as the code does.
- MapViz.NormalizedDiff: the map's center longitude is taken as Leaflet reports it, without wrapping; the range facts hold only for centers within [-180, 180], and UnwrappedCenterNeverPans records what the code does beyond a full turn.
- HolidaysToday.CountryName: the browser's region-name table is a parameter (the lookup's result, or None when it throws).

## Findings

| source | as written | input that shows it | evidently intended | confidence | as-written member | corrected member |
|---|---|---|---|---|---|---|
| frontend/src/components/Countdown.jsx:14 | the entry labelled "(UTC+14) Kiritimati" uses zone Etc/GMT+12, which is UTC-12 | any instant: its New Year comes 26 hours after UTC+14's, last of all zones, and it joins the banner together with Baker Island (Countdown.jsx:41), not first | Pacific/Kiritimati, UTC+14, the first New Year on Earth | not executed | Countdown.KiritimatiAsWritten | Countdown.KiritimatiFirst |
