# Schedule board engine (Dafny model)

A model of the engine behind the TER passenger-information board. It has two parts:

- **The schedule utilities** (`utils/scheduleUtils.js`). These are pure helpers over train runs ("horaires"):
  - validity, and normalisation of the served stations;
  - delay arithmetic on "HH:mm" times, and the status of a run (cancelled / delayed / on time);
  - the time of a run at a station, and the destination or origin shown for it;
  - filtering by event type and by day of circulation, and sorting by time;
  - formatting the days of circulation, and the weekday successor;
  - the maintenance edits of the stored list: update one run, reset all delays, reset expired delays.
- **The public departures/arrivals board** (`pages/afficheurs/classiques/departs.js`), apart from React:
  - the fetch pipeline that builds today's and tomorrow's sorted lists;
  - the ten-row page rotation;
  - the rule that hides rows about to leave or already past;
  - the platform-reveal window;
  - the served-stations marquee;
  - the rendered rows and the next-day section.

Modules:

| file | module | what it holds |
|---|---|---|
| `common.dfy` | `Common` | `Option`, an order-preserving `Filter` with its subsequence/membership/multiplicity facts, `IndexOf` |
| `clock.dfy` | `ClockTime` | `Clock` (the two numbers of an "HH:mm" text), zero-padded text, `getDelayedTime` with JavaScript's truncating `%`, code-point text order |
| `days.dfy` | `Weekdays` | `getNextDay`, the operating-day test, the board's `joursCirculation` clean-up, `formatOperatingDays` |
| `routes.dfy` | `Routes` | the stored served-stations shapes and `normalizeServedStations` |
| `schedules.dfy` | `Schedules` | the run record, validity, status, `getStationTime`, the filters, `getStationEndpoint` |
| `sorting.dfy` | `Sorting` | `sortSchedulesByTime` as a stable insertion sort on the time text |
| `maintenance.dfy` | `Maintenance` | `updateSchedule`, `resetDelaysAndCancellations`, `resetExpiredDelaysAndCancellations` over a passed-in list |
| `board.dfy` | `Board` | fetch pipeline, pages and rotation, row outcome (shown / hidden / throws), marquee, platform, render |

How JavaScript values are represented:

- **Missing values.** An absent, `null` or empty value is `None` for times. For text fields it is `""`, which the source treats as false.
- **Served stations.** The stored field is one of three shapes:
  - absent;
  - an array of entries, each a bare name, an object or `null`;
  - a JSON text paired with what `JSON.parse` makes of it: an array, something else, or a thrown error.
- **Days of circulation.** The field is absent, a list, or a text paired with its parse result.
- **Times.** A time is the pair of numbers read by `split(':').map(Number)`. The stored text of a time is its zero-padded `Text`.
- **Now.** The current time is milliseconds since local midnight. `new Date(y, m, d, h, min) - now` is then `(h*60 + min)*60000 - nowMs`, and the board compares it with two minutes and with the platform threshold.
- **Render errors.** An expression that throws during a render becomes the `RenderFailed` screen, or `None` in the helpers.
  - `split` on a `null` display time throws.
  - Reading `.name` of a `null` served-station entry throws.
  - Calling `map` on a served-stations text throws.
- **Reset errors.** When `resetExpiredDelaysAndCancellations` throws, the result is `None` and nothing is stored. It throws when reading `.arrivalTime` of a `null` last entry.

Behaviour of the code worth knowing:

- **The last run of the day.** The code hides a run in the two minutes before its time even when it is the last run. Past runs stay visible when they share the last run's *time*, not only the last run itself (`Board.HidingExample`).
- **Delay sign.** Any non-zero delay makes a run "delayed", including a negative one.
- **Delay arithmetic on negative totals.** `getDelayedTime` does not wrap a negative total into the day. JavaScript's `%` leaves both fields at or below zero: 00:10 moved by -75 minutes gives hours -2 and minutes -5 (`ClockTime.NegativeDelayExample`).
- **A page past the end.** When a refetch shrinks today's list, the shown page may no longer exist. The rotation still steps to `(prev + 1) % pages`, so the board lands on some page below the page count rather than on page 0 (`Board.StalePageExample`).
- **The marquee source.** The marquee reads the stored route's raw names, not the normalised stops. A `null` entry or a text route makes the render throw, and an object without a name shows as an empty name.
- **Render crashes.** A run with no time at the station makes the whole board render throw. The same happens when the last run of today's list has no time there.
- **Duplicate stops.** A route may name the station twice, with a time only on the second stop. `filterSchedulesByType` keeps such a run, because it tests *some* stop with a time. `getStationTime` reads the *first* stop and returns nothing. The board then throws on that run (`Schedules.KeptRunHasTime` states the condition under which this cannot happen).

## Model

| member | source | states |
|---|---|---|
| `Routes.Normalize` | utils/scheduleUtils.js:18-47 | no route, an empty or unparseable text, or a non-array gives no stops; the stops are the named entries in route order (a subsequence, no longer than the input), membership is exactly "an entry with a name" |
| `Routes.NormalizeCounts` | utils/scheduleUtils.js:37-46 | each named entry is kept as many times as the route lists it; an entry without a name never is |
| `Routes.BareNamesRoundTrip` | utils/scheduleUtils.js:37-46 | a route of non-empty bare names normalises to stops with the same names in the same order, all without times |
| `ClockTime.DelayedTime` | utils/scheduleUtils.js:50-57 | no time or no delay gives the time back; otherwise, for a non-negative total, a time of day whose minute count is (h*60+m+delay) mod 1440; for a negative total, minutes in (-60, 0] congruent to the total mod 60 and hours in (-24, 0] congruent to floor(total/60) mod 24, which leaves one possible clock |
| `ClockTime.SplitTotal` | utils/scheduleUtils.js:52-56 | splitting a minute total into `floor(total/60) % 24` hours and `total % 60` minutes gives a time of day for a non-negative total and the congruent fields at or below zero for a negative one |
| `ClockTime.NegativeSplitPinned` | utils/scheduleUtils.js:52-56 | the bounds and congruences promised for a negative total determine the clock: two clocks meeting them are equal |
| `ClockTime.NegativeDelayExample` | utils/scheduleUtils.js:50-57 | 00:10 moved by -75 minutes gives hours -2 and minutes -5 |
| `ClockTime.JsRem` | utils/scheduleUtils.js:54-55 | JavaScript `%` agrees with the mathematical remainder on non-negative dividends, is in (-b, 0] on negative ones, and always differs from the dividend by a multiple of b |
| `ClockTime.DelayWrapsAtMidnight` | utils/scheduleUtils.js:52-56 | a positive delay on a time of day gives a time of day shifted by the delay modulo one day, and exactly shifted when it stays before midnight |
| `ClockTime.ParseOfText` | utils/scheduleUtils.js:52-56 | the zero-padded "HH:mm" text of two-digit fields reads back as the same two numbers |
| `ClockTime.TextOfParse` | utils/scheduleUtils.js:52-56 | a canonical "HH:mm" text printed from its numbers is the same text |
| `ClockTime.IntTextInjective` | utils/scheduleUtils.js:72 | two integers printed alike by `String` are equal |
| `ClockTime.TextOrderIsTimeOrder` | utils/scheduleUtils.js:259-261 | for times of day, comparing the padded texts character by character agrees with comparing minute counts, in both directions |
| `Schedules.TrainStatus` | utils/scheduleUtils.js:60-83 | cancelled exactly when the flag is set; delayed exactly when not cancelled and the delay is non-zero, carrying that delay and the delayed departure time; on time otherwise |
| `Schedules.CancellationOutranksDelay` | utils/scheduleUtils.js:61-69 | changing the delay of a cancelled run never changes its status; on time iff neither cancelled nor delayed |
| `Schedules.LabelShowsStatus` | utils/scheduleUtils.js:60-82 | two statuses with the same label have the same code, and two delays with the same label are the same number of minutes |
| `Schedules.Valid` | utils/scheduleUtils.js:8-15 | a run with a train number, both stations and both times |
| `Schedules.StationTime` | utils/scheduleUtils.js:111-147 | no station gives no time; at the run's own endpoint the scheduled time, shifted only when a delay applies and the run is not cancelled; a station not on the route gives none; at a stop, the first stop's time for the direction, shifted when a delay applies |
| `Schedules.DelayShiftsStationTime` | utils/scheduleUtils.js:115-141 | the time with `applyDelay` is the time without it, shifted by the delay exactly when a shift applies |
| `Schedules.CancellationKeepsStopTimes` | utils/scheduleUtils.js:122-127 | at a served stop, cancelling a run does not change its time there |
| `Schedules.StationTimeMovesByDelay` | utils/scheduleUtils.js:111-147 | a positive delay moves a time of day at a station forward by the delay, wrapping at midnight |
| `Schedules.StatusAgreesWithDepartureTime` | utils/scheduleUtils.js:69-75 | for a delayed run, the time at its departure station is the delayed time its status reports |
| `Schedules.FilterByType` | utils/scheduleUtils.js:150-182 | no station gives nothing; the result is a subsequence of valid runs; a run is kept iff it is valid and the station is its endpoint for the direction or a normalised stop with a time for that direction, and a kept run appears as often as in the input |
| `Schedules.FilterByDay` | utils/scheduleUtils.js:372-381 | no day gives nothing; the result is a subsequence; a run is kept iff it has no days of circulation or they include the day, as often as it appears in the input |
| `Schedules.StationSchedules` | utils/scheduleUtils.js:86-108 | no station gives nothing; the result is a subsequence; a run is kept iff it is valid and starts, ends or stops at the station, as often as it appears in the input |
| `Schedules.BoardRunsServeStation` | utils/scheduleUtils.js:150-182 | every run a departure or arrival filter keeps is one `getStationSchedules` keeps |
| `Schedules.KeptRunHasTime` | utils/scheduleUtils.js:123-141 | a run kept by the type filter has a time at the station when the station appears at most once on its route |
| `Schedules.StationEndpoint` | utils/scheduleUtils.js:185-225 | for a departure from a station other than the run's own, the name after the first stop named like the station, or the arrival station when there is none or it is the last stop (always the arrival station when the run starts there); for an arrival, the name before that first stop, else the departure station |
| `Weekdays.NextDay` | utils/scheduleUtils.js:364-369 | defined exactly for the seven English names, and then a different weekday |
| `Weekdays.NextDayOfWeek` | utils/scheduleUtils.js:365-368 | the successor of the i-th day of the Sunday-first week is the (i+1) mod 7-th, so Saturday wraps to Sunday |
| `Weekdays.FormatOperatingDays` | utils/scheduleUtils.js:228-251 | no days, an empty list or a text (whose `map` throws into the catch) gives "Tous les jours"; a single day gives its abbreviation |
| `Weekdays.FormatCons` | utils/scheduleUtils.js:244-246 | a list of two or more days, English or not, reads as the first day's abbreviation (or its own name), ", ", then the text of the rest; with the empty and one-day cases this fixes the text of every list |
| `Weekdays.FormatMixedExample` | utils/scheduleUtils.js:244-246 | `["Monday", "Ferie"]` reads "Lun, Ferie" |
| `Weekdays.FormatBlocks` | utils/scheduleUtils.js:234-246 | for English day names, the text is five-character blocks "Xxx, " holding the abbreviations in order, with the last separator dropped |
| `Weekdays.FormatDeterminesDays` | utils/scheduleUtils.js:234-246 | two lists of English day names with the same formatted text are the same list |
| `Weekdays.ParsedDays` | pages/afficheurs/classiques/departs.js:100-110 | a list is kept, a missing field or empty text gives none, a text that parses gives its list, a text that fails to parse gives none |
| `Weekdays.ParsedDaysOperation` | pages/afficheurs/classiques/departs.js:100-110 | after the clean-up the day test is list membership, and a run whose text failed to parse runs every day |
| `Sorting.SortBy` | utils/scheduleUtils.js:258-262 | the sorted copy is a permutation of the input, ordered by key |
| `Sorting.SortStable` | utils/scheduleUtils.js:258-262 | elements sharing a key keep their input order |
| `Sorting.SortSchedules` | utils/scheduleUtils.js:254-267 | no station gives nothing; otherwise a permutation of the runs ordered by the text of their time at the station |
| `Sorting.SortSchedulesStable` | utils/scheduleUtils.js:258-262 | runs with the same time text keep their input order |
| `Sorting.TimelessRunsFirst` | utils/scheduleUtils.js:259-261 | a run without a time at the station never follows one with a time |
| `Sorting.SortIsChronological` | utils/scheduleUtils.js:254-267 | when every run has a time of day at the station, the sorted list is in non-decreasing minute order |
| `Maintenance.UpdateSchedule` | utils/scheduleUtils.js:270-282 | same length and identifiers; an unknown id leaves the list; only the first run with the id receives the merged edit, all others stay |
| `Maintenance.Merge` | utils/scheduleUtils.js:277 | the identifier is kept; every one of the thirteen other fields is the edit's value when the edit sets it and the stored value otherwise; the empty edit changes nothing |
| `Maintenance.NoChangeIsIdentity` | utils/scheduleUtils.js:270-282 | an edit that sets nothing leaves the list unchanged |
| `Maintenance.UpdatesCompose` | utils/scheduleUtils.js:270-282 | two successive edits of a run are the combined edit; repeating an edit changes nothing |
| `Maintenance.ResetAll` | utils/scheduleUtils.js:284-294 | same length; every run becomes on time; nothing but delay and cancellation changes |
| `Maintenance.ResetShowsScheduledTimes` | utils/scheduleUtils.js:284-294 | after the reset, the delay-applied time of every run at every station is its unshifted time |
| `Maintenance.ResetAllIdempotent` | utils/scheduleUtils.js:284-294 | resetting twice is resetting once |
| `Maintenance.ArrivalFor` | utils/scheduleUtils.js:313-326 | the run's arrival time when it has one; else the arrival time of the last stored entry when it is an object with one, and only then; nothing for a text or bare name; a thrown error exactly for a `null` last entry |
| `Maintenance.ResetExpired` | utils/scheduleUtils.js:300-347 | no reference time leaves the list; it throws iff some run's arrival lookup throws; otherwise same length, only delay/cancellation/cause fields change, an expired run becomes on time without cause, any other run is unchanged |
| `Maintenance.UnknownArrivalIsKept` | utils/scheduleUtils.js:323-326 | a run with no determinable arrival is never reset |
| `Maintenance.ResetExpiredIdempotent` | utils/scheduleUtils.js:300-347 | sweeping twice at the same reference time is sweeping once |
| `Maintenance.LaterSweepSubsumes` | utils/scheduleUtils.js:333-342 | a sweep followed by one at a later time equals the later sweep alone |
| `Maintenance.ResetExample` | utils/scheduleUtils.js:333-342 | arrival 08:00 with a ten-minute delay is reset at 08:26 and kept at 08:20 |
| `Board.Pipeline` | pages/afficheurs/classiques/departs.js:89-140 | a missing station, an invalid type or a failed request gives two empty lists; no next weekday gives an empty next-day list; both lists are sorted by time text |
| `Board.TodayListMembers` | pages/afficheurs/classiques/departs.js:100-119 | today's list holds exactly the fetched runs, with days parsed, that the type filter keeps and that run today, each as many times as the fetch returned it |
| `Board.TomorrowIsNextDaysToday` | pages/afficheurs/classiques/departs.js:121-129 | the next-day list is the list the same data gives as today's on the following weekday |
| `Board.BoardDaysAreLists` | pages/afficheurs/classiques/departs.js:100-110 | every run on either list carries its days of circulation as a list |
| `Board.CleanDays` | pages/afficheurs/classiques/departs.js:100-110 | only the days of circulation change, and they become the parsed list |
| `Board.PageCount` | pages/afficheurs/classiques/departs.js:160 | the least number of ten-row pages that holds the list |
| `Board.NextPage` | pages/afficheurs/classiques/departs.js:156-164 | an empty list goes to page 0; otherwise the result is a page that exists |
| `Board.RotationCycles` | pages/afficheurs/classiques/departs.js:156-164 | after k steps from any page, including one left past the end when a refetch shrank the list, the board shows page (start + k) mod the page count; so one step from any page is (prev + 1) mod the page count |
| `Board.RotationStep` | pages/afficheurs/classiques/departs.js:158-161 | one more timer step advances the page by one modulo the page count |
| `Board.EmptyListRestarts` | pages/afficheurs/classiques/departs.js:158-159 | with an empty list, any number of steps from any page lands on page 0 |
| `Board.StalePageExample` | pages/afficheurs/classiques/departs.js:118-119 | a list that shrinks to 40 runs while page 6 shows sends the board to page 3 |
| `Board.PageRows` | pages/afficheurs/classiques/departs.js:198-201 | at most ten rows, row i is list entry 10p+i, a page past the end is empty |
| `Board.EveryRunHasItsPage` | pages/afficheurs/classiques/departs.js:198-201 | entry i of the list is row i mod 10 of page i / 10, and that page exists |
| `Board.FormatQuoted` | pages/afficheurs/classiques/departs.js:18-22 | the result is empty exactly when the input is |
| `Board.QuotedTextIsText` | pages/afficheurs/classiques/departs.js:18-22 | a time's "HH:mm" text is printed unchanged, an absent time as nothing |
| `Board.TrainTypeLabelKnown` | pages/afficheurs/classiques/departs.js:45-55 | the label is a known type; a known type is kept; an empty or unknown one becomes MOBIGO; labelling is idempotent |
| `Board.TrainTypeLabel` | pages/afficheurs/classiques/departs.js:212-213 | the known type or MOBIGO (its properties are stated by `Board.TrainTypeLabelKnown`) |
| `Board.Logo` | pages/afficheurs/classiques/departs.js:214 | the fetched logo of the type when the table has a non-empty one, the SNCF default logo otherwise; never empty |
| `Board.StatusText` | pages/afficheurs/classiques/departs.js:294-296 | one status line per status, and distinct lines for distinct statuses |
| `Board.RouteLabels` | pages/afficheurs/classiques/departs.js:252-256 | reading the names throws exactly for a `null` entry or a non-empty text; otherwise one name per entry, none for an absent or empty route |
| `Board.Marquee` | pages/afficheurs/classiques/departs.js:251-271 | throws as the name read does; a station not on the route shows it all; departures show a suffix, arrivals a prefix not containing the station |
| `Board.MarqueeSplitsRoute` | pages/afficheurs/classiques/departs.js:257-269 | arrival marquee, the station and departure marquee together are the route |
| `Board.MarqueeHeadIsNextStop` | pages/afficheurs/classiques/departs.js:257-260 | on a route of bare names, the first name after the station is the destination `getStationEndpoint` gives |
| `Board.HidingRule` | pages/afficheurs/classiques/departs.js:236-249 | a run two minutes or more ahead is shown; one within two minutes is hidden; a past run is hidden iff its time differs from the last run's |
| `Board.HidingExample` | pages/afficheurs/classiques/departs.js:247-249 | one minute ahead is hidden even for the last run; a past run at the last run's time is shown |
| `Board.RowHidden` | pages/afficheurs/classiques/departs.js:247 | the hiding test of one row against the last run's time (its properties are stated by `Board.HidingRule`) |
| `Board.PastLastRunOnlyItsTimeStays` | pages/afficheurs/classiques/departs.js:236-249 | on a list in time order whose last run has left, a row stays exactly when it is at the last run's time |
| `Board.PlatformMinutes` | pages/afficheurs/classiques/departs.js:274-275 | 20 minutes for a town station or an unknown location type, 720 otherwise |
| `Board.ShowPlatform` | pages/afficheurs/classiques/departs.js:276 | the platform window: not yet past, and at most the threshold ahead (its properties are stated by `Board.UrbanWindowInsideInterurban`) |
| `Board.PlatformName` | pages/afficheurs/classiques/departs.js:277 | the assigned platform when there is one, else the track when there is one, else "-" |
| `Board.UrbanWindowInsideInterurban` | pages/afficheurs/classiques/departs.js:274-276 | a town station shows a platform only when an interurban one would; an unknown type behaves as a town |
| `Board.PlatformExample` | pages/afficheurs/classiques/departs.js:274-276 | in town, 19 minutes ahead shows the platform and 25 does not |
| `Board.TodayRow` | pages/afficheurs/classiques/departs.js:210-328 | throws exactly without a time at the station, without one for the last run, or through the marquee of a row not hidden; hidden exactly by the hiding rule; a shown row has the type label and its logo, the train number, the time's text, the destination or origin, the status line, the marquee, the even flag, and the platform name exactly inside the window |
| `Board.NextDayRow` | pages/afficheurs/classiques/departs.js:335-411 | never hidden; throws only through the marquee; a shown row has the type label and its logo, the train number, the status line, the destination or origin, the even flag, the time text (empty without a time) and always the platform name |
| `Board.Collect` | pages/afficheurs/classiques/departs.js:210-249 | the page renders iff no row throws, and never has more rows than outcomes |
| `Board.CollectRowsAreShown` | pages/afficheurs/classiques/departs.js:236-249 | each rendered row is the row of a shown outcome |
| `Board.CollectKeepsShown` | pages/afficheurs/classiques/departs.js:236-249 | each shown outcome's row is rendered |
| `Board.CollectAllShown` | pages/afficheurs/classiques/departs.js:210-249 | when every outcome is shown, the rows are the outcomes' rows in order |
| `Board.CollectKeepsOrder` | pages/afficheurs/classiques/departs.js:247-250 | a page that renders shows exactly the rows of its shown outcomes, in outcome order and with multiplicity, the hidden ones dropped (`ShownRows`, a filter of the outcomes) |
| `Board.CollectStep` | pages/afficheurs/classiques/departs.js:247-250 | a rendering list of outcomes renders its tail, and adds the head's row in front exactly when the head is shown |
| `Board.ShownRowsStep` | pages/afficheurs/classiques/departs.js:247-250 | the shown rows of a list are the head's row, when shown, followed by the shown rows of the tail |
| `Board.KeptAreShown` | pages/afficheurs/classiques/departs.js:247-250 | filtering the outcomes keeps only shown ones |
| `Board.RowsOfCons` | pages/afficheurs/classiques/departs.js:247-250 | the rows of a shown outcome followed by shown outcomes are its row followed by theirs |
| `Board.TodayPart` | pages/afficheurs/classiques/departs.js:198-249 | `None` exactly when a run of the current page throws; otherwise at most ten rows, each the shown row of a run of the page, every shown run's row among them, and the rows are exactly the shown rows of the page's runs in run order |
| `Board.PageFullyShown` | pages/afficheurs/classiques/departs.js:210-249 | when no run of the page hides or throws, the rows are the runs' rows in page order |
| `Board.NextDayPart` | pages/afficheurs/classiques/departs.js:331-335 | `None` exactly on the first page when one of tomorrow's first ten runs throws; empty after the first page or for an empty list; otherwise row i is the shown row of tomorrow's run i, for the first ten runs |
| `Board.BoardScreen` | pages/afficheurs/classiques/departs.js:198-201 | a failed render exactly when a run of the page throws or, on page 0, one of tomorrow's first ten does; otherwise the board holds exactly the page's shown rows in run order and, on page 0 only, tomorrow's rows in order |
| `Board.Render` | pages/afficheurs/classiques/departs.js:166-201 | missing station, invalid type, loading and empty list screens in that order; a failed render exactly when, past those, a run of the page or (on page 0) of tomorrow's first ten throws; a board holds exactly the shown rows of the page in run order, and on page 0 tomorrow's rows in order |

## Left out

- Storage and the browser. `localStorage` reads and writes are left out: the list is passed in and returned. This covers `getAllSchedules`, the storage part of `updateSchedule` and the resets, and the `typeof window` guards. `addSchedule` is left out as well, because its identifier is `Date.now()`.
- React and timers. State hooks, `useEffect`, both `setInterval` timers and JSX are left out. The page rotation is the pure step `NextPage`, and one render is the function `Render` of the current state.
- Network. The `fetch` calls for logos, station information and runs are left out. Their results are parameters: a fetch result, a location type (`""` when the station or the field is missing), the logo table and the platform assignment table.
- `JSON.parse`. It is not modelled as a parser. Its outcome is paired with the stored text.
- Dates and clocks. The `Date` object, the time zone and daylight-saving changes are left out. "Now" is milliseconds since local midnight, and the current weekday is a parameter.
- Sorting.SortSchedules: `localeCompare` is modelled as code-point order on the time texts. That is the order a locale gives digit-and-colon texts, but locale collation in general is not modelled.
- ClockTime.Clock: a stored time is taken to be a well-formed, zero-padded "HH:mm" text. Other texts, where `Number` yields `NaN`, are not modelled.
- Maintenance.ResetExpired: the reference time is a parsed clock, or absent. A malformed text, where the comparison with `NaN` is false, is not modelled.
- Served-station and day entries that are numbers, booleans or other non-string, non-object JSON values are not modelled. The same holds for a parsed days-of-circulation value that is not an array.
- The inherited object keys (such as `constructor`) of the train-type table and of the day table in `formatOperatingDays` are not modelled. They would be truthy in `trainTypeMapping[...]` and `days[day]`, so a day named `constructor` would print the function's source text rather than its own name.
- Board.Render: the loading state is an input flag. The initial load and the flag's transitions are part of the React state and are not modelled.
- The unused local `getDelayedTime` in the row renderer (departs.js:222-231) is left out. Its only effect is a `split` on a missing display time, which the row renderer performs anyway a few lines later.
- Row styling: the `aria-hidden` attribute and the CSS classes are left out; the even/odd flag is carried in the row.
- The API route `pages/api/schedules/by-station.js` and the admin pages are not part of this model.
