/** The public departures/arrivals board: the fetch pipeline that turns the
    runs served by the API into today's and tomorrow's sorted lists, page
    rotation, and what one render of the board shows (which rows are
    hidden, the time text, the served-stations marquee, the platform). */
module Board {
  import opened Common
  import opened ClockTime
  import opened Routes
  import opened Weekdays
  import opened Schedules
  import opened Sorting

  /* ---------------------------------------------------------------------- */
  /* Fetch pipeline                                                          */

  /** The result of the API request: the runs it returned, or a failure
      (a network error, a non-OK status, or a body that is not an array). */
  datatype FetchResult = Fetched(records: seq<Schedule>) | FetchFailed

  /** The board's clean-up of one record: its days of circulation become a
      list (see `ParsedDays`). */
  function CleanDays(s: Schedule): (r: Schedule)
    ensures r.days.DayList? && r.days.days == ParsedDays(s.days)
    ensures r.(days := s.days) == s
  {
    s.(days := DayList(ParsedDays(s.days)))
  }

  function CleanAll(records: seq<Schedule>): (r: seq<Schedule>)
    ensures |r| == |records|
    ensures forall i :: 0 <= i < |records| ==> r[i] == CleanDays(records[i])
  {
    seq(|records|, i requires 0 <= i < |records| => CleanDays(records[i]))
  }

  /** The two query parameters the board accepts as a type. */
  predicate ValidKind(kind: string)
  {
    kind == "departures" || kind == "arrivals"
  }

  /** The runs of one day on the board: those kept by the type filter that
      operate on `day`, sorted by their time at the station. */
  function DayBoard(byType: seq<Schedule>, gare: string, dir: Direction, day: string): seq<Schedule>
  {
    SortSchedules(FilterByDay(byType, day), gare, dir)
  }

  /** `fetchSchedules`: today's runs and tomorrow's runs, or two empty lists
      without a station, with a type other than the two accepted, or when
      the request fails. */
  function Pipeline(fetch: FetchResult, gare: string, kind: string, today: string): (r: (seq<Schedule>, seq<Schedule>))
    ensures gare == "" || !ValidKind(kind) || fetch.FetchFailed? ==> r == ([], [])
    ensures NextDay(today).None? ==> r.1 == []
    ensures forall i, j :: 0 <= i < j < |r.0| ==> LexLe(SortKey(r.0[i], gare, DirectionOf(kind)), SortKey(r.0[j], gare, DirectionOf(kind)))
    ensures forall i, j :: 0 <= i < j < |r.1| ==> LexLe(SortKey(r.1[i], gare, DirectionOf(kind)), SortKey(r.1[j], gare, DirectionOf(kind)))
  {
    if gare == "" || !ValidKind(kind) || fetch.FetchFailed? then ([], [])
    else
      var dir := DirectionOf(kind);
      var byType := FilterByType(CleanAll(fetch.records), gare, dir);
      var next := NextDay(today);
      (DayBoard(byType, gare, dir, today), if next.Some? then DayBoard(byType, gare, dir, next.value) else [])
  }

  /** Today's list holds exactly the fetched runs (with their days parsed)
      that are valid, start, end or stop with a time at the station, and
      run today, each as many times as the fetch returned it. */
  lemma {:induction false} TodayListMembers(fetch: FetchResult, gare: string, kind: string, today: string)
    requires gare != "" && ValidKind(kind) && fetch.Fetched?
    ensures forall s :: s in Pipeline(fetch, gare, kind, today).0 <==>
              s in CleanAll(fetch.records) && OnBoard(s, gare, DirectionOf(kind)) && today != "" && OperatesOn(s.days, today)
    ensures forall s :: multiset(Pipeline(fetch, gare, kind, today).0)[s] ==
              if OnBoard(s, gare, DirectionOf(kind)) && today != "" && OperatesOn(s.days, today)
              then multiset(CleanAll(fetch.records))[s] else 0
  {
    var dir := DirectionOf(kind);
    var byType := FilterByType(CleanAll(fetch.records), gare, dir);
    var filtered := FilterByDay(byType, today);
    assert multiset(DayBoard(byType, gare, dir, today)) == multiset(filtered);
    SameMembers(DayBoard(byType, gare, dir, today), filtered);
  }

  /** Tomorrow's list is the list the board would show as today's on the
      next day of the week. */
  lemma {:induction false} TomorrowIsNextDaysToday(fetch: FetchResult, gare: string, kind: string, today: string)
    requires NextDay(today).Some?
    ensures Pipeline(fetch, gare, kind, today).1 == Pipeline(fetch, gare, kind, NextDay(today).value).0
  {
  }

  /** Every run on either list has its days of circulation as a list. */
  lemma {:induction false} BoardDaysAreLists(fetch: FetchResult, gare: string, kind: string, today: string)
    ensures forall s :: s in Pipeline(fetch, gare, kind, today).0 ==> s.days.DayList?
    ensures forall s :: s in Pipeline(fetch, gare, kind, today).1 ==> s.days.DayList?
  {
    if gare != "" && ValidKind(kind) && fetch.Fetched? {
      var dir := DirectionOf(kind);
      var cleaned := CleanAll(fetch.records);
      assert forall s :: s in cleaned ==> s.days.DayList?;
      var byType := FilterByType(cleaned, gare, dir);
      assert Pipeline(fetch, gare, kind, today).0 == DayBoard(byType, gare, dir, today);
      CleanDayBoardHasLists(cleaned, gare, dir, today);
      var next := NextDay(today);
      if next.Some? {
        assert Pipeline(fetch, gare, kind, today).1 == DayBoard(byType, gare, dir, next.value);
        CleanDayBoardHasLists(cleaned, gare, dir, next.value);
      }
    }
  }

  /** A day's board built from runs whose days are lists holds only such
      runs. */
  lemma CleanDayBoardHasLists(cleaned: seq<Schedule>, gare: string, dir: Direction, day: string)
    requires forall s :: s in cleaned ==> s.days.DayList?
    ensures forall s :: s in DayBoard(FilterByType(cleaned, gare, dir), gare, dir, day) ==> s.days.DayList?
  {
    DayBoardKeepsDays(FilterByType(cleaned, gare, dir), gare, dir, day);
  }

  /** A day's board holds only runs of the list it was built from. */
  lemma DayBoardKeepsDays(byType: seq<Schedule>, gare: string, dir: Direction, day: string)
    ensures forall s :: s in DayBoard(byType, gare, dir, day) ==> s in byType
  {
    if gare != "" {
      SameMembers(DayBoard(byType, gare, dir, day), FilterByDay(byType, day));
    }
  }

  /* ---------------------------------------------------------------------- */
  /* Pages                                                                   */

  const LinesPerPage := 10

  /** `Math.ceil(count / LINES_PER_PAGE)`. */
  function PageCount(count: nat): (r: nat)
    ensures r * LinesPerPage >= count
    ensures r > 0 ==> (r - 1) * LinesPerPage < count
    ensures count > 0 <==> r > 0
  {
    (count + LinesPerPage - 1) / LinesPerPage
  }

  /** The page-rotation timer step: back to the first page when there is
      nothing to show, otherwise the next page, wrapping after the last. */
  function NextPage(prev: nat, count: nat): (r: nat)
    ensures count == 0 ==> r == 0
    ensures count > 0 ==> r < PageCount(count)
  {
    if count == 0 then 0 else (prev + 1) % PageCount(count)
  }

  /** The page shown after `k` timer steps from page `start`. */
  function Rotate(start: nat, k: nat, count: nat): nat
    decreases k
  {
    if k == 0 then start else NextPage(Rotate(start, k - 1, count), count)
  }

  /** The rotation visits the pages in order and wraps: after `k` steps from
      any page, even one past the end of a list that has since shrunk, the
      board shows page `start + k` modulo the number of pages (a page that
      exists is already that page after no step at all). */
  lemma {:induction false} RotationCycles(start: nat, k: nat, count: nat)
    requires count > 0
    requires k >= 1 || start < PageCount(count)
    ensures Rotate(start, k, count) == (start + k) % PageCount(count)
    decreases k
  {
    if k == 0 {
      ModUnique(start, PageCount(count), 0, start);
    } else if k > 1 {
      RotationCycles(start, k - 1, count);
      RotationStep(start, k, count);
    }
  }

  /** One more step moves one page on, modulo the number of pages. */
  lemma RotationStep(start: nat, k: nat, count: nat)
    requires count > 0 && k >= 1
    requires Rotate(start, k - 1, count) == (start + k - 1) % PageCount(count)
    ensures Rotate(start, k, count) == (start + k) % PageCount(count)
  {
    var n := PageCount(count);
    var prev := Rotate(start, k - 1, count);
    assert Rotate(start, k, count) == (prev + 1) % n;
    ModStep(start + k - 1, n);
  }

  /** An empty list sends the board back to the first page after one step,
      whatever page it showed. */
  lemma {:induction false} EmptyListRestarts(start: nat, k: nat)
    requires k >= 1
    ensures Rotate(start, k, 0) == 0
    decreases k
  {
    if k > 1 {
      EmptyListRestarts(start, k - 1);
    }
  }

  /** A list shrunk to 40 runs sends the board from page 6 to page 3. */
  lemma StalePageExample()
    ensures NextPage(6, 40) == 3
  {
  }

  /** Adding one to a remainder and reducing again is the remainder of the
      successor. */
  lemma ModStep(x: nat, n: nat)
    requires n > 0
    ensures ((x % n) + 1) % n == (x + 1) % n
  {
    var q, p := x / n, x % n;
    assert x == q * n + p;
    if p + 1 < n {
      ModUnique(x + 1, n, q, p + 1);
      ModUnique(p + 1, n, 0, p + 1);
    } else {
      assert x + 1 == (q + 1) * n;
      ModUnique(x + 1, n, q + 1, 0);
      ModUnique(p + 1, n, 1, 0);
    }
  }

  /** The remainder is the only value in range that differs from the
      dividend by a multiple of the divisor. */
  lemma ModUnique(x: int, n: int, q: int, r: int)
    requires n > 0 && 0 <= r < n && x == q * n + r
    ensures x % n == r
  {
    var q', r' := x / n, x % n;
    assert x == q' * n + r';
    assert (q - q') * n == r' - r;
    if q > q' {
      MulAtLeast(q - q', n);
    } else if q < q' {
      MulAtLeast(q' - q, n);
    }
  }

  lemma MulAtLeast(a: int, n: int)
    requires a >= 1 && n > 0
    ensures a * n >= n
  {
  }

  /** `schedules.slice(page * 10, page * 10 + 10)`. */
  function PageRows<T>(list: seq<T>, page: nat): (r: seq<T>)
    ensures |r| <= LinesPerPage
    ensures page * LinesPerPage >= |list| ==> r == []
    ensures page * LinesPerPage < |list| ==>
              |r| == if |list| - page * LinesPerPage < LinesPerPage then |list| - page * LinesPerPage else LinesPerPage
    ensures forall i :: 0 <= i < |r| ==> page * LinesPerPage + i < |list| && r[i] == list[page * LinesPerPage + i]
  {
    var start := page * LinesPerPage;
    if start >= |list| then []
    else if start + LinesPerPage <= |list| then list[start..start + LinesPerPage]
    else list[start..]
  }

  /** The pages partition the list: the entry at position `i` is shown on
      page `i / 10`, at row `i % 10`, and that page exists. */
  lemma {:induction false} EveryRunHasItsPage<T>(list: seq<T>, i: int)
    requires 0 <= i < |list|
    ensures i / LinesPerPage < PageCount(|list|)
    ensures i % LinesPerPage < |PageRows(list, i / LinesPerPage)|
    ensures PageRows(list, i / LinesPerPage)[i % LinesPerPage] == list[i]
  {
    var p := i / LinesPerPage;
    assert p * LinesPerPage + i % LinesPerPage == i;
    var r := PageRows(list, p);
    assert p * LinesPerPage < |list|;
    assert |r| == if p * LinesPerPage + LinesPerPage <= |list| then LinesPerPage else |list| - p * LinesPerPage;
  }

  /* ---------------------------------------------------------------------- */
  /* Row content                                                             */

  /** `formatTimeHHhmmQuoted`: an empty text stays empty; otherwise the
      parts before the first colon and between the first and second colon,
      joined by a colon (the second part reads "undefined" when there is no
      colon at all). */
  function FormatQuoted(s: string): (r: string)
    ensures s == "" <==> r == ""
  {
    if s == "" then ""
    else
      var k := IndexOf(s, ':');
      if k == -1 then s + ":undefined"
      else
        var rest := s[k + 1..];
        var j := IndexOf(rest, ':');
        s[..k] + ":" + (if j == -1 then rest else rest[..j])
  }

  lemma {:induction false} Pad2HasNoColon(x: int)
    ensures ':' !in Pad2(x)
  {
    if x < 0 {
      NatTextDigits(-x);
      assert forall i :: 0 <= i < |IntText(x)| ==> IntText(x)[i] != ':' by {
        assert IntText(x) == "-" + NatText(-x);
        forall i | 0 <= i < |IntText(x)|
          ensures IntText(x)[i] != ':'
        {
          if i > 0 { assert IntText(x)[i] == NatText(-x)[i - 1]; }
        }
      }
    } else {
      NatTextDigits(x);
    }
  }

  /** The board prints a clock reading exactly as its "HH:mm" text, and an
      absent time as nothing. */
  lemma {:induction false} QuotedTextIsText(t: Option<Clock>)
    ensures FormatQuoted(TimeText(t)) == TimeText(t)
  {
    if t.Some? {
      var c := t.value;
      var h, m := Pad2(c.hours), Pad2(c.minutes);
      Pad2HasNoColon(c.hours);
      Pad2HasNoColon(c.minutes);
      var s := Text(c);
      assert s == h + ":" + m;
      assert s[|h|] == ':';
      assert ':' !in s[..|h|] by { assert s[..|h|] == h; }
      assert IndexOf(s, ':') == |h|;
      assert s[|h| + 1..] == m;
      assert s[..|h|] == h;
    }
  }

  /** The train types the board knows; any other type is shown as MOBIGO. */
  const KnownTypes: seq<string> :=
    ["TER", "TGV InOui", "TGV Lyria", "TGV Ouigo", "OUIGO Trains Classiques", "Intercités", "MOBIGO", "Car TER"]

  /** `trainTypeMapping[schedule.trainType || 'MOBIGO'] || 'MOBIGO'`. */
  function TrainTypeLabel(t: string): string
  {
    if t in KnownTypes then t else "MOBIGO"
  }

  /** The label is always a known type, keeps a known type, turns an empty
      or unknown type into MOBIGO, and labelling twice changes nothing. */
  lemma TrainTypeLabelKnown(t: string)
    ensures TrainTypeLabel(t) in KnownTypes
    ensures t in KnownTypes ==> TrainTypeLabel(t) == t
    ensures t !in KnownTypes ==> TrainTypeLabel(t) == "MOBIGO"
    ensures TrainTypeLabel(TrainTypeLabel(t)) == TrainTypeLabel(t)
  {
  }

  const DefaultLogo := "/images/sncf-logo.png"

  /** The logo of a train type from the fetched logo table, or the default
      logo. */
  function Logo(logos: map<string, string>, typeName: string): (r: string)
    ensures r != ""
    ensures typeName in logos && logos[typeName] != "" ==> r == logos[typeName]
    ensures typeName !in logos || logos[typeName] == "" ==> r == DefaultLogo
  {
    if typeName in logos && logos[typeName] != "" then logos[typeName] else DefaultLogo
  }

  /** The short status line of a row. */
  function StatusText(st: Status): (r: string)
    ensures st.OnTime? <==> r == "à l'heure"
    ensures st.Delayed? <==> r == "Retardé"
    ensures st.Cancelled? <==> r == "Supprimé"
  {
    match st
    case OnTime => "à l'heure"
    case Delayed(_, _) => "Retardé"
    case Cancelled => "Supprimé"
  }

  /** The name the marquee shows for one stored served-station entry:
      an object's name (empty when it has none), a bare name as it is, and
      nothing for `null`, on which reading `.name` throws. */
  function EntryLabel(e: RawEntry): Option<string>
  {
    match e
    case Bare(n) => Some(n)
    case Entry(n, _, _) => Some(n)
    case NullEntry => None
  }

  /** The names the marquee reads from the stored route: none for an absent
      or empty route; `None` when reading them throws (a `null` entry, or a
      non-empty text, which has no `map`). */
  function RouteLabels(route: RawRoute): (r: Option<seq<string>>)
    ensures r.None? <==> (route.RouteList? && exists i :: 0 <= i < |route.entries| && route.entries[i].NullEntry?)
                         || (route.RouteText? && route.text != "")
    ensures r.Some? && route.RouteList? ==> |r.value| == |route.entries|
    ensures r.Some? && route.RouteList? ==> forall i :: 0 <= i < |route.entries| ==> Some(r.value[i]) == EntryLabel(route.entries[i])
    ensures r.Some? && !route.RouteList? ==> r.value == []
  {
    match route
    case NoRoute => Some([])
    case RouteText(t, _) => if t == "" then Some([]) else None
    case RouteList(es) =>
      if exists i :: 0 <= i < |es| && es[i].NullEntry? then None
      else Some(seq(|es|, i requires 0 <= i < |es| => EntryLabel(es[i]).value))
  }

  /** The served-stations marquee of a row: for a departure the stops after
      the station, for an arrival the stops before it, the whole route when
      the station is not on it; `None` when reading the route throws. */
  function Marquee(route: RawRoute, gare: string, dir: Direction): (r: Option<seq<string>>)
    ensures r.None? <==> RouteLabels(route).None?
    ensures r.Some? && gare !in RouteLabels(route).value ==> r.value == RouteLabels(route).value
    ensures r.Some? && dir == Departure ==>
              |r.value| <= |RouteLabels(route).value| &&
              r.value == RouteLabels(route).value[|RouteLabels(route).value| - |r.value|..]
    ensures r.Some? && dir == Arrival ==>
              |r.value| <= |RouteLabels(route).value| && r.value == RouteLabels(route).value[..|r.value|]
    ensures r.Some? && dir == Arrival && gare in RouteLabels(route).value ==> gare !in r.value
  {
    match RouteLabels(route)
    case None => None
    case Some(names) =>
      var k := IndexOf(names, gare);
      if k == -1 then Some(names)
      else if dir == Departure then Some(names[k + 1..])
      else Some(names[..k])
  }

  /** Where the station is on the route, the arrival marquee, the station
      and the departure marquee put together give the whole route. */
  lemma {:induction false} MarqueeSplitsRoute(route: RawRoute, gare: string)
    requires RouteLabels(route).Some? && gare in RouteLabels(route).value
    ensures Marquee(route, gare, Arrival).value + [gare] + Marquee(route, gare, Departure).value == RouteLabels(route).value
  {
    var names := RouteLabels(route).value;
    var k := IndexOf(names, gare);
    assert names == names[..k] + [names[k]] + names[k + 1..];
  }

  /** On a route of plain station names, the first name of a departure
      marquee is the destination `getStationEndpoint` gives for a run that
      only stops at the station. */
  lemma {:induction false} MarqueeHeadIsNextStop(s: Schedule, gare: string, labels: seq<string>)
    requires forall i :: 0 <= i < |labels| ==> labels[i] != ""
    requires s.route == RouteList(BareRoute(labels))
    requires gare != "" && s.departureStation != gare && gare in labels
    requires Marquee(s.route, gare, Departure).Some? && Marquee(s.route, gare, Departure).value != []
    ensures Marquee(s.route, gare, Departure).value[0] == StationEndpoint(s, gare, Departure)
  {
    var names := RouteLabels(s.route).value;
    assert names == labels;
    var k := IndexOf(labels, gare);
    assert Marquee(s.route, gare, Departure).value == labels[k + 1..];
    EndpointOnBareRoute(s, gare, labels);
  }

  /** On a route of plain station names, the destination of a run that only
      stops at the station is the name after it. */
  lemma EndpointOnBareRoute(s: Schedule, gare: string, labels: seq<string>)
    requires forall i :: 0 <= i < |labels| ==> labels[i] != ""
    requires s.route == RouteList(BareRoute(labels))
    requires gare != "" && s.departureStation != gare
    requires 0 <= IndexOf(labels, gare) < |labels| - 1
    ensures StationEndpoint(s, gare, Departure) == labels[IndexOf(labels, gare) + 1]
  {
    BareNamesRoundTrip(labels);
  }

  /** The platform threshold in minutes: 20 for a station in town (also when
      the station or its location type is unknown), 720 otherwise. */
  function PlatformMinutes(locationType: string): (r: int)
    ensures locationType == "" || locationType == "Ville" ==> r == 20
    ensures locationType != "" && locationType != "Ville" ==> r == 720
  {
    if locationType == "" || locationType == "Ville" then 20 else 720
  }

  /** The platform assigned by hand to a run at a station, "" when none. */
  function Assigned(assignments: map<int, map<string, string>>, id: int, gare: string): string
  {
    if id in assignments && gare in assignments[id] then assignments[id][gare] else ""
  }

  /** `trackAssignments[id]?.[gare] || schedule.track || '-'`. */
  function PlatformName(assignments: map<int, map<string, string>>, s: Schedule, gare: string): (r: string)
    ensures r != ""
    ensures Assigned(assignments, s.id, gare) != "" ==> r == Assigned(assignments, s.id, gare)
    ensures Assigned(assignments, s.id, gare) == "" && s.track != "" ==> r == s.track
    ensures Assigned(assignments, s.id, gare) == "" && s.track == "" ==> r == "-"
  {
    var a := Assigned(assignments, s.id, gare);
    if a != "" then a else if s.track != "" then s.track else "-"
  }

  /** Whether the platform is shown: the run is due within the threshold
      and not yet past (`diffMs` is the time to the run in milliseconds). */
  predicate ShowPlatform(diffMs: int, locationType: string)
  {
    0 <= diffMs <= PlatformMinutes(locationType) * 60000
  }

  /** A station in town never shows a platform that an interurban station
      would not show. */
  lemma UrbanWindowInsideInterurban(diffMs: int, other: string)
    requires other != "" && other != "Ville"
    ensures ShowPlatform(diffMs, "Ville") ==> ShowPlatform(diffMs, other)
    ensures ShowPlatform(diffMs, "") == ShowPlatform(diffMs, "Ville")
  {
  }

  /* ---------------------------------------------------------------------- */
  /* Rows                                                                    */

  /** What one render needs besides the lists. `nowMs` is the current time
      in milliseconds since local midnight. */
  datatype View = View(
    gare: string,
    dir: Direction,
    nowMs: int,
    locationType: string,
    assignments: map<int, map<string, string>>,
    logos: map<string, string>)

  /** One row of the board. */
  datatype Row = Row(
    logo: string,
    trainType: string,
    trainNumber: string,
    status: string,
    time: string,
    destination: string,
    marquee: seq<string>,
    platform: string,
    even: bool)

  /** What a schedule turns into on the board: a row, no row, or a thrown
      error that fails the whole render. */
  datatype Outcome = Shown(row: Row) | Hidden | Crashed

  /** Milliseconds from now to a clock reading of today (a negative reading
      lies on the previous day, past 24 hours on the next). */
  function DiffMs(c: Clock, nowMs: int): int
  {
    Minutes(c) * 60000 - nowMs
  }

  /** The hiding rule: a row disappears in the two minutes before its time,
      and once past, unless it is at the same time as the last run of the
      day's list. */
  predicate RowHidden(c: Clock, last: Clock, nowMs: int)
  {
    var diff := DiffMs(c, nowMs);
    (0 <= diff < 120000) || (diff < 0 && Minutes(c) != Minutes(last))
  }

  /** A run two minutes or more ahead is always shown; the last run of the
      day stays on the board once its time has passed; a past run at
      another time than the last one is hidden. */
  lemma {:induction false} HidingRule(c: Clock, last: Clock, nowMs: int)
    ensures DiffMs(c, nowMs) >= 120000 ==> !RowHidden(c, last, nowMs)
    ensures DiffMs(c, nowMs) < 0 ==> (RowHidden(c, last, nowMs) <==> Minutes(c) != Minutes(last))
    ensures 0 <= DiffMs(c, nowMs) < 120000 ==> RowHidden(c, last, nowMs)
    ensures !RowHidden(last, last, nowMs) <==> DiffMs(last, nowMs) < 0 || DiffMs(last, nowMs) >= 120000
  {
  }

  /** Once the last run of a list in time order has left, the only rows
      still shown are those at the last run's time. */
  lemma {:induction false} PastLastRunOnlyItsTimeStays(times: seq<Clock>, nowMs: int)
    requires times != []
    requires forall i, j :: 0 <= i < j < |times| ==> Minutes(times[i]) <= Minutes(times[j])
    requires DiffMs(times[|times| - 1], nowMs) < 0
    ensures forall i :: 0 <= i < |times| ==>
              (!RowHidden(times[i], times[|times| - 1], nowMs) <==> Minutes(times[i]) == Minutes(times[|times| - 1]))
  {
  }

  /** A run one minute ahead is hidden even when it is the last run of the
      day; a past run stays only when it shares the last run's time. */
  lemma HidingExample()
    ensures RowHidden(Clock(10, 1), Clock(12, 0), 10 * 3600000)
    ensures RowHidden(Clock(10, 1), Clock(10, 1), 10 * 3600000)
    ensures !RowHidden(Clock(9, 30), Clock(9, 30), 10 * 3600000)
    ensures RowHidden(Clock(9, 30), Clock(9, 45), 10 * 3600000)
  {
  }

  /** At a station in town a platform shows 19 minutes ahead but not 25. */
  lemma PlatformExample()
    ensures ShowPlatform(19 * 60000, "Ville") && !ShowPlatform(25 * 60000, "Ville")
    ensures ShowPlatform(25 * 60000, "Interurbain")
  {
  }

  /** One row of today's list: the time at the station (throws when there is
      none, as does the last run's), the hiding rule, then the marquee and
      the platform. */
  function TodayRow(v: View, s: Schedule, last: Option<Clock>, index: nat): (o: Outcome)
    ensures StationTime(s, v.gare, v.dir, true).None? || last.None? ==> o.Crashed?
    ensures o.Shown? ==>
              StationTime(s, v.gare, v.dir, true).Some? && last.Some? &&
              !RowHidden(StationTime(s, v.gare, v.dir, true).value, last.value, v.nowMs)
    ensures o.Shown? ==> o.row.time == Text(StationTime(s, v.gare, v.dir, true).value)
    ensures o.Shown? ==> o.row.destination == (if v.dir == Departure then s.arrivalStation else s.departureStation)
    ensures o.Shown? ==> o.row.trainType in KnownTypes && o.row.status == StatusText(TrainStatus(s))
    ensures o.Shown? ==> Some(o.row.marquee) == Marquee(s.route, v.gare, v.dir)
    ensures o.Shown? ==> (o.row.platform != "" <==> ShowPlatform(DiffMs(StationTime(s, v.gare, v.dir, true).value, v.nowMs), v.locationType))
    ensures o.Shown? ==>
              o.row.platform == (if ShowPlatform(DiffMs(StationTime(s, v.gare, v.dir, true).value, v.nowMs), v.locationType)
                                 then PlatformName(v.assignments, s, v.gare) else "")
    ensures o.Shown? ==> o.row.trainType == TrainTypeLabel(s.trainType) && o.row.logo == Logo(v.logos, TrainTypeLabel(s.trainType))
    ensures o.Shown? ==> o.row.trainNumber == s.trainNumber && o.row.even == (index % 2 == 0)
    ensures o.Crashed? <==>
              StationTime(s, v.gare, v.dir, true).None? || last.None? ||
              (!RowHidden(StationTime(s, v.gare, v.dir, true).value, last.value, v.nowMs) && Marquee(s.route, v.gare, v.dir).None?)
    ensures o.Hidden? <==>
              (StationTime(s, v.gare, v.dir, true).Some? && last.Some? &&
               RowHidden(StationTime(s, v.gare, v.dir, true).value, last.value, v.nowMs))
  {
    var t := StationTime(s, v.gare, v.dir, true);
    if t.None? || last.None? then Crashed
    else if RowHidden(t.value, last.value, v.nowMs) then Hidden
    else
      match Marquee(s.route, v.gare, v.dir)
      case None => Crashed
      case Some(names) =>
        QuotedTextIsText(t);
        TrainTypeLabelKnown(s.trainType);
        var name := TrainTypeLabel(s.trainType);
        var diff := DiffMs(t.value, v.nowMs);
        Shown(Row(
          Logo(v.logos, name), name, s.trainNumber, StatusText(TrainStatus(s)),
          FormatQuoted(TimeText(t)),
          if v.dir == Departure then s.arrivalStation else s.departureStation,
          names,
          if ShowPlatform(diff, v.locationType) then PlatformName(v.assignments, s, v.gare) else "",
          index % 2 == 0))
  }

  /** A row of tomorrow's list: never hidden, its time text empty when it
      has no time, its platform always the assigned one, the track or "-". */
  function NextDayRow(v: View, s: Schedule, index: nat): (o: Outcome)
    ensures !o.Hidden?
    ensures o.Crashed? <==> Marquee(s.route, v.gare, v.dir).None?
    ensures o.Shown? ==> o.row.time == TimeText(StationTime(s, v.gare, v.dir, true))
    ensures o.Shown? ==> o.row.platform == PlatformName(v.assignments, s, v.gare) && o.row.platform != ""
    ensures o.Shown? ==> Some(o.row.marquee) == Marquee(s.route, v.gare, v.dir)
    ensures o.Shown? ==> o.row.trainType == TrainTypeLabel(s.trainType) && o.row.logo == Logo(v.logos, TrainTypeLabel(s.trainType))
    ensures o.Shown? ==> o.row.trainNumber == s.trainNumber && o.row.status == StatusText(TrainStatus(s))
    ensures o.Shown? ==> o.row.destination == (if v.dir == Departure then s.arrivalStation else s.departureStation)
    ensures o.Shown? ==> o.row.even == (index % 2 == 0)
  {
    var t := StationTime(s, v.gare, v.dir, true);
    match Marquee(s.route, v.gare, v.dir)
    case None => Crashed
    case Some(names) =>
      QuotedTextIsText(t);
      var name := TrainTypeLabel(s.trainType);
      Shown(Row(
        Logo(v.logos, name), name, s.trainNumber, StatusText(TrainStatus(s)),
        FormatQuoted(TimeText(t)),
        if v.dir == Departure then s.arrivalStation else s.departureStation,
        names,
        PlatformName(v.assignments, s, v.gare),
        index % 2 == 0))
  }

  /** The rows a list of outcomes renders, in order, skipping hidden ones;
      `None` as soon as one of them throws. */
  function Collect(os: seq<Outcome>): (r: Option<seq<Row>>)
    ensures r.None? <==> exists i :: 0 <= i < |os| && os[i].Crashed?
    ensures r.Some? ==> |r.value| <= |os|
    decreases |os|
  {
    if os == [] then Some([])
    else
      var rest := Collect(os[1..]);
      if os[0].Crashed? then None
      else if rest.None? then
        var i :| 0 <= i < |os[1..]| && os[1..][i].Crashed?;
        assert os[i + 1].Crashed?;
        None
      else
        assert forall i :: 1 <= i < |os| ==> os[1..][i - 1] == os[i];
        if os[0].Hidden? then rest else Some([os[0].row] + rest.value)
  }

  predicate IsShown(o: Outcome)
  {
    o.Shown?
  }

  /** The rows of a list of shown outcomes. */
  function RowsOf(os: seq<Outcome>): (r: seq<Row>)
    requires forall i :: 0 <= i < |os| ==> os[i].Shown?
    ensures |r| == |os|
    ensures forall i :: 0 <= i < |os| ==> os[i] == Shown(r[i])
  {
    seq(|os|, i requires 0 <= i < |os| && os[i].Shown? => os[i].row)
  }

  /** The rows of the shown outcomes, in order: hidden outcomes are dropped
      and nothing else moves (`.map(...).filter(Boolean)`). */
  function ShownRows(os: seq<Outcome>): seq<Row>
  {
    KeptAreShown(os);
    RowsOf(Filter(os, IsShown))
  }

  /** A list of outcomes that renders shows exactly the rows of its shown
      outcomes, in their order and as often as they occur. */
  lemma {:induction false} CollectKeepsOrder(os: seq<Outcome>)
    ensures Collect(os).Some? ==> Collect(os).value == ShownRows(os)
    decreases |os|
  {
    if os != [] && Collect(os).Some? {
      CollectKeepsOrder(os[1..]);
      CollectStep(os);
      ShownRowsStep(os);
    }
  }

  /** One outcome further down the list, for `Collect`. */
  lemma CollectStep(os: seq<Outcome>)
    requires os != [] && Collect(os).Some?
    ensures Collect(os[1..]).Some?
    ensures Collect(os).value ==
              (if os[0].Shown? then [os[0].row] + Collect(os[1..]).value
               else Collect(os[1..]).value)
  {
  }

  /** One outcome further down the list, for `ShownRows`. */
  lemma ShownRowsStep(os: seq<Outcome>)
    requires os != []
    ensures ShownRows(os) ==
              (if os[0].Shown? then [os[0].row] + ShownRows(os[1..])
               else ShownRows(os[1..]))
  {
    var tail := Filter(os[1..], IsShown);
    KeptAreShown(os[1..]);
    if os[0].Shown? {
      assert Filter(os, IsShown) == [os[0]] + tail;
      RowsOfCons(os[0], tail);
    } else {
      assert Filter(os, IsShown) == tail;
    }
  }

  /** The outcomes kept by the filter are all shown. */
  lemma KeptAreShown(os: seq<Outcome>)
    ensures forall i :: 0 <= i < |Filter(os, IsShown)| ==> Filter(os, IsShown)[i].Shown?
  {
    var kept := Filter(os, IsShown);
    assert forall i :: 0 <= i < |kept| ==> kept[i] in kept;
  }

  /** `RowsOf` of a list led by one shown outcome. */
  lemma RowsOfCons(o: Outcome, t: seq<Outcome>)
    requires o.Shown? && forall i :: 0 <= i < |t| ==> t[i].Shown?
    ensures forall i :: 0 <= i < |[o] + t| ==> ([o] + t)[i].Shown?
    ensures RowsOf([o] + t) == [o.row] + RowsOf(t)
  {
    var l := [o] + t;
    assert forall i :: 0 <= i < |t| ==> l[i + 1] == t[i];
  }

  /** Every rendered row is the row of a shown outcome. */
  lemma {:induction false} CollectRowsAreShown(os: seq<Outcome>)
    ensures var r := Collect(os);
            r.Some? ==> forall k :: 0 <= k < |r.value| ==> exists i :: 0 <= i < |os| && os[i] == Shown(r.value[k])
    decreases |os|
  {
    var r := Collect(os);
    if os != [] && r.Some? {
      var rest := Collect(os[1..]);
      CollectRowsAreShown(os[1..]);
      forall k | 0 <= k < |r.value|
        ensures exists i :: 0 <= i < |os| && os[i] == Shown(r.value[k])
      {
        if os[0].Shown? && k == 0 {
          assert os[0] == Shown(r.value[0]);
        } else {
          var k' := if os[0].Shown? then k - 1 else k;
          assert r.value[k] == rest.value[k'];
          var i :| 0 <= i < |os[1..]| && os[1..][i] == Shown(rest.value[k']);
          assert os[i + 1] == Shown(r.value[k]);
        }
      }
    }
  }

  /** Every shown outcome is rendered. */
  lemma {:induction false} CollectKeepsShown(os: seq<Outcome>)
    ensures var r := Collect(os);
            r.Some? ==> forall i :: 0 <= i < |os| && os[i].Shown? ==> os[i].row in r.value
    decreases |os|
  {
    var r := Collect(os);
    if os != [] && r.Some? {
      var rest := Collect(os[1..]);
      CollectKeepsShown(os[1..]);
      forall i | 0 <= i < |os| && os[i].Shown?
        ensures os[i].row in r.value
      {
        if i > 0 {
          assert os[1..][i - 1] == os[i];
          assert os[i].row in rest.value;
        }
      }
    }
  }

  /** When nothing is hidden or throws, the rows are the outcomes' rows in
      order. */
  lemma {:induction false} CollectAllShown(os: seq<Outcome>)
    requires forall i :: 0 <= i < |os| ==> os[i].Shown?
    ensures Collect(os).Some?
    ensures |Collect(os).value| == |os|
    ensures forall i :: 0 <= i < |os| ==> os[i] == Shown(Collect(os).value[i])
    decreases |os|
  {
    if os != [] {
      assert forall i :: 0 <= i < |os[1..]| ==> os[1..][i] == os[i + 1];
      CollectAllShown(os[1..]);
      var rest := Collect(os[1..]).value;
      assert Collect(os).value == [os[0].row] + rest;
    }
  }

  /** The outcomes of the rows of today's page. */
  function TodayOutcomes(v: View, page: seq<Schedule>, last: Option<Clock>): (os: seq<Outcome>)
    ensures |os| == |page|
    ensures forall i :: 0 <= i < |page| ==> os[i] == TodayRow(v, page[i], last, i)
  {
    seq(|page|, i requires 0 <= i < |page| => TodayRow(v, page[i], last, i))
  }

  /** The outcomes of the rows of tomorrow's list. */
  function NextDayOutcomes(v: View, list: seq<Schedule>): (os: seq<Outcome>)
    ensures |os| == |list|
    ensures forall i :: 0 <= i < |list| ==> os[i] == NextDayRow(v, list[i], i)
  {
    seq(|list|, i requires 0 <= i < |list| => NextDayRow(v, list[i], i))
  }

  /** Every rendered row of today's page is the shown row of one of its runs. */
  lemma TodaySection(v: View, page: seq<Schedule>, last: Option<Clock>)
    ensures var r := Collect(TodayOutcomes(v, page, last));
            r.Some? ==> forall k :: 0 <= k < |r.value| ==>
              exists i :: 0 <= i < |page| && TodayRow(v, page[i], last, i) == Shown(r.value[k])
  {
    CollectRowsAreShown(TodayOutcomes(v, page, last));
  }

  /** A next-day section that renders has one row per run, in order. */
  lemma NextDaySection(v: View, list: seq<Schedule>)
    ensures var r := Collect(NextDayOutcomes(v, list));
            r.Some? ==> |r.value| == |list| && forall i :: 0 <= i < |list| ==> NextDayRow(v, list[i], i) == Shown(r.value[i])
  {
    var os := NextDayOutcomes(v, list);
    if Collect(os).Some? {
      forall i | 0 <= i < |os|
        ensures os[i].Shown?
      {
        assert !os[i].Crashed?;
      }
      CollectAllShown(os);
    }
  }

  /* ---------------------------------------------------------------------- */
  /* Screen                                                                  */

  /** What the board page shows. */
  datatype Screen =
    | MissingStation
    | InvalidType
    | Loading
    | NoSchedules
    | RenderFailed
    | Displayed(rows: seq<Row>, nextDay: seq<Row>)

  /** The time of the last run of today's list, against which every row
      decides whether it hides. */
  function LastTime(v: View, today: seq<Schedule>): Option<Clock>
    requires today != []
  {
    StationTime(today[|today| - 1], v.gare, v.dir, true)
  }

  /** Whether a run on the current page of today's list throws. */
  predicate PageThrows(v: View, today: seq<Schedule>, page: nat)
    requires today != []
  {
    exists i :: 0 <= i < |PageRows(today, page)| && TodayRow(v, PageRows(today, page)[i], LastTime(v, today), i).Crashed?
  }

  /** Whether one of the first ten runs of tomorrow's list throws. */
  predicate NextDayThrows(v: View, tomorrow: seq<Schedule>)
  {
    exists i :: 0 <= i < |PageRows(tomorrow, 0)| && NextDayRow(v, PageRows(tomorrow, 0)[i], i).Crashed?
  }

  /** The board proper, for a non-empty list: the current page of today's
      list and, on the first page only, the first ten runs of tomorrow's
      list; a row that throws makes the whole render fail. */
  function BoardScreen(v: View, today: seq<Schedule>, tomorrow: seq<Schedule>, page: nat): (r: Screen)
    requires today != []
    ensures r.Displayed? || r.RenderFailed?
    ensures r.RenderFailed? <==> PageThrows(v, today, page) || (page == 0 && NextDayThrows(v, tomorrow))
    ensures r.Displayed? ==> |r.rows| <= LinesPerPage && |r.nextDay| <= LinesPerPage
    ensures r.Displayed? ==> forall k :: 0 <= k < |r.rows| ==>
              exists i :: 0 <= i < |PageRows(today, page)| && TodayRow(v, PageRows(today, page)[i], LastTime(v, today), i) == Shown(r.rows[k])
    ensures r.Displayed? ==> forall i :: 0 <= i < |PageRows(today, page)| && TodayRow(v, PageRows(today, page)[i], LastTime(v, today), i).Shown? ==>
              TodayRow(v, PageRows(today, page)[i], LastTime(v, today), i).row in r.rows
    ensures r.Displayed? ==> r.rows == ShownRows(TodayOutcomes(v, PageRows(today, page), LastTime(v, today)))
    ensures r.Displayed? && (page != 0 || tomorrow == []) ==> r.nextDay == []
    ensures r.Displayed? && page == 0 ==> |r.nextDay| == if |tomorrow| < LinesPerPage then |tomorrow| else LinesPerPage
    ensures r.Displayed? && page == 0 ==> forall i :: 0 <= i < |r.nextDay| ==> NextDayRow(v, tomorrow[i], i) == Shown(r.nextDay[i])
  {
    var rows := TodayPart(v, today, page);
    var extra := NextDayPart(v, tomorrow, page);
    if rows.None? || extra.None? then RenderFailed
    else Displayed(rows.value, extra.value)
  }

  /** The rows of the current page of today's list, or `None` when one
      throws; each row decides its hiding against the time of the list's
      last run. */
  function TodayPart(v: View, today: seq<Schedule>, page: nat): (r: Option<seq<Row>>)
    requires today != []
    ensures r.None? <==> PageThrows(v, today, page)
    ensures r.Some? ==> |r.value| <= LinesPerPage
    ensures r.Some? ==> forall k :: 0 <= k < |r.value| ==>
              exists i :: 0 <= i < |PageRows(today, page)| && TodayRow(v, PageRows(today, page)[i], LastTime(v, today), i) == Shown(r.value[k])
    ensures r.Some? ==> forall i :: 0 <= i < |PageRows(today, page)| && TodayRow(v, PageRows(today, page)[i], LastTime(v, today), i).Shown? ==>
              TodayRow(v, PageRows(today, page)[i], LastTime(v, today), i).row in r.value
    ensures r.Some? ==> r.value == ShownRows(TodayOutcomes(v, PageRows(today, page), LastTime(v, today)))
  {
    var os := TodayOutcomes(v, PageRows(today, page), LastTime(v, today));
    TodaySection(v, PageRows(today, page), LastTime(v, today));
    CollectKeepsShown(os);
    CollectKeepsOrder(os);
    Collect(os)
  }

  /** When no run of the page hides or throws, the page shows the row of
      every run, in order. */
  lemma PageFullyShown(v: View, today: seq<Schedule>, page: nat)
    requires today != []
    requires forall i :: 0 <= i < |PageRows(today, page)| ==> TodayRow(v, PageRows(today, page)[i], LastTime(v, today), i).Shown?
    ensures TodayPart(v, today, page).Some?
    ensures |TodayPart(v, today, page).value| == |PageRows(today, page)|
    ensures forall i :: 0 <= i < |PageRows(today, page)| ==>
              TodayRow(v, PageRows(today, page)[i], LastTime(v, today), i) == Shown(TodayPart(v, today, page).value[i])
  {
    CollectAllShown(TodayOutcomes(v, PageRows(today, page), LastTime(v, today)));
  }

  /** The next-day section: empty after the first page, otherwise the rows
      of the first ten runs of tomorrow's list, or `None` when one throws. */
  function NextDayPart(v: View, tomorrow: seq<Schedule>, page: nat): (r: Option<seq<Row>>)
    ensures r.None? <==> page == 0 && NextDayThrows(v, tomorrow)
    ensures page != 0 || tomorrow == [] ==> r == Some([])
    ensures r.Some? && page == 0 ==> |r.value| == if |tomorrow| < LinesPerPage then |tomorrow| else LinesPerPage
    ensures r.Some? && page == 0 ==> forall i :: 0 <= i < |r.value| ==> NextDayRow(v, tomorrow[i], i) == Shown(r.value[i])
  {
    if page == 0 && tomorrow != [] then
      NextDaySection(v, PageRows(tomorrow, 0));
      Collect(NextDayOutcomes(v, PageRows(tomorrow, 0)))
    else Some([])
  }

  /** One render of the board: the parameter checks, the loading and empty
      states, then the board proper. */
  function Render(gare: string, kind: string, loading: bool, today: seq<Schedule>, tomorrow: seq<Schedule>,
                  page: nat, v: View): (r: Screen)
    requires v.gare == gare && v.dir == DirectionOf(kind)
    ensures gare == "" ==> r == MissingStation
    ensures gare != "" && !ValidKind(kind) ==> r == InvalidType
    ensures gare != "" && ValidKind(kind) && loading ==> r == Loading
    ensures gare != "" && ValidKind(kind) && !loading && today == [] ==> r == NoSchedules
    ensures r.Displayed? ==> gare != "" && ValidKind(kind) && !loading && today != []
    ensures r.Displayed? ==> |r.rows| <= LinesPerPage && |r.nextDay| <= LinesPerPage
    ensures r.Displayed? && (page != 0 || tomorrow == []) ==> r.nextDay == []
    ensures r.Displayed? && page == 0 ==> |r.nextDay| == if |tomorrow| < LinesPerPage then |tomorrow| else LinesPerPage
    ensures r.RenderFailed? <==>
              gare != "" && ValidKind(kind) && !loading && today != [] &&
              (PageThrows(v, today, page) || (page == 0 && NextDayThrows(v, tomorrow)))
    ensures r.Displayed? && today != [] ==> forall k :: 0 <= k < |r.rows| ==>
              exists i :: 0 <= i < |PageRows(today, page)| && TodayRow(v, PageRows(today, page)[i], LastTime(v, today), i) == Shown(r.rows[k])
    ensures r.Displayed? && today != [] ==> forall i :: 0 <= i < |PageRows(today, page)| && TodayRow(v, PageRows(today, page)[i], LastTime(v, today), i).Shown? ==>
              TodayRow(v, PageRows(today, page)[i], LastTime(v, today), i).row in r.rows
    ensures r.Displayed? && today != [] ==> r.rows == ShownRows(TodayOutcomes(v, PageRows(today, page), LastTime(v, today)))
    ensures r.Displayed? && page == 0 ==> forall i :: 0 <= i < |r.nextDay| ==> NextDayRow(v, tomorrow[i], i) == Shown(r.nextDay[i])
  {
    if gare == "" then MissingStation
    else if !ValidKind(kind) then InvalidType
    else if loading then Loading
    else if today == [] then NoSchedules
    else BoardScreen(v, today, tomorrow, page)
  }
}
