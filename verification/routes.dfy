/** Served stations (`servedStations`): the stored, loosely typed route of a
    run and `normalizeServedStations`, which turns it into an ordered list
    of named stops. */
module Routes {
  import opened Common
  import opened ClockTime

  /** One element of a stored served-stations array: a bare station name,
      an object with an optional name (empty = missing) and optional times,
      or `null`. */
  datatype RawEntry =
    | Bare(station: string)
    | Entry(name: string, arrival: Option<Clock>, departure: Option<Clock>)
    | NullEntry

  /** What `JSON.parse` makes of a served-stations text. */
  datatype Parsed = ParsedArray(entries: seq<RawEntry>) | ParsedNonArray | ParseFailed

  /** The stored `servedStations` field: absent, an array, or a JSON text
      together with its parse result. */
  datatype RawRoute =
    | NoRoute
    | RouteList(entries: seq<RawEntry>)
    | RouteText(text: string, parsed: Parsed)

  /** A normalised stop: a named station with optional arrival and departure
      times. */
  datatype Stop = Stop(name: string, arrival: Option<Clock>, departure: Option<Clock>)

  /** The array `normalizeServedStations` maps over: an absent or empty-text
      route, a text that does not parse, or one that parses to something
      other than an array, gives no entries. */
  function Entries(route: RawRoute): seq<RawEntry>
  {
    match route
    case NoRoute => []
    case RouteList(es) => es
    case RouteText(t, p) => if t != "" && p.ParsedArray? then p.entries else []
  }

  /** The `map` step: a bare name becomes a stop without times, an object is
      kept as it is; `null` is shown as a stop without a name, which the
      following `filter` drops just as it drops `null`. */
  function AsStop(e: RawEntry): (s: Stop)
    ensures e.Bare? ==> s == Stop(e.station, None, None)
    ensures e.Entry? ==> s == Stop(e.name, e.arrival, e.departure)
    ensures e.NullEntry? ==> s.name == ""
  {
    match e
    case Bare(n) => Stop(n, None, None)
    case Entry(n, a, d) => Stop(n, a, d)
    case NullEntry => Stop("", None, None)
  }

  function AsStops(es: seq<RawEntry>): (r: seq<Stop>)
    ensures |r| == |es|
    ensures forall i :: 0 <= i < |es| ==> r[i] == AsStop(es[i])
  {
    seq(|es|, i requires 0 <= i < |es| => AsStop(es[i]))
  }

  /** The `filter(station => station && station.name)` step. */
  predicate Named(s: Stop)
  {
    s.name != ""
  }

  /** `normalizeServedStations`: the stops of the route, in route order,
      without the entries that have no name. */
  function Normalize(route: RawRoute): (r: seq<Stop>)
    ensures route.NoRoute? ==> r == []
    ensures route.RouteText? && (route.text == "" || !route.parsed.ParsedArray?) ==> r == []
    ensures |r| <= |Entries(route)|
    ensures forall i :: 0 <= i < |r| ==> r[i].name != ""
    ensures forall s :: s in r <==> s in AsStops(Entries(route)) && s.name != ""
    ensures IsSubsequence(r, AsStops(Entries(route)))
  {
    var stops := AsStops(Entries(route));
    var r := Filter(stops, Named);
    assert forall i :: 0 <= i < |r| ==> r[i] in r;
    r
  }

  /** Normalizing keeps every named stop as often as the route lists it
      and drops every unnamed one. */
  lemma NormalizeCounts(route: RawRoute)
    ensures forall s :: multiset(Normalize(route))[s] == if s.name != "" then multiset(AsStops(Entries(route)))[s] else 0
  {
    FilterCountsAll(AsStops(Entries(route)), Named);
  }

  /** The station names of a list of stops. */
  function Names(stops: seq<Stop>): (r: seq<string>)
    ensures |r| == |stops|
    ensures forall i :: 0 <= i < |stops| ==> r[i] == stops[i].name
  {
    seq(|stops|, i requires 0 <= i < |stops| => stops[i].name)
  }

  /** A route written as plain, non-empty station names normalises to the
      same names in the same order, every stop without times. */
  lemma {:induction false} BareNamesRoundTrip(labels: seq<string>)
    requires forall i :: 0 <= i < |labels| ==> labels[i] != ""
    ensures Names(Normalize(RouteList(BareRoute(labels)))) == labels
    ensures forall s :: s in Normalize(RouteList(BareRoute(labels))) ==> s.arrival.None? && s.departure.None?
  {
    var stops := AsStops(BareRoute(labels));
    assert forall s :: s in stops ==> s.arrival.None? && s.departure.None?;
    KeepsAllNamed(stops);
    assert Names(stops) == labels;
  }

  /** The route `["A", "B", ...]` written with bare names. */
  function BareRoute(labels: seq<string>): (es: seq<RawEntry>)
    ensures |es| == |labels|
    ensures forall i :: 0 <= i < |labels| ==> es[i] == Bare(labels[i])
  {
    seq(|labels|, i requires 0 <= i < |labels| => Bare(labels[i]))
  }

  /** Filtering a list of named stops by name changes nothing. */
  lemma {:induction false} KeepsAllNamed(stops: seq<Stop>)
    requires forall i :: 0 <= i < |stops| ==> stops[i].name != ""
    ensures Filter(stops, Named) == stops
    decreases |stops|
  {
    if stops != [] {
      KeepsAllNamed(stops[1..]);
    }
  }
}
