/** The schedule record and the per-record rules of the schedule utilities:
    validity (`validateSchedule`), status (`getTrainStatus`), the time at a
    station (`getStationTime`), the board filters (`filterSchedulesByType`,
    `filterSchedulesByDay`, the filter of `getStationSchedules`) and the
    destination/origin lookup (`getStationEndpoint`). */
module Schedules {
  import opened Common
  import opened ClockTime
  import opened Routes
  import opened Weekdays

  /** Which event of a run a board shows at its station. */
  datatype Direction = Departure | Arrival

  /** The utilities test `type === 'departures'` (or `'departure'`); every
      other value selects the arrival branch. */
  function DirectionOf(kind: string): (d: Direction)
    ensures d == Departure <==> kind == "departures"
  {
    if kind == "departures" then Departure else Arrival
  }

  /** One train run as stored. Text fields use "" for a missing value,
      a `delay` of 0 stands for a missing or zero `delayMinutes`. */
  datatype Schedule = Schedule(
    id: int,
    trainNumber: string,
    trainType: string,
    departureStation: string,
    arrivalStation: string,
    departureTime: Option<Clock>,
    arrivalTime: Option<Clock>,
    route: RawRoute,
    days: RawDays,
    delay: int,
    cancelled: bool,
    cause: Option<string>,
    causeId: Option<int>,
    track: string)

  /** `validateSchedule`: number, both stations and both times present. */
  predicate Valid(s: Schedule)
  {
    s.trainNumber != "" && s.departureStation != "" && s.arrivalStation != ""
    && s.departureTime.Some? && s.arrivalTime.Some?
  }

  /** The run's own station for a direction: where it starts (departures)
      or where it ends (arrivals). */
  function EndpointStation(s: Schedule, dir: Direction): string
  {
    if dir == Departure then s.departureStation else s.arrivalStation
  }

  /** The scheduled time at that own station. */
  function ScheduledTime(s: Schedule, dir: Direction): Option<Clock>
  {
    if dir == Departure then s.departureTime else s.arrivalTime
  }

  /** The time of a served stop for a direction. */
  function StopTime(stop: Stop, dir: Direction): Option<Clock>
  {
    if dir == Departure then stop.departure else stop.arrival
  }

  /* ---------------------------------------------------------------------- */
  /* Status                                                                  */

  /** The status object of `getTrainStatus`. */
  datatype Status = Cancelled | Delayed(delayMinutes: int, delayedTime: Option<Clock>) | OnTime
  {
    /** The `status` code string. */
    function Code(): string
    {
      match this
      case Cancelled => "cancelled"
      case Delayed(_, _) => "delayed"
      case OnTime => "ontime"
    }

    /** The human-readable `label`. */
    function Label(): string
    {
      match this
      case Cancelled => "Train supprimé"
      case Delayed(d, _) => "Retard " + IntText(d) + " min"
      case OnTime => "À l'heure"
    }
  }

  /** `getTrainStatus`: cancellation first, then any non-zero delay, with the
      departure time shifted by the delay, otherwise on time. */
  function TrainStatus(s: Schedule): (st: Status)
    ensures st.Cancelled? <==> s.cancelled
    ensures st.Delayed? <==> !s.cancelled && s.delay != 0
    ensures st.Delayed? ==> st.delayMinutes == s.delay && st.delayedTime == DelayedTime(s.departureTime, s.delay)
  {
    if s.cancelled then Cancelled
    else if s.delay != 0 then Delayed(s.delay, DelayedTime(s.departureTime, s.delay))
    else OnTime
  }

  /** Cancellation outranks any delay: changing the delay of a cancelled run
      never changes its status, and a run is on time exactly when it is
      neither cancelled nor delayed. */
  lemma {:induction false} CancellationOutranksDelay(s: Schedule, d: int)
    ensures s.cancelled ==> TrainStatus(s.(delay := d)) == TrainStatus(s) == Cancelled
    ensures TrainStatus(s).OnTime? <==> !s.cancelled && s.delay == 0
    ensures TrainStatus(s).Code() in {"cancelled", "delayed", "ontime"}
  {
  }

  /** Two statuses with the same label have the same code, and two delays
      with the same label are the same number of minutes. */
  lemma LabelShowsStatus(a: Status, b: Status)
    requires a.Label() == b.Label()
    ensures a.Code() == b.Code()
    ensures a.Delayed? ==> b.Delayed? && a.delayMinutes == b.delayMinutes
  {
    LabelHead(a);
    LabelHead(b);
    if a.Delayed? && b.Delayed? {
      var l := a.Label();
      assert IntText(a.delayMinutes) == l[7..|l| - 4];
      assert IntText(b.delayMinutes) == l[7..|l| - 4];
      IntTextInjective(a.delayMinutes, b.delayMinutes);
    }
  }

  /** The first letter of a label names its kind of status. */
  lemma LabelHead(st: Status)
    ensures |st.Label()| > 0
    ensures st.Label()[0] == match st case Cancelled => 'T' case Delayed(_, _) => 'R' case OnTime => 'À'
  {
  }

  /* ---------------------------------------------------------------------- */
  /* Time at a station                                                       */

  /** `normalizedServedStations.find(s => s.name === stationName)`: the
      first stop of the route with that name. */
  function FirstStop(stops: seq<Stop>, station: string): (r: Option<Stop>)
    ensures r.None? <==> station !in Names(stops)
    ensures r.Some? ==> r.value.name == station && r.value in stops
    ensures r.Some? ==> r.value == stops[IndexOf(Names(stops), station)]
  {
    var k := IndexOf(Names(stops), station);
    if k == -1 then None else Some(stops[k])
  }

  /** Whether a delay is added at this station: never without `applyDelay`
      or without a delay, and not at the run's own station once it is
      cancelled. */
  predicate ShiftsAt(s: Schedule, station: string, dir: Direction, applyDelay: bool)
  {
    applyDelay && s.delay != 0 && !(EndpointStation(s, dir) == station && s.cancelled)
  }

  /** `getStationTime`: the time of the run at `station` for the direction.
      At the run's own station it is the scheduled time, shifted by the
      delay unless the run is cancelled; at a served stop it is the first
      such stop's time, shifted by the delay even when the run is cancelled. */
  function StationTime(s: Schedule, station: string, dir: Direction, applyDelay: bool): (r: Option<Clock>)
    ensures station == "" ==> r.None?
    ensures station != "" && EndpointStation(s, dir) == station ==>
              r == (if ShiftsAt(s, station, dir, applyDelay) then DelayedTime(ScheduledTime(s, dir), s.delay) else ScheduledTime(s, dir))
    ensures station != "" && EndpointStation(s, dir) != station && station !in Names(Normalize(s.route)) ==> r.None?
    ensures station != "" && EndpointStation(s, dir) != station && station in Names(Normalize(s.route)) ==>
              var stop := FirstStop(Normalize(s.route), station).value;
              (StopTime(stop, dir).None? ==> r.None?) &&
              r == (if ShiftsAt(s, station, dir, applyDelay) then DelayedTime(StopTime(stop, dir), s.delay) else StopTime(stop, dir))
  {
    if station == "" then None
    else if EndpointStation(s, dir) == station then
      if s.cancelled then ScheduledTime(s, dir)
      else if applyDelay && s.delay != 0 then DelayedTime(ScheduledTime(s, dir), s.delay)
      else ScheduledTime(s, dir)
    else
      match FirstStop(Normalize(s.route), station)
      case None => None
      case Some(stop) =>
        if applyDelay && s.delay != 0 && StopTime(stop, dir).Some? then DelayedTime(StopTime(stop, dir), s.delay)
        else StopTime(stop, dir)
  }

  /** The delay only ever shifts the unshifted time: the time with
      `applyDelay` is the time without it, moved by the delay exactly when a
      shift applies. */
  lemma {:induction false} DelayShiftsStationTime(s: Schedule, station: string, dir: Direction)
    ensures StationTime(s, station, dir, false) ==
              (if station == "" then None
               else if EndpointStation(s, dir) == station then ScheduledTime(s, dir)
               else if station in Names(Normalize(s.route)) then StopTime(FirstStop(Normalize(s.route), station).value, dir)
               else None)
    ensures StationTime(s, station, dir, true) ==
              if ShiftsAt(s, station, dir, true) then DelayedTime(StationTime(s, station, dir, false), s.delay)
              else StationTime(s, station, dir, false)
  {
  }

  /** Cancelling a run freezes the time at its own station but leaves the
      times at its served stops as they were. */
  lemma {:induction false} CancellationKeepsStopTimes(s: Schedule, station: string, dir: Direction, applyDelay: bool)
    requires EndpointStation(s, dir) != station
    ensures StationTime(s.(cancelled := true), station, dir, applyDelay) == StationTime(s.(cancelled := false), station, dir, applyDelay)
  {
  }

  /** A positive delay on a time of day moves the time at a station forward
      by that many minutes, wrapping at midnight. */
  lemma {:induction false} StationTimeMovesByDelay(s: Schedule, station: string, dir: Direction)
    requires s.delay > 0 && ShiftsAt(s, station, dir, true)
    requires StationTime(s, station, dir, false).Some? && WellFormed(StationTime(s, station, dir, false).value)
    ensures StationTime(s, station, dir, true).Some?
    ensures WellFormed(StationTime(s, station, dir, true).value)
    ensures Minutes(StationTime(s, station, dir, true).value)
            == (Minutes(StationTime(s, station, dir, false).value) + s.delay) % MinutesPerDay
  {
    var t := StationTime(s, station, dir, false).value;
    DelayShiftsStationTime(s, station, dir);
    assert StationTime(s, station, dir, true) == DelayedTime(Some(t), s.delay);
    DelayWrapsAtMidnight(t, s.delay);
  }

  /** For a run that is delayed and not cancelled, the time shown at its
      departure station is the delayed time its status reports. */
  lemma {:induction false} StatusAgreesWithDepartureTime(s: Schedule)
    requires s.departureStation != "" && TrainStatus(s).Delayed?
    ensures StationTime(s, s.departureStation, Departure, true) == TrainStatus(s).delayedTime
  {
  }

  /* ---------------------------------------------------------------------- */
  /* Filters                                                                 */

  /** A served stop named `station` that has a time for the direction. */
  predicate HasTimedStop(stops: seq<Stop>, station: string, dir: Direction)
  {
    exists i :: 0 <= i < |stops| && stops[i].name == station && StopTime(stops[i], dir).Some?
  }

  /** The per-record test of `filterSchedulesByType`. */
  predicate OnBoard(s: Schedule, station: string, dir: Direction)
  {
    Valid(s) && (EndpointStation(s, dir) == station || HasTimedStop(Normalize(s.route), station, dir))
  }

  /** `filterSchedulesByType`: the valid runs that start (end) at the
      station or stop there with a departure (arrival) time, in input order. */
  function FilterByType(schedules: seq<Schedule>, station: string, dir: Direction): (r: seq<Schedule>)
    ensures station == "" ==> r == []
    ensures IsSubsequence(r, schedules)
    ensures forall i :: 0 <= i < |r| ==> Valid(r[i])
    ensures forall s :: s in r <==>
              station != "" && s in schedules && Valid(s)
              && (EndpointStation(s, dir) == station || HasTimedStop(Normalize(s.route), station, dir))
    ensures forall s :: multiset(r)[s] == if station != "" && OnBoard(s, station, dir) then multiset(schedules)[s] else 0
  {
    if station == "" then []
    else
      var r := Filter(schedules, (s: Schedule) => OnBoard(s, station, dir));
      assert forall i :: 0 <= i < |r| ==> r[i] in r;
      FilterCountsAll(schedules, (s: Schedule) => OnBoard(s, station, dir));
      r
  }

  /** `filterSchedulesByDay`: the runs operating on `day`, in input order;
      no day gives no runs. */
  function FilterByDay(schedules: seq<Schedule>, day: string): (r: seq<Schedule>)
    ensures day == "" ==> r == []
    ensures IsSubsequence(r, schedules)
    ensures forall s :: s in r <==> day != "" && s in schedules && OperatesOn(s.days, day)
    ensures forall s :: multiset(r)[s] == if day != "" && OperatesOn(s.days, day) then multiset(schedules)[s] else 0
  {
    if day == "" then []
    else
      FilterCountsAll(schedules, (s: Schedule) => OperatesOn(s.days, day));
      Filter(schedules, (s: Schedule) => OperatesOn(s.days, day))
  }

  /** The filter of `getStationSchedules`: a run that starts, ends or stops
      at the station. */
  predicate Serves(s: Schedule, station: string)
  {
    s.departureStation == station || s.arrivalStation == station || station in Names(Normalize(s.route))
  }

  /** `getStationSchedules` over a given list: the valid runs, then those
      serving the station. */
  function StationSchedules(schedules: seq<Schedule>, station: string): (r: seq<Schedule>)
    ensures station == "" ==> r == []
    ensures IsSubsequence(r, schedules)
    ensures forall s :: s in r <==> station != "" && s in schedules && Valid(s) && Serves(s, station)
    ensures forall s :: multiset(r)[s] == if station != "" && Valid(s) && Serves(s, station) then multiset(schedules)[s] else 0
  {
    if station == "" then []
    else
      FilterTwice(schedules, Valid, (s: Schedule) => Serves(s, station));
      FilterCountsAll(schedules, Valid);
      FilterCountsAll(Filter(schedules, Valid), (s: Schedule) => Serves(s, station));
      Filter(Filter(schedules, Valid), (s: Schedule) => Serves(s, station))
  }

  /** Every run a departure or arrival board keeps also serves the station. */
  lemma {:induction false} BoardRunsServeStation(schedules: seq<Schedule>, station: string, dir: Direction)
    ensures forall s :: s in FilterByType(schedules, station, dir) ==> s in StationSchedules(schedules, station)
  {
    forall s | s in FilterByType(schedules, station, dir)
      ensures Serves(s, station)
    {
      if EndpointStation(s, dir) != station {
        var stops := Normalize(s.route);
        var i :| 0 <= i < |stops| && stops[i].name == station && StopTime(stops[i], dir).Some?;
        assert Names(stops)[i] == station;
      }
    }
  }

  /** On a route where the station appears once, a timed stop there is the
      stop `FirstStop` finds. */
  lemma {:induction false} FirstStopIsTimed(stops: seq<Stop>, station: string, dir: Direction)
    requires HasTimedStop(stops, station, dir)
    requires forall i, j :: 0 <= i < j < |stops| ==> stops[i].name != station || stops[j].name != station
    ensures FirstStop(stops, station).Some? && StopTime(FirstStop(stops, station).value, dir).Some?
  {
    var i :| 0 <= i < |stops| && stops[i].name == station && StopTime(stops[i], dir).Some?;
    assert Names(stops)[i] == station;
    var k := IndexOf(Names(stops), station);
    assert stops[k].name == station;
    assert k == i;
  }

  /** A run kept for the board has a time at the station whenever the
      station is its own endpoint or appears only once on its route. */
  lemma {:induction false} KeptRunHasTime(s: Schedule, station: string, dir: Direction)
    requires station != "" && OnBoard(s, station, dir)
    requires forall i, j :: 0 <= i < j < |Normalize(s.route)| ==>
               Normalize(s.route)[i].name != station || Normalize(s.route)[j].name != station
    ensures StationTime(s, station, dir, true).Some?
  {
    if EndpointStation(s, dir) != station {
      FirstStopIsTimed(Normalize(s.route), station, dir);
    }
  }

  /* ---------------------------------------------------------------------- */
  /* Destination / origin                                                    */

  /** `getStationEndpoint`: for a departure, the stop after the station on
      the route, or the run's arrival station when the station is where it
      starts, is absent from the route or is its last stop; for an arrival,
      the stop before it, or the run's departure station. */
  function StationEndpoint(s: Schedule, station: string, dir: Direction): (r: string)
    ensures station == "" ==> r == ""
    ensures station != "" && dir == Departure ==>
              r == s.arrivalStation ||
              exists i :: 0 <= i < |Normalize(s.route)| - 1 && Normalize(s.route)[i].name == station && Normalize(s.route)[i + 1].name == r
    ensures station != "" && dir == Arrival ==>
              r == s.departureStation ||
              exists i :: 0 < i < |Normalize(s.route)| && Normalize(s.route)[i].name == station && Normalize(s.route)[i - 1].name == r
    ensures station != "" && EndpointStation(s, dir) != station && station !in Names(Normalize(s.route)) ==>
              r == (if dir == Departure then s.arrivalStation else s.departureStation)
    ensures station != "" && s.departureStation == station && dir == Departure ==> r == s.arrivalStation
    ensures station != "" && s.arrivalStation == station && dir == Arrival ==> r == s.departureStation
    ensures var ns := Names(Normalize(s.route)); var k := IndexOf(ns, station);
            station != "" && dir == Departure && s.departureStation != station ==>
              r == (if 0 <= k < |ns| - 1 then ns[k + 1] else s.arrivalStation)
    ensures var ns := Names(Normalize(s.route)); var k := IndexOf(ns, station);
            station != "" && dir == Arrival && s.arrivalStation != station ==>
              r == (if k > 0 then ns[k - 1] else s.departureStation)
  {
    if station == "" then ""
    else
      var names := Names(Normalize(s.route));
      var k := IndexOf(names, station);
      if dir == Departure then
        if s.departureStation == station then s.arrivalStation
        else if k != -1 && k < |names| - 1 then names[k + 1]
        else s.arrivalStation
      else
        if s.arrivalStation == station then s.departureStation
        else if k > 0 then names[k - 1]
        else s.departureStation
  }
}
