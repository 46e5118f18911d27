/** The maintenance operations on the stored list of runs: merging an edit
    into one run (`updateSchedule`), clearing every delay and cancellation
    (`resetDelaysAndCancellations`), and clearing delay, cancellation and
    cause only for the runs that arrived more than a quarter of an hour
    before a reference time (`resetExpiredDelaysAndCancellations`). The
    stored list is passed in and the list that would be stored is returned. */
module Maintenance {
  import opened Common
  import opened ClockTime
  import opened Routes
  import opened Weekdays
  import opened Schedules

  /* ---------------------------------------------------------------------- */
  /* updateSchedule                                                          */

  /** The fields an edit sets; `None` leaves the stored value. The `id` of
      the record is never changed by an edit. */
  datatype Patch = Patch(
    trainNumber: Option<string>,
    trainType: Option<string>,
    departureStation: Option<string>,
    arrivalStation: Option<string>,
    departureTime: Option<Option<Clock>>,
    arrivalTime: Option<Option<Clock>>,
    route: Option<RawRoute>,
    days: Option<RawDays>,
    delay: Option<int>,
    cancelled: Option<bool>,
    cause: Option<Option<string>>,
    causeId: Option<Option<int>>,
    track: Option<string>)

  /** The edit that sets nothing. */
  const NoChange := Patch(None, None, None, None, None, None, None, None, None, None, None, None, None)

  function Pick<T>(o: Option<T>, stored: T): T
  {
    if o.Some? then o.value else stored
  }

  /** `{ ...stored, ...edit, id }`: every field the edit sets wins, every
      other field and the identifier stay. */
  function Merge(s: Schedule, p: Patch): (r: Schedule)
    ensures r.id == s.id
    ensures r.trainNumber == (if p.trainNumber.Some? then p.trainNumber.value else s.trainNumber)
    ensures r.trainType == (if p.trainType.Some? then p.trainType.value else s.trainType)
    ensures r.departureStation == (if p.departureStation.Some? then p.departureStation.value else s.departureStation)
    ensures r.arrivalStation == (if p.arrivalStation.Some? then p.arrivalStation.value else s.arrivalStation)
    ensures r.departureTime == (if p.departureTime.Some? then p.departureTime.value else s.departureTime)
    ensures r.arrivalTime == (if p.arrivalTime.Some? then p.arrivalTime.value else s.arrivalTime)
    ensures r.route == (if p.route.Some? then p.route.value else s.route)
    ensures r.days == (if p.days.Some? then p.days.value else s.days)
    ensures r.delay == (if p.delay.Some? then p.delay.value else s.delay)
    ensures r.cancelled == (if p.cancelled.Some? then p.cancelled.value else s.cancelled)
    ensures r.cause == (if p.cause.Some? then p.cause.value else s.cause)
    ensures r.causeId == (if p.causeId.Some? then p.causeId.value else s.causeId)
    ensures r.track == (if p.track.Some? then p.track.value else s.track)
    ensures p == NoChange ==> r == s
  {
    Schedule(s.id,
      Pick(p.trainNumber, s.trainNumber),
      Pick(p.trainType, s.trainType),
      Pick(p.departureStation, s.departureStation),
      Pick(p.arrivalStation, s.arrivalStation),
      Pick(p.departureTime, s.departureTime),
      Pick(p.arrivalTime, s.arrivalTime),
      Pick(p.route, s.route),
      Pick(p.days, s.days),
      Pick(p.delay, s.delay),
      Pick(p.cancelled, s.cancelled),
      Pick(p.cause, s.cause),
      Pick(p.causeId, s.causeId),
      Pick(p.track, s.track))
  }

  /** Two edits in a row: the later one's fields win. */
  function Then(p: Patch, q: Patch): Patch
  {
    Patch(
      if q.trainNumber.Some? then q.trainNumber else p.trainNumber,
      if q.trainType.Some? then q.trainType else p.trainType,
      if q.departureStation.Some? then q.departureStation else p.departureStation,
      if q.arrivalStation.Some? then q.arrivalStation else p.arrivalStation,
      if q.departureTime.Some? then q.departureTime else p.departureTime,
      if q.arrivalTime.Some? then q.arrivalTime else p.arrivalTime,
      if q.route.Some? then q.route else p.route,
      if q.days.Some? then q.days else p.days,
      if q.delay.Some? then q.delay else p.delay,
      if q.cancelled.Some? then q.cancelled else p.cancelled,
      if q.cause.Some? then q.cause else p.cause,
      if q.causeId.Some? then q.causeId else p.causeId,
      if q.track.Some? then q.track else p.track)
  }

  /** The identifiers of the runs, in list order. */
  function Ids(list: seq<Schedule>): (r: seq<int>)
    ensures |r| == |list|
    ensures forall i :: 0 <= i < |list| ==> r[i] == list[i].id
  {
    seq(|list|, i requires 0 <= i < |list| => list[i].id)
  }

  /** `updateSchedule(id, edit)`: the first run with identifier `id` gets the
      edit merged in; every other run stays; an unknown identifier leaves
      the list as it was. */
  function UpdateSchedule(list: seq<Schedule>, id: int, p: Patch): (r: seq<Schedule>)
    ensures |r| == |list|
    ensures Ids(r) == Ids(list)
    ensures id !in Ids(list) ==> r == list
    ensures forall i :: 0 <= i < |list| && list[i].id != id ==> r[i] == list[i]
    ensures forall i :: 0 <= i < |list| && list[i].id == id ==>
              if id in Ids(list[..i]) then r[i] == list[i] else r[i] == Merge(list[i], p)
  {
    var k := IndexOf(Ids(list), id);
    if k == -1 then list
    else
      var r := list[k := Merge(list[k], p)];
      assert forall i :: 0 <= i < k ==> Ids(list[..k])[i] == list[i].id;
      assert Ids(list[..k]) == Ids(list)[..k];
      forall i | k < i < |list|
        ensures id in Ids(list[..i])
      {
        assert Ids(list[..i])[k] == id;
      }
      assert forall i :: 0 <= i < |list| ==> Ids(r)[i] == Ids(list)[i];
      r
  }

  /** The edit that sets nothing changes nothing. */
  lemma {:induction false} NoChangeIsIdentity(list: seq<Schedule>, id: int)
    ensures UpdateSchedule(list, id, NoChange) == list
  {
    var r := UpdateSchedule(list, id, NoChange);
    assert forall i :: 0 <= i < |list| ==> r[i] == list[i];
  }

  /** Merging is idempotent, and two merges are one merge of the combined
      edit. */
  lemma MergeThen(s: Schedule, p: Patch, q: Patch)
    ensures Merge(Merge(s, p), q) == Merge(s, Then(p, q))
    ensures Merge(Merge(s, p), p) == Merge(s, p)
  {
  }

  /** Applying two edits to the same run in turn is applying the combined
      edit once; applying the same edit twice is applying it once. */
  lemma {:induction false} UpdatesCompose(list: seq<Schedule>, id: int, p: Patch, q: Patch)
    ensures UpdateSchedule(UpdateSchedule(list, id, p), id, q) == UpdateSchedule(list, id, Then(p, q))
    ensures UpdateSchedule(UpdateSchedule(list, id, p), id, p) == UpdateSchedule(list, id, p)
  {
    var once := UpdateSchedule(list, id, p);
    var k := IndexOf(Ids(list), id);
    assert Ids(once) == Ids(list);
    if k != -1 {
      MergeThen(list[k], p, q);
      assert UpdateSchedule(once, id, q) == once[k := Merge(once[k], q)];
      assert UpdateSchedule(once, id, p) == once[k := Merge(once[k], p)];
    }
  }

  /* ---------------------------------------------------------------------- */
  /* resetDelaysAndCancellations                                             */

  /** `resetDelaysAndCancellations`: every run loses its delay and its
      cancellation; causes are kept. */
  function ResetAll(list: seq<Schedule>): (r: seq<Schedule>)
    ensures |r| == |list|
    ensures forall i :: 0 <= i < |list| ==> TrainStatus(r[i]) == OnTime
    ensures forall i :: 0 <= i < |list| ==>
              r[i].(delay := list[i].delay, cancelled := list[i].cancelled) == list[i]
  {
    seq(|list|, i requires 0 <= i < |list| => list[i].(delay := 0, cancelled := false))
  }

  /** After a reset, the board shows every run at its scheduled time: the
      time with the delay applied is the unshifted time. */
  lemma {:induction false} ResetShowsScheduledTimes(list: seq<Schedule>, i: int, station: string, dir: Direction)
    requires 0 <= i < |list|
    ensures StationTime(ResetAll(list)[i], station, dir, true) == StationTime(list[i], station, dir, false)
  {
    var s := list[i];
    var t := ResetAll(list)[i];
    DelayShiftsStationTime(s, station, dir);
    DelayShiftsStationTime(t, station, dir);
  }

  /** Resetting twice is resetting once. */
  lemma {:induction false} ResetAllIdempotent(list: seq<Schedule>)
    ensures ResetAll(ResetAll(list)) == ResetAll(list)
  {
  }

  /* ---------------------------------------------------------------------- */
  /* resetExpiredDelaysAndCancellations                                      */

  /** Minutes after its arrival during which a run keeps its delay. */
  const GraceMinutes := 15

  /** What the reset reads as the arrival time of a run: its own arrival
      time, else the arrival time of the last stored served-station entry
      (nothing for a bare name or a text), or a crash when that entry is
      `null`. */
  datatype Arrival = Found(time: Clock) | Unknown | Crash

  function ArrivalFor(s: Schedule): (a: Arrival)
    ensures s.arrivalTime.Some? ==> a == Found(s.arrivalTime.value)
    ensures a.Crash? <==> s.arrivalTime.None? && s.route.RouteList? && |s.route.entries| > 0
                          && s.route.entries[|s.route.entries| - 1].NullEntry?
    ensures s.arrivalTime.None? && !s.route.RouteList? ==> a == Unknown
    ensures s.arrivalTime.None? && s.route.RouteList? && |s.route.entries| > 0
            && s.route.entries[|s.route.entries| - 1].Entry? && s.route.entries[|s.route.entries| - 1].arrival.Some? ==>
              a == Found(s.route.entries[|s.route.entries| - 1].arrival.value)
    ensures a.Found? && s.arrivalTime.None? ==>
              s.route.RouteList? && |s.route.entries| > 0 && s.route.entries[|s.route.entries| - 1].Entry? &&
              s.route.entries[|s.route.entries| - 1].arrival == Some(a.time)
  {
    if s.arrivalTime.Some? then Found(s.arrivalTime.value)
    else
      match s.route
      case RouteList(es) =>
        if |es| == 0 then Unknown
        else (
          match es[|es| - 1]
          case NullEntry => Crash
          case Bare(_) => Unknown
          case Entry(_, a, _) => if a.Some? then Found(a.value) else Unknown)
      case _ => Unknown
  }

  /** The reset of one record: no delay, not cancelled, no cause. */
  function ResetRecord(s: Schedule): Schedule
  {
    s.(delay := 0, cancelled := false, cause := None, causeId := None)
  }

  /** A run whose arrival, shifted by its delay and by the grace period, is
      strictly before the reference time. */
  predicate Expired(s: Schedule, ref: Clock)
  {
    ArrivalFor(s).Found? && Minutes(ArrivalFor(s).time) + s.delay + GraceMinutes < Minutes(ref)
  }

  function Sweep(s: Schedule, ref: Clock): Schedule
  {
    if Expired(s, ref) then ResetRecord(s) else s
  }

  /** `resetExpiredDelaysAndCancellations(referenceTime)`: `None` when the
      call throws (a run without arrival time whose last stored entry is
      `null`), in which case nothing is stored; a missing reference time
      leaves the list alone. */
  function ResetExpired(list: seq<Schedule>, ref: Option<Clock>): (r: Option<seq<Schedule>>)
    ensures ref.None? ==> r == Some(list)
    ensures r.None? <==> ref.Some? && exists i :: 0 <= i < |list| && ArrivalFor(list[i]).Crash?
    ensures r.Some? ==> |r.value| == |list|
    ensures r.Some? ==> forall i :: 0 <= i < |list| ==> ResetRecord(r.value[i]) == ResetRecord(list[i])
    ensures r.Some? && ref.Some? ==> forall i :: 0 <= i < |list| ==>
              (Expired(list[i], ref.value) ==> TrainStatus(r.value[i]).OnTime? && r.value[i].cause.None? && r.value[i].causeId.None?)
    ensures r.Some? && ref.Some? ==> forall i :: 0 <= i < |list| ==>
              (!Expired(list[i], ref.value) ==> r.value[i] == list[i])
  {
    if ref.None? then Some(list)
    else if exists i :: 0 <= i < |list| && ArrivalFor(list[i]).Crash? then None
    else Some(seq(|list|, i requires 0 <= i < |list| => Sweep(list[i], ref.value)))
  }

  /** A run with no arrival time at all is never reset. */
  lemma {:induction false} UnknownArrivalIsKept(list: seq<Schedule>, ref: Clock, i: int)
    requires 0 <= i < |list| && ArrivalFor(list[i]).Unknown?
    requires ResetExpired(list, Some(ref)).Some?
    ensures ResetExpired(list, Some(ref)).value[i] == list[i]
  {
  }

  /** Sweeping twice with the same reference time is sweeping once. */
  lemma {:induction false} ResetExpiredIdempotent(list: seq<Schedule>, ref: Option<Clock>)
    requires ResetExpired(list, ref).Some?
    ensures ResetExpired(ResetExpired(list, ref).value, ref) == ResetExpired(list, ref)
  {
    LaterSweepSubsumes(list, ref, ref);
  }

  /** A later sweep subsumes an earlier one: sweeping at `ref1` and then at a
      later (or equal) `ref2` is sweeping at `ref2` alone. */
  lemma {:induction false} LaterSweepSubsumes(list: seq<Schedule>, ref1: Option<Clock>, ref2: Option<Clock>)
    requires ref1.Some? ==> ref2.Some? && Minutes(ref1.value) <= Minutes(ref2.value)
    requires ResetExpired(list, ref1).Some?
    ensures ResetExpired(ResetExpired(list, ref1).value, ref2) == ResetExpired(list, ref2)
  {
    var once := ResetExpired(list, ref1).value;
    forall i | 0 <= i < |list|
      ensures ArrivalFor(once[i]) == ArrivalFor(list[i])
    {
      assert ResetRecord(once[i]) == ResetRecord(list[i]);
      assert once[i].arrivalTime == list[i].arrivalTime && once[i].route == list[i].route;
    }
    if ref2.Some? {
      if exists i :: 0 <= i < |list| && ArrivalFor(list[i]).Crash? {
        var i :| 0 <= i < |list| && ArrivalFor(list[i]).Crash?;
        assert ArrivalFor(once[i]).Crash?;
      } else {
        assert !exists i :: 0 <= i < |once| && ArrivalFor(once[i]).Crash?;
        var twice := ResetExpired(once, ref2).value;
        var direct := ResetExpired(list, ref2).value;
        forall i | 0 <= i < |list|
          ensures twice[i] == direct[i]
        {
          assert twice[i] == Sweep(once[i], ref2.value);
          assert direct[i] == Sweep(list[i], ref2.value);
          if ref1.Some? && Expired(list[i], ref1.value) {
            assert once[i] == ResetRecord(list[i]);
            assert Expired(list[i], ref2.value);
          } else if ref1.Some? {
            assert once[i] == list[i];
          }
        }
        assert twice == direct;
      }
    }
  }

  /** A run arriving at 08:00 with a ten-minute delay is reset by a sweep at
      08:26 (480 + 10 + 15 < 506) and left alone by one at 08:20. */
  lemma ResetExample()
    ensures var s := Schedule(1, "4501", "TER", "Dijon", "Beaune", Some(Clock(7, 30)), Some(Clock(8, 0)),
                              NoRoute, NoDays, 10, false, Some("signalisation"), Some(3), "");
            ResetExpired([s], Some(Clock(8, 26))) == Some([ResetRecord(s)]) &&
            ResetExpired([s], Some(Clock(8, 20))) == Some([s])
  {
    var s := Schedule(1, "4501", "TER", "Dijon", "Beaune", Some(Clock(7, 30)), Some(Clock(8, 0)),
                      NoRoute, NoDays, 10, false, Some("signalisation"), Some(3), "");
    assert ArrivalFor(s) == Found(Clock(8, 0));
    assert Expired(s, Clock(8, 26)) && !Expired(s, Clock(8, 20));
    var late := ResetExpired([s], Some(Clock(8, 26))).value;
    assert |late| == 1 && late[0] == ResetRecord(s);
    assert late == [ResetRecord(s)];
    var early := ResetExpired([s], Some(Clock(8, 20))).value;
    assert |early| == 1 && early[0] == s;
    assert early == [s];
  }
}
