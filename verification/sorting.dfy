/** `sortSchedulesByTime`: a stable sort of runs on the text of their time
    at the station, modelled as insertion sort on a string key. */
module Sorting {
  import opened Common
  import opened ClockTime
  import opened Schedules

  /** Every element's key is at most every later element's key. */
  predicate SortedBy<T>(s: seq<T>, key: T -> string)
  {
    forall i, j :: 0 <= i < j < |s| ==> LexLe(key(s[i]), key(s[j]))
  }

  /** Puts `x` in front of the first element whose key is not smaller, so
      that it follows every element with a smaller key and precedes every
      element with an equal one. */
  function Insert<T>(x: T, s: seq<T>, key: T -> string): (r: seq<T>)
    requires SortedBy(s, key)
    ensures multiset(r) == multiset(s) + multiset{x}
    ensures |r| == |s| + 1
    ensures SortedBy(r, key)
    decreases |s|
  {
    if s == [] || LexLe(key(x), key(s[0])) then
      InFrontSorted(x, s, key);
      [x] + s
    else
      var t := Insert(x, s[1..], key);
      LexLeTotal(key(x), key(s[0]));
      assert s == [s[0]] + s[1..];
      BehindSorted(s[0], x, s[1..], t, key);
      [s[0]] + t
  }

  lemma {:induction false} InFrontSorted<T>(x: T, s: seq<T>, key: T -> string)
    requires SortedBy(s, key)
    requires s == [] || LexLe(key(x), key(s[0]))
    ensures SortedBy([x] + s, key)
  {
    var r := [x] + s;
    forall i, j | 0 <= i < j < |r|
      ensures LexLe(key(r[i]), key(r[j]))
    {
      if i == 0 && j > 1 {
        LexLeTransitive(key(x), key(s[0]), key(s[j - 1]));
      }
    }
  }

  lemma {:induction false} BehindSorted<T>(y: T, x: T, s: seq<T>, t: seq<T>, key: T -> string)
    requires SortedBy([y] + s, key) && SortedBy(t, key)
    requires LexLe(key(y), key(x))
    requires multiset(t) == multiset(s) + multiset{x}
    ensures SortedBy([y] + t, key)
  {
    var r := [y] + t;
    forall i, j | 0 <= i < j < |r|
      ensures LexLe(key(r[i]), key(r[j]))
    {
      if i > 0 {
        assert r[i] == t[i - 1] && r[j] == t[j - 1];
      } else {
        var e := t[j - 1];
        assert r[0] == y && r[j] == e && ([y] + s)[0] == y;
        assert e in multiset(t);
        if e != x {
          assert e in multiset(s);
          var k :| 0 <= k < |s| && s[k] == e;
          assert ([y] + s)[k + 1] == e;
        }
      }
    }
  }

  /** Stable insertion sort on a string key (`Array.prototype.sort`, which
      is stable, with a comparator on the keys). */
  function SortBy<T>(s: seq<T>, key: T -> string): (r: seq<T>)
    ensures multiset(r) == multiset(s)
    ensures |r| == |s|
    ensures SortedBy(r, key)
    decreases |s|
  {
    if s == [] then []
    else
      assert s == [s[0]] + s[1..];
      Insert(s[0], SortBy(s[1..], key), key)
  }

  /** The elements whose key is `k`, in order. */
  function WithKey<T>(s: seq<T>, key: T -> string, k: string): seq<T>
    decreases |s|
  {
    if s == [] then [] else (if key(s[0]) == k then [s[0]] else []) + WithKey(s[1..], key, k)
  }

  lemma {:induction false} InsertStable<T>(x: T, s: seq<T>, key: T -> string, k: string)
    requires SortedBy(s, key)
    ensures WithKey(Insert(x, s, key), key, k) == WithKey([x] + s, key, k)
    decreases |s|
  {
    assert ([x] + s)[1..] == s;
    if s != [] && !LexLe(key(x), key(s[0])) {
      var t := Insert(x, s[1..], key);
      assert Insert(x, s, key) == [s[0]] + t;
      assert ([s[0]] + t)[1..] == t;
      InsertStable(x, s[1..], key, k);
      assert ([x] + s[1..])[1..] == s[1..];
      if key(x) == k && key(s[0]) == k {
        LexLeReflexive(k);
        assert false;
      }
    }
  }

  /** Sorting is stable: the elements sharing any one key appear in the
      output in the order they had in the input. */
  lemma {:induction false} SortStable<T>(s: seq<T>, key: T -> string, k: string)
    ensures WithKey(SortBy(s, key), key, k) == WithKey(s, key, k)
    decreases |s|
  {
    if s != [] {
      var rest := SortBy(s[1..], key);
      SortStable(s[1..], key, k);
      InsertStable(s[0], rest, key, k);
      assert ([s[0]] + rest)[1..] == rest;
    }
  }

  /* ---------------------------------------------------------------------- */
  /* Runs                                                                    */

  /** The comparator key: the text of the (delay-shifted) time at the
      station, or "" when the run has none there. */
  function SortKey(s: Schedule, station: string, dir: Direction): string
  {
    TimeText(StationTime(s, station, dir, true))
  }

  /** `sortSchedulesByTime`: a sorted copy of the runs, ordered by the text
      of their time at the station; no station gives no runs. */
  function SortSchedules(schedules: seq<Schedule>, station: string, dir: Direction): (r: seq<Schedule>)
    ensures station == "" ==> r == []
    ensures station != "" ==> multiset(r) == multiset(schedules)
    ensures forall i, j :: 0 <= i < j < |r| ==> LexLe(SortKey(r[i], station, dir), SortKey(r[j], station, dir))
  {
    if station == "" then [] else SortBy(schedules, (s: Schedule) => SortKey(s, station, dir))
  }

  /** Runs that share a key keep their input order. */
  lemma {:induction false} SortSchedulesStable(schedules: seq<Schedule>, station: string, dir: Direction, k: string)
    requires station != ""
    ensures WithKey(SortSchedules(schedules, station, dir), (s: Schedule) => SortKey(s, station, dir), k)
            == WithKey(schedules, (s: Schedule) => SortKey(s, station, dir), k)
  {
    SortStable(schedules, (s: Schedule) => SortKey(s, station, dir), k);
  }

  /** Runs without a time at the station come first. */
  lemma {:induction false} TimelessRunsFirst(schedules: seq<Schedule>, station: string, dir: Direction)
    ensures var r := SortSchedules(schedules, station, dir);
            forall i, j :: 0 <= i < j < |r| && StationTime(r[j], station, dir, true).None? ==>
              StationTime(r[i], station, dir, true).None?
  {
    var r := SortSchedules(schedules, station, dir);
    forall i, j | 0 <= i < j < |r| && StationTime(r[j], station, dir, true).None?
      ensures StationTime(r[i], station, dir, true).None?
    {
      assert LexLe(SortKey(r[i], station, dir), "");
      if StationTime(r[i], station, dir, true).Some? {
        TextOrderNonEmpty(StationTime(r[i], station, dir, true).value);
      }
    }
  }

  lemma TextOrderNonEmpty(c: Clock)
    ensures Text(c) != [] && !LexLe(Text(c), "")
  {
  }

  /** When every run has a time of day at the station, the sorted board is
      in chronological order of those times. */
  lemma {:induction false} SortIsChronological(schedules: seq<Schedule>, station: string, dir: Direction)
    requires forall s :: s in schedules ==>
               StationTime(s, station, dir, true).Some? && WellFormed(StationTime(s, station, dir, true).value)
    ensures var r := SortSchedules(schedules, station, dir);
            forall i, j :: 0 <= i < j < |r| ==>
              StationTime(r[i], station, dir, true).Some? && StationTime(r[j], station, dir, true).Some? &&
              Minutes(StationTime(r[i], station, dir, true).value) <= Minutes(StationTime(r[j], station, dir, true).value)
  {
    var r := SortSchedules(schedules, station, dir);
    if station != "" {
      SameMembers(r, schedules);
    }
    forall i, j | 0 <= i < j < |r|
      ensures StationTime(r[i], station, dir, true).Some? && StationTime(r[j], station, dir, true).Some? &&
              Minutes(StationTime(r[i], station, dir, true).value) <= Minutes(StationTime(r[j], station, dir, true).value)
    {
      assert r[i] in r && r[j] in r;
      TextOrderIsTimeOrder(StationTime(r[i], station, dir, true).value, StationTime(r[j], station, dir, true).value);
    }
  }
}
