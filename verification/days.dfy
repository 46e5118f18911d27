/** Days of circulation: the weekday cycle (`getNextDay`), the operating-day
    test behind `filterSchedulesByDay`, the parsing step the board applies
    to `joursCirculation`, and `formatOperatingDays`. */
module Weekdays {
  import opened Common

  /** The Sunday-first week used by `getCurrentDay` and `getNextDay`. */
  const Week: seq<string> := ["Sunday", "Monday", "Tuesday", "Wednesday", "Thursday", "Friday", "Saturday"]

  /** `getNextDay`: the entry after `day` in the Sunday-first week, wrapping
      from Saturday to Sunday, or `None` for a string that is not an English
      weekday name. The source looks the name up with `indexOf`;
      `NextDayOfWeek` states that reading. */
  function NextDay(day: string): (r: Option<string>)
    ensures r.Some? <==> day in Week
    ensures r.Some? ==> r.value in Week && r.value != day
  {
    if day == "Sunday" then Some("Monday")
    else if day == "Monday" then Some("Tuesday")
    else if day == "Tuesday" then Some("Wednesday")
    else if day == "Wednesday" then Some("Thursday")
    else if day == "Thursday" then Some("Friday")
    else if day == "Friday" then Some("Saturday")
    else if day == "Saturday" then Some("Sunday")
    else None
  }

  /** The successor is the position-plus-one entry of the week table, taken
      modulo seven (`days[(index + 1) % days.length]`). */
  lemma NextDayOfWeek(i: int)
    requires 0 <= i < |Week|
    ensures NextDay(Week[i]) == Some(Week[(i + 1) % |Week|])
  {
  }

  /* ---------------------------------------------------------------------- */
  /* joursCirculation                                                        */

  /** The stored `joursCirculation` field: absent, an array of day names, or
      a JSON text together with what `JSON.parse` makes of it (`None` when
      parsing throws). */
  datatype RawDays =
    | NoDays
    | DayList(days: seq<string>)
    | DayText(text: string, parsed: Option<seq<string>>)

  /** `String.prototype.includes`: `word` occurs in `text` as a substring. */
  predicate Contains(text: string, word: string)
  {
    exists i :: 0 <= i <= |text| - |word| && OccursAt(text, word, i)
  }

  predicate OccursAt(text: string, word: string, i: int)
    requires 0 <= i <= |text| - |word|
  {
    text[i..i + |word|] == word
  }

  /** The per-record test of `filterSchedulesByDay`: a run with no days of
      circulation runs every day; otherwise `includes(day)` decides, which
      for an unparsed text is a substring test. */
  predicate OperatesOn(days: RawDays, day: string)
  {
    match days
    case NoDays => true
    case DayList(ds) => |ds| == 0 || day in ds
    case DayText(t, _) => t == "" || Contains(t, day)
  }

  /** The board's clean-up of `joursCirculation` before filtering: a
      non-empty text is parsed (an unparseable one gives no days), anything
      else falsy gives no days. */
  function ParsedDays(days: RawDays): (r: seq<string>)
    ensures days.DayList? ==> r == days.days
    ensures days.NoDays? ==> r == []
    ensures days.DayText? && (days.text == "" || days.parsed.None?) ==> r == []
    ensures days.DayText? && days.text != "" && days.parsed.Some? ==> r == days.parsed.value
  {
    match days
    case NoDays => []
    case DayList(ds) => ds
    case DayText(t, p) => if t != "" && p.Some? then p.value else []
  }

  /** After the board's parsing step, the day test is plain list membership,
      and a text that failed to parse makes the run operate every day. */
  lemma {:induction false} ParsedDaysOperation(days: RawDays, day: string)
    ensures OperatesOn(DayList(ParsedDays(days)), day) <==> |ParsedDays(days)| == 0 || day in ParsedDays(days)
    ensures days.DayText? && days.parsed.None? ==> OperatesOn(DayList(ParsedDays(days)), day)
    ensures days.DayList? ==> (OperatesOn(DayList(ParsedDays(days)), day) <==> OperatesOn(days, day))
  {
  }

  /* ---------------------------------------------------------------------- */
  /* formatOperatingDays                                                     */

  const EveryDay := "Tous les jours"

  /** The French abbreviation of an English day name, or the name itself
      for any other text (the day table's inherited keys are not modelled). */
  function Abbreviation(day: string): (r: string)
    ensures day in Week ==> |r| == 3
    ensures day !in Week ==> r == day
  {
    if day == "Monday" then "Lun"
    else if day == "Tuesday" then "Mar"
    else if day == "Wednesday" then "Mer"
    else if day == "Thursday" then "Jeu"
    else if day == "Friday" then "Ven"
    else if day == "Saturday" then "Sam"
    else if day == "Sunday" then "Dim"
    else day
  }

  /** `Array.prototype.join`. */
  function Join(parts: seq<string>, sep: string): string
    decreases |parts|
  {
    if |parts| == 0 then ""
    else if |parts| == 1 then parts[0]
    else parts[0] + sep + Join(parts[1..], sep)
  }

  function Abbreviations(days: seq<string>): (r: seq<string>)
    ensures |r| == |days|
    ensures forall i :: 0 <= i < |days| ==> r[i] == Abbreviation(days[i])
  {
    seq(|days|, i requires 0 <= i < |days| => Abbreviation(days[i]))
  }

  /** `formatOperatingDays`: "Tous les jours" when there are no days; the
      abbreviations joined by ", " for an array; a text has no `map`, and
      the thrown error is caught into "Tous les jours" as well. */
  function FormatOperatingDays(days: RawDays): (r: string)
    ensures !days.DayList? || |days.days| == 0 ==> r == EveryDay
    ensures days.DayList? && |days.days| == 1 ==> r == Abbreviation(days.days[0])
  {
    match days
    case DayList(ds) => if |ds| == 0 then EveryDay else Join(Abbreviations(ds), ", ")
    case _ => EveryDay
  }

  /** A list of two or more days reads as the first day's abbreviation, a
      ", " and the text of the remaining days, whatever the names are; with
      the empty and one-day cases this fixes the text of every list. */
  lemma {:induction false} FormatCons(ds: seq<string>)
    requires |ds| >= 2
    ensures FormatOperatingDays(DayList(ds)) ==
              Abbreviation(ds[0]) + ", " + FormatOperatingDays(DayList(ds[1..]))
  {
    assert Abbreviations(ds)[1..] == Abbreviations(ds[1..]);
  }

  /** A name outside the week is printed as it is, next to the
      abbreviations. */
  lemma FormatMixedExample()
    ensures FormatOperatingDays(DayList(["Monday", "Ferie"])) == "Lun, Ferie"
  {
    FormatCons(["Monday", "Ferie"]);
    assert ["Monday", "Ferie"][1..] == ["Ferie"];
  }

  /** For a list of English day names the formatted text is made of
      five-character blocks "Xxx, ", the i-th block starting with the i-th
      day's abbreviation, with the last separator dropped. */
  lemma {:induction false} FormatBlocks(ds: seq<string>)
    requires |ds| > 0
    requires forall i :: 0 <= i < |ds| ==> ds[i] in Week
    ensures |FormatOperatingDays(DayList(ds))| == 5 * |ds| - 2
    ensures forall i :: 0 <= i < |ds| ==>
              FormatOperatingDays(DayList(ds))[5 * i .. 5 * i + 3] == Abbreviation(ds[i])
    ensures forall i :: 0 <= i < |ds| - 1 ==>
              FormatOperatingDays(DayList(ds))[5 * i + 3 .. 5 * i + 5] == ", "
  {
    JoinBlocks(Abbreviations(ds));
  }

  lemma {:induction false} JoinBlocks(parts: seq<string>)
    requires |parts| > 0
    requires forall i :: 0 <= i < |parts| ==> |parts[i]| == 3
    ensures |Join(parts, ", ")| == 5 * |parts| - 2
    ensures forall i :: 0 <= i < |parts| ==> Join(parts, ", ")[5 * i .. 5 * i + 3] == parts[i]
    ensures forall i :: 0 <= i < |parts| - 1 ==> Join(parts, ", ")[5 * i + 3 .. 5 * i + 5] == ", "
    decreases |parts|
  {
    if |parts| > 1 {
      var rest := Join(parts[1..], ", ");
      JoinBlocks(parts[1..]);
      var whole := Join(parts, ", ");
      assert whole == parts[0] + ", " + rest;
      forall i | 0 <= i < |parts|
        ensures whole[5 * i .. 5 * i + 3] == parts[i]
      {
        if i > 0 {
          assert whole[5 * i .. 5 * i + 3] == rest[5 * (i - 1) .. 5 * (i - 1) + 3];
        }
      }
      forall i | 0 <= i < |parts| - 1
        ensures whole[5 * i + 3 .. 5 * i + 5] == ", "
      {
        if i > 0 {
          assert whole[5 * i + 3 .. 5 * i + 5] == rest[5 * (i - 1) + 3 .. 5 * (i - 1) + 5];
        }
      }
    }
  }

  /** The abbreviation is one-to-one on day names. */
  lemma AbbreviationInjective(a: string, b: string)
    requires a in Week && b in Week && Abbreviation(a) == Abbreviation(b)
    ensures a == b
  {
  }

  /** Formatting a list of English day names loses nothing: two lists with
      the same text are the same list. */
  lemma {:induction false} FormatDeterminesDays(ds: seq<string>, es: seq<string>)
    requires |ds| > 0 && |es| > 0
    requires forall i :: 0 <= i < |ds| ==> ds[i] in Week
    requires forall i :: 0 <= i < |es| ==> es[i] in Week
    requires FormatOperatingDays(DayList(ds)) == FormatOperatingDays(DayList(es))
    ensures ds == es
  {
    FormatBlocks(ds);
    FormatBlocks(es);
    var t := FormatOperatingDays(DayList(ds));
    assert |ds| == |es|;
    forall i | 0 <= i < |ds|
      ensures ds[i] == es[i]
    {
      assert Abbreviation(ds[i]) == t[5 * i .. 5 * i + 3] == Abbreviation(es[i]);
      AbbreviationInjective(ds[i], es[i]);
    }
  }
}
