/**
 * Whether a row's date is relevant to the time words of a question
 * (`isDateRelevant`). Instants are milliseconds on the local clock (the
 * JavaScript time value plus the time zone's offset), so the day `DayOf`
 * counts is the local day `toDateString()` compares.
 */
module DateRelevance {
  import opened Wrappers
  import opened Text

  /** What the JavaScript `Date` object supplies: the instant of evaluation and
      the parse of a date cell, `None` for a cell that gives an Invalid Date. */
  datatype Calendar = Calendar(now: int, parse: string -> Option<int>)

  const MsPerDay: int := 86_400_000

  /** The calendar day an instant falls on: days are counted by flooring. */
  function DayOf(t: int): int {
    t / MsPerDay
  }

  /** The first instant of the day `t` falls on. */
  function DayStart(t: int): int {
    DayOf(t) * MsPerDay
  }

  /** `isDateRelevant(dateStr, query)`. An unparsable date compares unequal to
      every day string and false against every instant, so only the final
      fall-through accepts it. */
  function IsDateRelevant(dateStr: string, query: string, cal: Calendar): bool {
    if dateStr == [] then false
    else
      var queryLower := Lower(query);
      var target := cal.parse(dateStr);
      if Contains(queryLower, "today") then
        target.Some? && DayOf(target.value) == DayOf(cal.now)
      else if Contains(queryLower, "tomorrow") then
        target.Some? && DayOf(target.value) == DayOf(cal.now + MsPerDay)
      else if Contains(queryLower, "this week") || Contains(queryLower, "week") then
        target.Some? && cal.now <= target.value <= cal.now + 7 * MsPerDay
      else if Contains(queryLower, "next") then
        target.Some? && target.value >= cal.now
      else
        true
  }

  // ------------------------------------------------- the decision as windows

  /** The time word that decides, in the order the words are checked. */
  datatype TimeWord = Today | Tomorrow | Week | Next | NoTimeWord

  function TimeWordOf(query: string): TimeWord {
    var q := Lower(query);
    if Contains(q, "today") then Today
    else if Contains(q, "tomorrow") then Tomorrow
    else if Contains(q, "week") then Week
    else if Contains(q, "next") then Next
    else NoTimeWord
  }

  /** The instants a date may fall on to be relevant: an inclusive interval,
      an unbounded one, or any date at all (even one that does not parse). */
  datatype Window = Between(lo: int, hi: int) | From(lo: int) | Anything

  function WindowOf(w: TimeWord, now: int): Window {
    match w
    case Today => Between(DayStart(now), DayStart(now) + MsPerDay - 1)
    case Tomorrow => Between(DayStart(now) + MsPerDay, DayStart(now) + 2 * MsPerDay - 1)
    case Week => Between(now, now + 7 * MsPerDay)
    case Next => From(now)
    case NoTimeWord => Anything
  }

  predicate InWindow(target: Option<int>, w: Window) {
    match w
    case Between(lo, hi) => target.Some? && lo <= target.value <= hi
    case From(lo) => target.Some? && lo <= target.value
    case Anything => true
  }

  /** Two instants fall on the same day exactly when the second lies between
      the first instant of the first one's day and the last. */
  lemma SameDay(t: int, now: int)
    ensures DayOf(t) == DayOf(now) <==> DayStart(now) <= t < DayStart(now) + MsPerDay
  {
    var d := DayOf(now);
    assert DayStart(now) == d * MsPerDay;
    assert t == DayOf(t) * MsPerDay + t % MsPerDay;
    assert 0 <= t % MsPerDay < MsPerDay;
    if DayOf(t) < d {
      assert DayOf(t) * MsPerDay <= (d - 1) * MsPerDay;
    } else if DayOf(t) > d {
      assert DayOf(t) * MsPerDay >= (d + 1) * MsPerDay;
    }
  }

  /** The day after `now`'s day is the day of `now` plus 24 hours. */
  lemma NextDay(now: int)
    ensures DayOf(now + MsPerDay) == DayOf(now) + 1
    ensures DayStart(now + MsPerDay) == DayStart(now) + MsPerDay
  {
    assert now == DayOf(now) * MsPerDay + now % MsPerDay;
    assert now + MsPerDay == (DayOf(now) + 1) * MsPerDay + now % MsPerDay;
  }

  /** "this week" contains "week", so the week branch is decided by "week". */
  lemma ThisWeekMeansWeek(q: string)
    ensures Contains(q, "this week") || Contains(q, "week") <==> Contains(q, "week")
  {
    if Contains(q, "this week") {
      assert OccursAt("this week", "week", 5);
      ContainsTransitive(q, "this week", "week");
    }
  }

  /** `isDateRelevant` holds exactly when the date cell is not empty and its
      date lies in the window of the deciding time word: today's day,
      tomorrow's day, the seven days from now, from now on, or anything when
      the question names no time. */
  lemma {:induction false} RelevantIffInWindow(dateStr: string, query: string, cal: Calendar)
    ensures IsDateRelevant(dateStr, query, cal)
        <==> dateStr != [] && InWindow(cal.parse(dateStr), WindowOf(TimeWordOf(query), cal.now))
  {
    ThisWeekMeansWeek(Lower(query));
    var target := cal.parse(dateStr);
    if target.Some? {
      SameDay(target.value, cal.now);
      NextDay(cal.now);
      SameDay(target.value, cal.now + MsPerDay);
    }
  }

  /** An empty or unparsable date is relevant only to a question that names
      no time. */
  lemma UnparsableDate(dateStr: string, query: string, cal: Calendar)
    requires cal.parse(dateStr).None?
    ensures IsDateRelevant(dateStr, query, cal) <==> dateStr != [] && TimeWordOf(query) == NoTimeWord
  {
    RelevantIffInWindow(dateStr, query, cal);
  }

  /** Letter case in the question plays no part. */
  lemma RelevanceIgnoresCase(dateStr: string, query: string, cal: Calendar)
    ensures IsDateRelevant(dateStr, Lower(query), cal) == IsDateRelevant(dateStr, query, cal)
  {
    LowerIdempotent(query);
  }
}
