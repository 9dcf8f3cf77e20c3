/**
 Business-hours deadlines (src/time.rs). Instants are whole seconds; a local instant is a UTC one
 shifted by the week's fixed offset. Day 0 is 1970-01-01, a Thursday.
 */
module WorkTime {
  datatype WorkWeek = WorkWeek(days: set<int>, startHour: nat, endHour: nat, offsetMinutes: int)

  const DEFAULT_WEEK := WorkWeek({1, 2, 3, 4, 5}, 9, 17, 0)

  /** ISO weekday of a day number, 1 = Monday. */
  function Weekday(day: int): (d: int)
    ensures 1 <= d <= 7
  {
    (day + 3) % 7 + 1
  }

  /** A week on which the calendar walk neither panics nor runs forever. */
  ghost predicate ValidWeek(w: WorkWeek) {
    w.startHour < w.endHour <= 24 && exists d :: 1 <= d <= 7 && d in w.days
  }

  predicate IsWorkday(w: WorkWeek, day: int) {
    Weekday(day) in w.days
  }

  function DayOf(t: int): int {
    t / 86_400
  }

  function OpenOf(w: WorkWeek, day: int): int {
    day * 86_400 + w.startHour * 3_600
  }

  /** The closing instant; an end hour of 24 means the midnight after. */
  function EndOf(w: WorkWeek, day: int): int {
    if w.endHour == 24 then (day + 1) * 86_400 else day * 86_400 + w.endHour * 3_600
  }

  predicate IsWorking(w: WorkWeek, t: int) {
    IsWorkday(w, DayOf(t)) && OpenOf(w, DayOf(t)) <= t < EndOf(w, DayOf(t))
  }

  // ----- The earliest working instant -----

  ghost predicate IsNextWorkday(w: WorkWeek, day: int, d: int) {
    day <= d && IsWorkday(w, d) && forall x :: day <= x < d ==> !IsWorkday(w, x)
  }

  lemma WorkdayWithinAWeek(w: WorkWeek, day: int) returns (d: int)
    requires ValidWeek(w)
    ensures day <= d < day + 7 && IsWorkday(w, d)
  {
    var iso :| 1 <= iso <= 7 && iso in w.days;
    d := day + (iso - Weekday(day)) % 7;
    assert (d + 3) % 7 == iso - 1;
  }

  lemma {:induction false} FirstWorkday(w: WorkWeek, day: int, bound: int) returns (d: int)
    requires day <= bound && IsWorkday(w, bound)
    ensures IsNextWorkday(w, day, d) && d <= bound
    decreases bound - day
  {
    if IsWorkday(w, day) {
      d := day;
    } else {
      d := FirstWorkday(w, day + 1, bound);
    }
  }

  ghost function NextWorkday(w: WorkWeek, day: int): (d: int)
    requires ValidWeek(w)
    ensures IsNextWorkday(w, day, d) && d < day + 7
  {
    assert exists d :: IsNextWorkday(w, day, d) && d < day + 7 by {
      var bound := WorkdayWithinAWeek(w, day);
      var first := FirstWorkday(w, day, bound);
    }
    var d :| IsNextWorkday(w, day, d) && d < day + 7;
    d
  }

  ghost function Resume(w: WorkWeek, t: int): (r: int)
    requires ValidWeek(w)
    ensures t <= r && IsWorking(w, r)
  {
    var day := DayOf(t);
    if IsWorkday(w, day) && t < EndOf(w, day) then
      if t < OpenOf(w, day) then OpenOf(w, day) else t
    else
      OpenOf(w, NextWorkday(w, day + 1))
  }

  /** Nothing before the resume point is working time. */
  lemma ResumeIsFirst(w: WorkWeek, t: int)
    requires ValidWeek(w)
    ensures forall x :: t <= x < Resume(w, t) ==> !IsWorking(w, x)
  {
    var day := DayOf(t);
    forall x | t <= x < Resume(w, t)
      ensures !IsWorking(w, x)
    {
      if !(IsWorkday(w, day) && t < EndOf(w, day)) && DayOf(x) > day {
        assert DayOf(x) <= NextWorkday(w, day + 1);
      }
    }
  }

  /** The day-by-day walk finds the resume point. */
  method WorkingInstantOrAfter(w: WorkWeek, t: int) returns (r: int)
    requires ValidWeek(w)
    ensures r == Resume(w, t)
  {
    var day := DayOf(t);
    while true
      invariant DayOf(t) <= day
      invariant day == DayOf(t) || (forall x :: DayOf(t) < x < day ==> !IsWorkday(w, x))
      invariant day == DayOf(t) || !(IsWorkday(w, DayOf(t)) && t < EndOf(w, DayOf(t)))
      invariant day == DayOf(t) || day <= NextWorkday(w, DayOf(t) + 1)
      decreases NextWorkday(w, DayOf(t) + 1) - day
    {
      if IsWorkday(w, day) {
        if t < OpenOf(w, day) {
          return OpenOf(w, day);
        }
        if t < EndOf(w, day) {
          return t;
        }
      }
      day := day + 1;
    }
  }

  // ----- Deadlines -----

  /** Whole minutes left in the working day of `c`. */
  function Available(w: WorkWeek, c: int): int {
    (EndOf(w, DayOf(c)) - c) / 60
  }

  /** Where the walk resumes once the working day of `c` is used up. */
  ghost function NextCursor(w: WorkWeek, c: int): (r: int)
    requires ValidWeek(w)
    ensures IsWorking(w, r)
  {
    Resume(w, EndOf(w, DayOf(c)) + 60)
  }

  lemma OpeningIsFresh(w: WorkWeek, day: int)
    requires w.startHour < w.endHour <= 24
    ensures DayOf(OpenOf(w, day)) == day
    ensures Available(w, OpenOf(w, day)) == 60 * (w.endHour - w.startHour)
  {
    DayAt(day, w.startHour * 3_600);
    assert EndOf(w, day) - OpenOf(w, day) == 60 * (60 * (w.endHour - w.startHour));
  }

  lemma DayAt(day: int, s: int)
    requires 0 <= s < 86_400
    ensures DayOf(day * 86_400 + s) == day
  {
  }

  /** The cursor after a crossing has most of a working day ahead of it. */
  lemma FreshDay(w: WorkWeek, c: int)
    requires ValidWeek(w) && IsWorking(w, c)
    ensures Available(w, c) >= 0 && Available(w, NextCursor(w, c)) >= 59
  {
    var day := DayOf(c);
    var t := EndOf(w, day) + 60;
    if w.endHour == 24 {
      DayAt(day + 1, 60);
      OpeningIsFresh(w, day + 1);
      OpeningIsFresh(w, NextWorkday(w, day + 2));
    } else {
      DayAt(day, w.endHour * 3_600 + 60);
      OpeningIsFresh(w, NextWorkday(w, day + 1));
    }
  }

  ghost function Finish(w: WorkWeek, c: int, minutes: int): (r: int)
    requires ValidWeek(w) && IsWorking(w, c)
    decreases if minutes < 0 then 0 else minutes, if Available(w, c) == 0 then 1 else 0
  {
    if minutes <= Available(w, c) then c + minutes * 60
    else
      FreshDay(w, c);
      Finish(w, NextCursor(w, c), minutes - Available(w, c))
  }

  /** `minutes` of working time after `t`, walking day by day (local time). */
  ghost function LocalDeadline(w: WorkWeek, t: int, minutes: int): int
    requires ValidWeek(w)
  {
    Finish(w, Resume(w, t), minutes)
  }

  /** The walk in UTC. */
  ghost function Deadline(w: WorkWeek, now: int, minutes: int): int
    requires ValidWeek(w)
  {
    LocalDeadline(w, now + w.offsetMinutes * 60, minutes) - w.offsetMinutes * 60
  }

  method Cross(w: WorkWeek, cursor: int) returns (next: int, available: int)
    requires ValidWeek(w) && IsWorking(w, cursor)
    ensures next == NextCursor(w, cursor) && available == Available(w, cursor)
    ensures available >= 0 && Available(w, next) > 0
  {
    FreshDay(w, cursor);
    var end := EndOf(w, DayOf(cursor));
    available := (end - cursor) / 60;
    next := WorkingInstantOrAfter(w, end + 60);
  }

  method ComputeDeadline(w: WorkWeek, now: int, minutes: int) returns (r: int)
    requires ValidWeek(w)
    ensures r == Deadline(w, now, minutes)
  {
    var cursor := WorkingInstantOrAfter(w, now + w.offsetMinutes * 60);
    var remaining := minutes;
    ghost var target := Finish(w, cursor, minutes);
    while true
      invariant IsWorking(w, cursor) && target == Finish(w, cursor, remaining)
      decreases if remaining < 0 then 0 else remaining, if Available(w, cursor) == 0 then 1 else 0
    {
      var next, available := Cross(w, cursor);
      if remaining <= available {
        return cursor + remaining * 60 - w.offsetMinutes * 60;
      }
      remaining := remaining - available;
      cursor := next;
    }
  }
}
