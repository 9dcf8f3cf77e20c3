/** What the business-hours walk of src/time.rs guarantees, measured in seconds of working time. */
module WorkLaws {
  import opened WorkTime

  /** Working seconds in `[a, b)`. */
  ghost function Work(w: WorkWeek, a: int, b: int): int
    decreases b - a
  {
    if a >= b then 0 else (if IsWorking(w, a) then 1 else 0) + Work(w, a + 1, b)
  }

  /** Day 0 is a Thursday, days follow one another, and weeks have seven of them. */
  lemma Calendar(day: int)
    ensures Weekday(0) == 4 && 1 <= Weekday(day) <= 7
    ensures Weekday(day + 1) == if Weekday(day) == 7 then 1 else Weekday(day) + 1
  {
  }

  /** A second is working time exactly within the hours of some working day. */
  lemma WorkingHours(w: WorkWeek, t: int)
    requires ValidWeek(w)
    ensures IsWorking(w, t) <==>
            exists day :: Weekday(day) in w.days && w.startHour * 3_600 <= t - day * 86_400 < w.endHour * 3_600
  {
    if IsWorking(w, t) {
      assert Weekday(DayOf(t)) in w.days;
    }
    if day :| Weekday(day) in w.days && w.startHour * 3_600 <= t - day * 86_400 < w.endHour * 3_600 {
      assert DayOf(t) == day;
    }
  }

  lemma {:induction false} WorkAdds(w: WorkWeek, a: int, b: int, c: int)
    requires a <= b <= c
    ensures Work(w, a, c) == Work(w, a, b) + Work(w, b, c)
    decreases b - a
  {
    if a < b {
      WorkAdds(w, a + 1, b, c);
    }
  }

  lemma {:induction false} WorkBounds(w: WorkWeek, a: int, b: int)
    requires a <= b
    ensures 0 <= Work(w, a, b) <= b - a
    decreases b - a
  {
    if a < b {
      WorkBounds(w, a + 1, b);
    }
  }

  lemma {:induction false} Idle(w: WorkWeek, a: int, b: int)
    requires forall x :: a <= x < b ==> !IsWorking(w, x)
    ensures Work(w, a, b) == 0
    decreases b - a
  {
    if a < b {
      Idle(w, a + 1, b);
    }
  }

  lemma {:induction false} Busy(w: WorkWeek, a: int, b: int)
    requires a <= b && forall x :: a <= x < b ==> IsWorking(w, x)
    ensures Work(w, a, b) == b - a
    decreases b - a
  {
    if a < b {
      Busy(w, a + 1, b);
    }
  }

  /** The rest of a working day is all working time. */
  lemma RestOfDay(w: WorkWeek, c: int, r: int)
    requires ValidWeek(w) && IsWorking(w, c) && c <= r <= EndOf(w, DayOf(c))
    ensures Work(w, c, r) == r - c
  {
    forall x | c <= x < r
      ensures IsWorking(w, x)
    {
      assert DayOf(x) == DayOf(c);
    }
    Busy(w, c, r);
  }

  // ----- Closing midnight -----

  /** Two working days meet at midnight without a gap. */
  ghost predicate Seam(w: WorkWeek, day: int) {
    w.endHour == 24 && w.startHour == 0 && IsWorkday(w, day) && IsWorkday(w, day + 1)
  }

  /** No working day runs straight into another one: the minute the walk skips is never working time. */
  ghost predicate SeamFree(w: WorkWeek) {
    forall day :: !Seam(w, day)
  }

  lemma ClosingTimeResumes(w: WorkWeek, day: int)
    requires ValidWeek(w) && SeamFree(w) && IsWorkday(w, day)
    ensures Resume(w, EndOf(w, day)) == Resume(w, EndOf(w, day) + 60)
  {
    var end := EndOf(w, day);
    assert !Seam(w, day);
    if w.endHour == 24 {
      DayAt(day + 1, 0);
      DayAt(day + 1, 60);
    } else {
      DayAt(day, w.endHour * 3_600);
      DayAt(day, w.endHour * 3_600 + 60);
    }
  }

  lemma MultipleOf60(k: int)
    ensures (60 * k) % 60 == 0
  {
  }

  lemma DayBoundsOnTheMinute(w: WorkWeek, day: int)
    ensures OpenOf(w, day) % 60 == 0 && EndOf(w, day) % 60 == 0
  {
    MultipleOf60(1_440 * day + 60 * w.startHour);
    MultipleOf60(1_440 * day + 60 * w.endHour);
    assert EndOf(w, day) == 60 * (1_440 * day + 60 * w.endHour);
  }

  lemma ResumeOnTheMinute(w: WorkWeek, t: int)
    requires ValidWeek(w) && t % 60 == 0
    ensures Resume(w, t) % 60 == 0
  {
    var r := Resume(w, t);
    if r != t {
      assert r == OpenOf(w, DayOf(t)) || r == OpenOf(w, NextWorkday(w, DayOf(t) + 1));
      DayBoundsOnTheMinute(w, DayOf(t));
      DayBoundsOnTheMinute(w, NextWorkday(w, DayOf(t) + 1));
    }
  }

  /** Flooring to minutes drops less than a minute, and nothing from a whole minute. */
  lemma AvailableFloor(w: WorkWeek, c: int)
    ensures var left := EndOf(w, DayOf(c)) - c;
            60 * Available(w, c) <= left < 60 * Available(w, c) + 60 && (c % 60 == 0 ==> 60 * Available(w, c) == left)
  {
    DayBoundsOnTheMinute(w, DayOf(c));
    if c % 60 == 0 {
      Difference(EndOf(w, DayOf(c)), c);
    }
  }

  lemma Difference(a: int, b: int)
    requires a % 60 == 0 && b % 60 == 0
    ensures (a - b) % 60 == 0
  {
    MultipleOf60(a / 60 - b / 60);
    assert a - b == 60 * (a / 60 - b / 60);
  }

  // ----- Deadlines measure working time -----

  lemma WithinTheDay(w: WorkWeek, c: int, minutes: nat)
    requires ValidWeek(w) && IsWorking(w, c) && minutes <= Available(w, c)
    ensures Work(w, c, c + minutes * 60) == minutes * 60
    ensures minutes > 0 ==> IsWorking(w, c + minutes * 60 - 1)
  {
    var r := c + minutes * 60;
    assert r <= EndOf(w, DayOf(c));
    RestOfDay(w, c, r);
    if minutes > 0 {
      DayAt(DayOf(c), r - 1 - DayOf(c) * 86_400);
    }
  }

  /** The working days in `[a, b)` that run straight into another one. */
  ghost function Seams(w: WorkWeek, a: int, b: int): nat
    decreases b - a
  {
    if a >= b then 0 else (if Seam(w, a) then 1 else 0) + Seams(w, a + 1, b)
  }

  lemma {:induction false} SeamsAdd(w: WorkWeek, a: int, b: int, c: int)
    requires a <= b <= c
    ensures Seams(w, a, c) == Seams(w, a, b) + Seams(w, b, c)
    decreases b - a
  {
    if a < b {
      SeamsAdd(w, a + 1, b, c);
    }
  }

  lemma {:induction false} NoWorkdayNoSeam(w: WorkWeek, a: int, b: int)
    requires forall day :: a <= day < b ==> !IsWorkday(w, day)
    ensures Seams(w, a, b) == 0
    decreases b - a
  {
    if a < b {
      NoWorkdayNoSeam(w, a + 1, b);
    }
  }

  /** The closing minute of a day is skipped; across a seam, and only there, it was working time. */
  lemma SkippedMinute(w: WorkWeek, c: int)
    requires ValidWeek(w) && IsWorking(w, c)
    ensures var end, next := EndOf(w, DayOf(c)), NextCursor(w, c);
            && end <= next && next % 60 == 0
            && Work(w, end, next) == if Seam(w, DayOf(c)) then 60 else 0
  {
    var day := DayOf(c);
    var end, next := EndOf(w, day), NextCursor(w, c);
    DayBoundsOnTheMinute(w, day);
    Difference(end, -60);
    ResumeOnTheMinute(w, end + 60);
    ResumeIsFirst(w, end + 60);
    Idle(w, end + 60, next);
    WorkAdds(w, end, end + 60, next);
    ClosingMinute(w, day);
  }

  lemma ClosingMinute(w: WorkWeek, day: int)
    requires ValidWeek(w) && IsWorkday(w, day)
    ensures var end := EndOf(w, day); Work(w, end, end + 60) == if Seam(w, day) then 60 else 0
  {
    var end := EndOf(w, day);
    forall x | end <= x < end + 60
      ensures IsWorking(w, x) <==> Seam(w, day)
    {
      if w.endHour == 24 {
        DayAt(day + 1, x - end);
      } else {
        DayAt(day, x - day * 86_400);
      }
    }
    if Seam(w, day) {
      Busy(w, end, end + 60);
    } else {
      Idle(w, end, end + 60);
    }
  }

  /** No working day lies between one day and the day the walk resumes on. */
  lemma NothingBetween(w: WorkWeek, c: int)
    requires ValidWeek(w) && IsWorking(w, c)
    ensures DayOf(c) < DayOf(NextCursor(w, c))
    ensures Seams(w, DayOf(c) + 1, DayOf(NextCursor(w, c))) == 0
  {
    var day := DayOf(c);
    var t := EndOf(w, day) + 60;
    if w.endHour == 24 {
      DayAt(day + 1, 60);
      if !IsWorkday(w, day + 1) {
        OpeningIsFresh(w, NextWorkday(w, day + 2));
        NoWorkdayNoSeam(w, day + 1, NextWorkday(w, day + 2));
      } else {
        OpeningIsFresh(w, day + 1);
      }
    } else {
      DayAt(day, w.endHour * 3_600 + 60);
      OpeningIsFresh(w, NextWorkday(w, day + 1));
      NoWorkdayNoSeam(w, day + 1, NextWorkday(w, day + 1));
    }
  }

  /** Working time granted from `c` for `minutes`, against what was asked and the seams crossed. */
  ghost predicate Grants(w: WorkWeek, c: int, finish: int, minutes: int, seams: nat)
    requires c <= finish
  {
    var asked := 60 * minutes + 60 * seams;
    asked <= Work(w, c, finish) < asked + 60 && (c % 60 == 0 ==> Work(w, c, finish) == asked)
  }

  lemma GrantsToday(w: WorkWeek, c: int, minutes: nat)
    requires ValidWeek(w) && IsWorking(w, c) && 1 <= minutes <= Available(w, c)
    ensures var finish := c + minutes * 60;
            && c < finish && IsWorking(w, finish - 1) && DayOf(finish - 1) == DayOf(c)
            && Grants(w, c, finish, minutes, 0)
  {
    WithinTheDay(w, c, minutes);
    AvailableFloor(w, c);
    DayAt(DayOf(c), c + minutes * 60 - 1 - DayOf(c) * 86_400);
  }

  lemma GrantsAcross(w: WorkWeek, c: int, finish: int, minutes: int, seams: nat)
    requires ValidWeek(w) && IsWorking(w, c) && NextCursor(w, c) <= finish && Available(w, c) >= 0
    requires Grants(w, NextCursor(w, c), finish, minutes - Available(w, c), seams)
    ensures c <= finish && Grants(w, c, finish, minutes, seams + if Seam(w, DayOf(c)) then 1 else 0)
  {
    var end, next := EndOf(w, DayOf(c)), NextCursor(w, c);
    SkippedMinute(w, c);
    RestOfDay(w, c, end);
    WorkAdds(w, c, end, next);
    WorkAdds(w, c, next, finish);
    AvailableFloor(w, c);
  }

  lemma NextDayFirst(w: WorkWeek, c: int, a: int)
    requires ValidWeek(w) && IsWorking(w, c) && a > Available(w, c)
    ensures IsWorking(w, NextCursor(w, c)) && Finish(w, c, a) == Finish(w, NextCursor(w, c), a - Available(w, c))
    ensures Available(w, c) >= 0 && (Available(w, c) == 0 ==> Available(w, NextCursor(w, c)) > 0)
  {
    FreshDay(w, c);
  }

  /** The walk from `c` ends later, right after working time, having granted the minutes and one a seam. */
  ghost predicate WalkGrants(w: WorkWeek, c: int, minutes: int)
    requires ValidWeek(w) && IsWorking(w, c)
  {
    var finish := Finish(w, c, minutes);
    && c < finish && IsWorking(w, finish - 1) && DayOf(c) <= DayOf(finish - 1)
    && Grants(w, c, finish, minutes, Seams(w, DayOf(c), DayOf(finish - 1)))
  }

  lemma WalkGrantsLater(w: WorkWeek, c: int, minutes: int)
    requires ValidWeek(w) && IsWorking(w, c) && minutes > Available(w, c) >= 0
    requires WalkGrants(w, NextCursor(w, c), minutes - Available(w, c))
    ensures WalkGrants(w, c, minutes)
  {
    var next, finish := NextCursor(w, c), Finish(w, c, minutes);
    NextDayFirst(w, c, minutes);
    SeamsStep(w, c, finish);
    GrantsAcross(w, c, finish, minutes, Seams(w, DayOf(next), DayOf(finish - 1)));
  }

  lemma {:induction false} FinishGrants(w: WorkWeek, c: int, minutes: nat)
    requires ValidWeek(w) && IsWorking(w, c) && minutes >= 1
    ensures WalkGrants(w, c, minutes)
    decreases minutes, if Available(w, c) == 0 then 1 else 0
  {
    FreshDay(w, c);
    if minutes <= Available(w, c) {
      GrantsToday(w, c, minutes);
    } else {
      FinishGrants(w, NextCursor(w, c), minutes - Available(w, c));
      WalkGrantsLater(w, c, minutes);
    }
  }

  lemma SeamsStep(w: WorkWeek, c: int, finish: int)
    requires ValidWeek(w) && IsWorking(w, c) && DayOf(NextCursor(w, c)) <= DayOf(finish - 1)
    ensures DayOf(c) <= DayOf(finish - 1)
    ensures Seams(w, DayOf(c), DayOf(finish - 1)) ==
            Seams(w, DayOf(NextCursor(w, c)), DayOf(finish - 1)) + if Seam(w, DayOf(c)) then 1 else 0
  {
    NothingBetween(w, c);
    SeamsAdd(w, DayOf(c) + 1, DayOf(NextCursor(w, c)), DayOf(finish - 1));
  }

  lemma IdleUntilResume(w: WorkWeek, t: int)
    requires ValidWeek(w)
    ensures Work(w, t, Resume(w, t)) == 0
  {
    ResumeIsFirst(w, t);
    Idle(w, t, Resume(w, t));
  }

  /** The seams a deadline call walks across. */
  ghost function SeamsCrossed(w: WorkWeek, t: int, minutes: nat): nat
    requires ValidWeek(w)
  {
    Seams(w, DayOf(Resume(w, t)), DayOf(LocalDeadline(w, t, minutes) - 1))
  }

  /**
   On every week and for every call: the working time up to the deadline is the minutes asked for plus one
   minute for each seam crossed, exactly from a whole minute and within a minute otherwise.
   */
  lemma DeadlineCountsSeams(w: WorkWeek, t: int, minutes: nat)
    requires ValidWeek(w) && minutes >= 1
    ensures t <= LocalDeadline(w, t, minutes)
    ensures var granted, asked := Work(w, t, LocalDeadline(w, t, minutes)),
                                  60 * minutes + 60 * SeamsCrossed(w, t, minutes);
            asked <= granted < asked + 60 && (t % 60 == 0 ==> granted == asked)
    ensures IsWorking(w, LocalDeadline(w, t, minutes) - 1)
  {
    var c := Resume(w, t);
    IdleUntilResume(w, t);
    FinishGrants(w, c, minutes);
    WorkAdds(w, t, c, Finish(w, c, minutes));
    if t % 60 == 0 {
      ResumeOnTheMinute(w, t);
    }
  }

  /** So a call from a whole minute grants exactly what was asked iff it crosses no seam. */
  lemma ExactIffNoSeamCrossed(w: WorkWeek, t: int, minutes: nat)
    requires ValidWeek(w) && minutes >= 1 && t % 60 == 0
    ensures Work(w, t, LocalDeadline(w, t, minutes)) == 60 * minutes <==> SeamsCrossed(w, t, minutes) == 0
  {
    DeadlineCountsSeams(w, t, minutes);
  }

  /** From a whole minute, the deadline is the least instant with exactly that much working time. */
  lemma DeadlineIsLeast(w: WorkWeek, t: int, minutes: nat)
    requires ValidWeek(w) && SeamFree(w) && t % 60 == 0 && minutes >= 1
    ensures Work(w, t, LocalDeadline(w, t, minutes)) == 60 * minutes
    ensures forall x :: t <= x < LocalDeadline(w, t, minutes) ==> Work(w, t, x) < 60 * minutes
  {
    var c, d := Resume(w, t), LocalDeadline(w, t, minutes);
    WorkUpTo(w, t, minutes);
    forall x | t <= x < d
      ensures Work(w, t, x) < 60 * minutes
    {
      WorkAdds(w, t, x, d);
      WorkAdds(w, x, d - 1, d);
      WorkBounds(w, x, d - 1);
    }
  }

  lemma WorkUpTo(w: WorkWeek, t: int, minutes: nat)
    requires ValidWeek(w) && SeamFree(w)
    ensures t <= LocalDeadline(w, t, minutes)
    ensures 60 * minutes <= Work(w, t, LocalDeadline(w, t, minutes)) < 60 * minutes + 60
    ensures t % 60 == 0 ==> Work(w, t, LocalDeadline(w, t, minutes)) == 60 * minutes
    ensures minutes > 0 ==> IsWorking(w, LocalDeadline(w, t, minutes) - 1)
  {
    var c := Resume(w, t);
    if minutes == 0 {
      FreshDay(w, c);
      IdleUntilResume(w, t);
    } else {
      DeadlineCountsSeams(w, t, minutes);
      NoSeams(w, DayOf(c), DayOf(LocalDeadline(w, t, minutes) - 1));
    }
  }

  lemma {:induction false} NoSeams(w: WorkWeek, a: int, b: int)
    requires SeamFree(w)
    ensures Seams(w, a, b) == 0
    decreases b - a
  {
    if a < b {
      NoSeams(w, a + 1, b);
    }
  }

  /** From any second, the deadline grants what was asked and less than a minute more. */
  lemma ExcessUnderAMinute(w: WorkWeek, t: int, minutes: nat)
    requires ValidWeek(w) && SeamFree(w)
    ensures 60 * minutes <= Work(w, t, LocalDeadline(w, t, minutes)) < 60 * minutes + 60
  {
    WorkUpTo(w, t, minutes);
  }

  // ----- Deadlines compose -----

  /** Moving whole minutes within a working day uses up exactly those minutes. */
  lemma LaterSameDay(w: WorkWeek, c: int, a: nat)
    requires ValidWeek(w) && IsWorking(w, c) && c + a * 60 < EndOf(w, DayOf(c))
    ensures var u := c + a * 60;
            IsWorking(w, u) && DayOf(u) == DayOf(c) && Available(w, u) == Available(w, c) - a
  {
    DayAt(DayOf(c), c + a * 60 - DayOf(c) * 86_400);
  }

  lemma ExactlyClosing(w: WorkWeek, c: int, a: nat)
    requires a <= Available(w, c) && c + a * 60 >= EndOf(w, DayOf(c))
    ensures c + a * 60 == EndOf(w, DayOf(c)) && Available(w, c) == a
  {
  }

  lemma WorkingStays(w: WorkWeek, u: int)
    requires ValidWeek(w) && IsWorking(w, u)
    ensures Resume(w, u) == u
  {
  }

  lemma ComposeSameDay(w: WorkWeek, c: int, a: nat, b: int)
    requires ValidWeek(w) && IsWorking(w, c) && b >= 1 && c + a * 60 < EndOf(w, DayOf(c))
    ensures LocalDeadline(w, c + a * 60, b) == Finish(w, c, a + b)
  {
    var u := c + a * 60;
    LaterSameDay(w, c, a);
    WorkingStays(w, u);
    assert NextCursor(w, u) == NextCursor(w, c);
    if b <= Available(w, u) {
      assert Finish(w, u, b) == u + b * 60;
    } else {
      assert Finish(w, u, b) == Finish(w, NextCursor(w, u), b - Available(w, u));
    }
  }

  lemma ResumesNextDay(w: WorkWeek, c: int)
    requires ValidWeek(w) && SeamFree(w) && IsWorking(w, c)
    ensures Resume(w, EndOf(w, DayOf(c))) == NextCursor(w, c)
  {
    ClosingTimeResumes(w, DayOf(c));
  }

  lemma ComposeAtClose(w: WorkWeek, c: int, a: nat, b: int)
    requires ValidWeek(w) && SeamFree(w) && IsWorking(w, c) && b >= 1
    requires c + a * 60 == EndOf(w, DayOf(c)) && Available(w, c) == a
    ensures LocalDeadline(w, c + a * 60, b) == Finish(w, c, a + b)
  {
    ResumesNextDay(w, c);
    NextDayFirst(w, c, a + b);
  }

  ghost predicate Composes(w: WorkWeek, c: int, a: int, b: int)
    requires ValidWeek(w) && IsWorking(w, c)
  {
    LocalDeadline(w, Finish(w, c, a), b) == Finish(w, c, a + b)
  }

  lemma ComposeToday(w: WorkWeek, c: int, a: nat, b: int)
    requires ValidWeek(w) && SeamFree(w) && IsWorking(w, c) && b >= 1 && a <= Available(w, c)
    ensures Composes(w, c, a, b)
  {
    if c + a * 60 < EndOf(w, DayOf(c)) {
      ComposeSameDay(w, c, a, b);
    } else {
      ExactlyClosing(w, c, a);
      ComposeAtClose(w, c, a, b);
    }
  }

  lemma ComposeLater(w: WorkWeek, c: int, a: nat, b: int)
    requires ValidWeek(w) && IsWorking(w, c) && b >= 1 && a > Available(w, c) >= 0 && IsWorking(w, NextCursor(w, c))
    requires Composes(w, NextCursor(w, c), a - Available(w, c), b)
    ensures Composes(w, c, a, b)
  {
    NextDayFirst(w, c, a);
    NextDayFirst(w, c, a + b);
  }

  lemma {:induction false} FinishComposes(w: WorkWeek, c: int, a: nat, b: int)
    requires ValidWeek(w) && SeamFree(w) && IsWorking(w, c) && b >= 1
    ensures Composes(w, c, a, b)
    decreases a, if Available(w, c) == 0 then 1 else 0
  {
    if a > Available(w, c) {
      NextDayFirst(w, c, a);
      FinishComposes(w, NextCursor(w, c), a - Available(w, c), b);
      ComposeLater(w, c, a, b);
    } else {
      ComposeToday(w, c, a, b);
    }
  }

  /** Waiting `a` then `b` minutes of working time is waiting `a + b`, from any second. */
  lemma DeadlinesCompose(w: WorkWeek, t: int, a: nat, b: int)
    requires ValidWeek(w) && SeamFree(w) && b >= 1
    ensures LocalDeadline(w, LocalDeadline(w, t, a), b) == LocalDeadline(w, t, a + b)
  {
    FinishComposes(w, Resume(w, t), a, b);
    assert Composes(w, Resume(w, t), a, b);
  }

  /** Working seconds between two UTC instants. */
  ghost function WorkUtc(w: WorkWeek, a: int, b: int): int
    requires a <= b
  {
    Work(w, a + w.offsetMinutes * 60, b + w.offsetMinutes * 60)
  }

  lemma DeadlineAt(w: WorkWeek, now: int, local: int, minutes: int)
    requires ValidWeek(w) && local == now + w.offsetMinutes * 60
    ensures Deadline(w, now, minutes) == LocalDeadline(w, local, minutes) - w.offsetMinutes * 60
  {
  }

  /** In UTC, as `deadline` is called, deadlines compose. */
  lemma ComposeInUtc(w: WorkWeek, now: int, a: nat, b: int)
    requires ValidWeek(w) && SeamFree(w) && b >= 1
    ensures Deadline(w, Deadline(w, now, a), b) == Deadline(w, now, a + b)
  {
    var t := now + w.offsetMinutes * 60;
    DeadlinesCompose(w, t, a, b);
    DeadlineAt(w, now, t, a);
    DeadlineAt(w, now, t, a + b);
    DeadlineAt(w, Deadline(w, now, a), LocalDeadline(w, t, a), b);
  }

  /** In UTC too the excess is under a minute. */
  lemma ExcessInUtc(w: WorkWeek, now: int, minutes: nat)
    requires ValidWeek(w) && SeamFree(w)
    ensures now <= Deadline(w, now, minutes)
    ensures 60 * minutes <= WorkUtc(w, now, Deadline(w, now, minutes)) < 60 * minutes + 60
  {
    WorkUpTo(w, now + w.offsetMinutes * 60, minutes);
  }

  /** In UTC a deadline from a whole minute is the least instant with the working time asked for. */
  lemma LeastInUtc(w: WorkWeek, now: int, minutes: nat, x: int)
    requires ValidWeek(w) && SeamFree(w) && minutes >= 1 && now % 60 == 0
    ensures now <= Deadline(w, now, minutes) && WorkUtc(w, now, Deadline(w, now, minutes)) == 60 * minutes
    ensures now <= x < Deadline(w, now, minutes) ==> WorkUtc(w, now, x) < 60 * minutes
  {
    ExcessInUtc(w, now, minutes);
    OffsetOnTheMinute(now, w.offsetMinutes);
    DeadlineIsLeast(w, now + w.offsetMinutes * 60, minutes);
  }

  lemma OffsetOnTheMinute(now: int, minutes: int)
    requires now % 60 == 0
    ensures (now + minutes * 60) % 60 == 0
  {
    MultipleOf60(now / 60 + minutes);
    assert now + minutes * 60 == 60 * (now / 60 + minutes);
  }

  /** Both laws hold exactly on seam-free weeks: a round-the-clock crossing costs a minute. */
  lemma SeamsBreakBothLaws(w: WorkWeek)
    requires ValidWeek(w)
    ensures SeamFree(w) <==>
            forall t: int, minutes: nat :: t % 60 == 0 && minutes >= 1 ==>
                                             Work(w, t, LocalDeadline(w, t, minutes)) == 60 * minutes
    ensures SeamFree(w) <==>
            forall t: int, a: nat, b: nat :: b >= 1 ==>
                                               LocalDeadline(w, LocalDeadline(w, t, a), b) == LocalDeadline(w, t, a + b)
  {
    if SeamFree(w) {
      forall t: int, minutes: nat | t % 60 == 0 && minutes >= 1
        ensures Work(w, t, LocalDeadline(w, t, minutes)) == 60 * minutes
      {
        DeadlineIsLeast(w, t, minutes);
      }
      forall t: int, a: nat, b: nat | b >= 1
        ensures LocalDeadline(w, LocalDeadline(w, t, a), b) == LocalDeadline(w, t, a + b)
      {
        DeadlinesCompose(w, t, a, b);
      }
    } else {
      var day :| Seam(w, day);
      SeamLosesAMinute(w, day);
    }
  }

  /** On a round-the-clock day every second is working time, up to the next midnight. */
  lemma RoundTheClock(w: WorkWeek, day: int, s: int)
    requires ValidWeek(w) && w.startHour == 0 && w.endHour == 24 && IsWorkday(w, day) && 0 <= s < 86_400
    ensures var t := day * 86_400 + s;
            && DayOf(t) == day
            && IsWorking(w, t)
            && Resume(w, t) == t
            && EndOf(w, day) == (day + 1) * 86_400
            && Available(w, t) == (86_400 - s) / 60
  {
    DayAt(day, s);
  }

  lemma SeamLosesAMinute(w: WorkWeek, day: int)
    requires ValidWeek(w) && Seam(w, day)
    ensures var t := day * 86_400;
            && t % 60 == 0
            && LocalDeadline(w, t, 1441) == t + 86_400 + 120
            && Work(w, t, LocalDeadline(w, t, 1441)) == 60 * 1442
            && LocalDeadline(w, LocalDeadline(w, t, 1440), 1) == t + 86_400 + 60
  {
    var t, midnight := day * 86_400, (day + 1) * 86_400;
    RoundTheClock(w, day, 0);
    RoundTheClock(w, day + 1, 0);
    RoundTheClock(w, day + 1, 60);
    MultipleOf60(1_440 * day);
    assert Finish(w, midnight + 60, 1) == midnight + 120;
    assert Finish(w, t, 1441) == Finish(w, midnight + 60, 1);
    assert Finish(w, t, 1440) == midnight;
    RestOfDay(w, t, midnight);
    RestOfDay(w, midnight, midnight + 120);
    WorkAdds(w, t, midnight, midnight + 120);
  }

  // ----- The default human deadline -----

  const DEFAULT_MINUTES := 48 * 60

  function FollowingWorkday(day: int): int {
    if Weekday(day) == 5 then day + 3 else if Weekday(day) == 6 then day + 2 else day + 1
  }

  lemma WeekdayAdvances(day: int)
    ensures Weekday(day + 1) == if Weekday(day) == 7 then 1 else Weekday(day) + 1
  {
  }

  lemma DefaultNextWorkday(day: int)
    ensures ValidWeek(DEFAULT_WEEK)
    ensures NextWorkday(DEFAULT_WEEK, day + 1) == FollowingWorkday(day)
    ensures IsWorkday(DEFAULT_WEEK, FollowingWorkday(day))
  {
    assert 1 in DEFAULT_WEEK.days;
    WeekdayAdvances(day);
    WeekdayAdvances(day + 1);
    WeekdayAdvances(day + 2);
    var next := NextWorkday(DEFAULT_WEEK, day + 1);
    assert IsWorkday(DEFAULT_WEEK, FollowingWorkday(day));
    assert next <= FollowingWorkday(day);
    assert next == day + 1 || next == day + 2 || next == FollowingWorkday(day);
  }

  lemma DefaultOpening(day: int)
    requires IsWorkday(DEFAULT_WEEK, day)
    ensures DayOf(OpenOf(DEFAULT_WEEK, day)) == day
    ensures IsWorking(DEFAULT_WEEK, OpenOf(DEFAULT_WEEK, day))
    ensures Available(DEFAULT_WEEK, OpenOf(DEFAULT_WEEK, day)) == 480
  {
    DayAt(day, 9 * 3_600);
  }

  lemma DefaultCrossing(c: int)
    requires IsWorking(DEFAULT_WEEK, c)
    ensures ValidWeek(DEFAULT_WEEK)
    ensures NextCursor(DEFAULT_WEEK, c) == OpenOf(DEFAULT_WEEK, FollowingWorkday(DayOf(c)))
  {
    DefaultNextWorkday(DayOf(c));
    DayAt(DayOf(c), 17 * 3_600 + 60);
  }

  ghost function NthWorkday(day: int, n: nat): int
    decreases n
  {
    if n == 0 then day else NthWorkday(FollowingWorkday(day), n - 1)
  }

  /** From one weekday to the next, Monday after Friday. */
  lemma FollowingWeekday(day: int)
    requires 1 <= Weekday(day) <= 5
    ensures var next := FollowingWorkday(day);
            && Weekday(next) == (if Weekday(day) == 5 then 1 else Weekday(day) + 1)
            && next == day + if Weekday(day) == 5 then 3 else 1
  {
    WeekdayAdvances(day);
    WeekdayAdvances(day + 1);
    WeekdayAdvances(day + 2);
  }

  lemma FiveSteps(day: int)
    requires 1 <= Weekday(day) <= 5
    ensures FollowingWorkday(FollowingWorkday(FollowingWorkday(FollowingWorkday(FollowingWorkday(day))))) == day + 7
  {
    var d1 := FollowingWorkday(day);
    var d2 := FollowingWorkday(d1);
    var d3 := FollowingWorkday(d2);
    var d4 := FollowingWorkday(d3);
    FollowingWeekday(day);
    FollowingWeekday(d1);
    FollowingWeekday(d2);
    FollowingWeekday(d3);
    FollowingWeekday(d4);
  }

  lemma FiveWorkdaysAreAWeek(day: int)
    requires IsWorkday(DEFAULT_WEEK, day)
    ensures NthWorkday(day, 5) == day + 7
    ensures NthWorkday(FollowingWorkday(day), 4) == day + 7
  {
    assert 1 <= Weekday(day) <= 5;
    FiveSteps(day);
    var d1 := FollowingWorkday(day);
    var d2 := FollowingWorkday(d1);
    var d3 := FollowingWorkday(d2);
    var d4 := FollowingWorkday(d3);
    assert NthWorkday(d4, 1) == FollowingWorkday(d4);
    assert NthWorkday(d3, 2) == FollowingWorkday(d4);
    assert NthWorkday(d2, 3) == FollowingWorkday(d4);
  }

  /** `n` full working days pass between two opening times. */
  lemma {:induction false} FullDays(day: int, n: nat, rest: nat)
    requires IsWorkday(DEFAULT_WEEK, day) && 1 <= rest <= 480
    ensures ValidWeek(DEFAULT_WEEK) && IsWorking(DEFAULT_WEEK, OpenOf(DEFAULT_WEEK, day))
    ensures Finish(DEFAULT_WEEK, OpenOf(DEFAULT_WEEK, day), n * 480 + rest) ==
            OpenOf(DEFAULT_WEEK, NthWorkday(day, n)) + rest * 60
    decreases n
  {
    DefaultOpening(day);
    DefaultNextWorkday(day);
    if n > 0 {
      DefaultCrossing(OpenOf(DEFAULT_WEEK, day));
      FullDays(FollowingWorkday(day), n - 1, rest);
      assert n * 480 + rest - 480 == (n - 1) * 480 + rest;
    }
  }

  /** A full day left: five more working days, a week later. */
  lemma DefaultFromOpening(c: int)
    requires IsWorking(DEFAULT_WEEK, c) && Available(DEFAULT_WEEK, c) == 480
    ensures ValidWeek(DEFAULT_WEEK)
    ensures c == OpenOf(DEFAULT_WEEK, DayOf(c))
            && Finish(DEFAULT_WEEK, c, DEFAULT_MINUTES) == c + 7 * 86_400 + 8 * 3_600
  {
    var day := DayOf(c);
    DefaultCrossing(c);
    DefaultNextWorkday(day);
    AvailableFloor(DEFAULT_WEEK, c);
    assert EndOf(DEFAULT_WEEK, day) == OpenOf(DEFAULT_WEEK, day) + 8 * 3_600;
    FullDays(FollowingWorkday(day), 4, 480);
    FiveWorkdaysAreAWeek(day);
    assert DEFAULT_MINUTES - 480 == 4 * 480 + 480;
  }

  /** Part of a day left: five full working days after the next one, and the rest of a sixth. */
  lemma DefaultFinishLater(c: int)
    requires IsWorking(DEFAULT_WEEK, c) && Available(DEFAULT_WEEK, c) < 480
    ensures ValidWeek(DEFAULT_WEEK) && 0 <= Available(DEFAULT_WEEK, c)
    ensures Finish(DEFAULT_WEEK, c, DEFAULT_MINUTES) ==
            OpenOf(DEFAULT_WEEK, FollowingWorkday(DayOf(c)) + 7) + (480 - Available(DEFAULT_WEEK, c)) * 60
  {
    var next, available := FollowingWorkday(DayOf(c)), Available(DEFAULT_WEEK, c);
    AvailableFloor(DEFAULT_WEEK, c);
    DefaultCrossing(c);
    DefaultNextWorkday(DayOf(c));
    FullDays(next, 5, 480 - available);
    FiveWorkdaysAreAWeek(next);
    assert DEFAULT_MINUTES - available == 5 * 480 + (480 - available);
  }

  lemma DefaultFromLater(c: int)
    requires IsWorking(DEFAULT_WEEK, c) && Available(DEFAULT_WEEK, c) < 480
    ensures ValidWeek(DEFAULT_WEEK)
    ensures 7 * 86_400 + 8 * 3_600 <= Finish(DEFAULT_WEEK, c, DEFAULT_MINUTES) - c <= 10 * 86_400 + 59
  {
    DefaultFinishLater(c);
    AvailableFloor(DEFAULT_WEEK, c);
    var day := DayOf(c);
    assert EndOf(DEFAULT_WEEK, day) == OpenOf(DEFAULT_WEEK, day) + 8 * 3_600;
    var later := FollowingWorkday(day) + 7;
    assert OpenOf(DEFAULT_WEEK, later) == OpenOf(DEFAULT_WEEK, day) + (later - day) * 86_400;
    assert 1 <= FollowingWorkday(day) - day <= 3;
  }

  lemma DefaultFromCursor(c: int)
    requires IsWorking(DEFAULT_WEEK, c)
    ensures ValidWeek(DEFAULT_WEEK)
    ensures c == OpenOf(DEFAULT_WEEK, DayOf(c)) ==>
              Finish(DEFAULT_WEEK, c, DEFAULT_MINUTES) == c + 7 * 86_400 + 8 * 3_600
    ensures 7 * 86_400 + 8 * 3_600 <= Finish(DEFAULT_WEEK, c, DEFAULT_MINUTES) - c <= 10 * 86_400 + 59
  {
    AvailableFloor(DEFAULT_WEEK, c);
    if Available(DEFAULT_WEEK, c) == 480 {
      DefaultFromOpening(c);
    } else {
      DefaultFromLater(c);
    }
  }

  lemma ResumeGap(at: int)
    ensures ValidWeek(DEFAULT_WEEK)
    ensures var c := Resume(DEFAULT_WEEK, at);
            0 <= c - at <= 64 * 3_600 && (c != at ==> c == OpenOf(DEFAULT_WEEK, DayOf(c)))
  {
    DefaultNextWorkday(DayOf(at));
    DefaultOpening(FollowingWorkday(DayOf(at)));
    if IsWorkday(DEFAULT_WEEK, DayOf(at)) {
      DefaultOpening(DayOf(at));
    }
  }

  /** `human_expiry - at` under the default week and policy. */
  lemma DefaultHumanSpan(at: int)
    ensures ValidWeek(DEFAULT_WEEK)
    ensures 7 * 86_400 + 8 * 3_600 <= Deadline(DEFAULT_WEEK, at, DEFAULT_MINUTES) - at <= 10 * 86_400 + 59
  {
    ResumeGap(at);
    DefaultFromCursor(Resume(DEFAULT_WEEK, at));
  }

  /** Both bounds are met: opening time on day 4 (a Monday), and 16:59:01 on day 1 (a Friday). */
  lemma DefaultHumanSpanIsTight()
    ensures ValidWeek(DEFAULT_WEEK)
    ensures Deadline(DEFAULT_WEEK, 4 * 86_400 + 9 * 3_600, DEFAULT_MINUTES) - (4 * 86_400 + 9 * 3_600) ==
            7 * 86_400 + 8 * 3_600
    ensures Deadline(DEFAULT_WEEK, 86_400 + 61_141, DEFAULT_MINUTES) - (86_400 + 61_141) == 10 * 86_400 + 59
  {
    LowerBoundIsMet();
    UpperBoundIsMet();
  }

  lemma LowerBoundIsMet()
    ensures ValidWeek(DEFAULT_WEEK)
    ensures Deadline(DEFAULT_WEEK, 4 * 86_400 + 9 * 3_600, DEFAULT_MINUTES) - (4 * 86_400 + 9 * 3_600) ==
            7 * 86_400 + 8 * 3_600
  {
    DefaultOpening(4);
    DefaultFromCursor(OpenOf(DEFAULT_WEEK, 4));
  }

  lemma UpperBoundIsMet()
    ensures ValidWeek(DEFAULT_WEEK)
    ensures Deadline(DEFAULT_WEEK, 86_400 + 61_141, DEFAULT_MINUTES) - (86_400 + 61_141) == 10 * 86_400 + 59
  {
    var c := 86_400 + 61_141;
    assert IsWorking(DEFAULT_WEEK, c) && Available(DEFAULT_WEEK, c) == 0;
    DefaultCrossing(c);
    FullDays(4, 5, 480);
    FiveWorkdaysAreAWeek(4);
  }
}
