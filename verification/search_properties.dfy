/**
 * What the corrections of one pass promise: where each one moves the
 * candidate, and that the instants it jumps over do not meet the schedule.
 * From the second follows that the search reports the earliest occurrence,
 * except in the one case where the week-index jump is too long.
 */
module SearchProperties {
  import opened Calendar
  import opened Clock
  import opened CronSchedule

  /**
   * The seven-day jump is safe when the day-of-month field governs, when at
   * most one weekday is allowed, or when every week index 1 .. 5 is allowed
   * (then the jump never happens).
   */
  predicate JumpsAreSafe(c: CronData) {
    DayOfMonthGoverns(c) || |c.dayOfWeek| <= 1 || AllIndexes(c)
  }

  /** Every week index 1 .. 5 is allowed. */
  predicate AllIndexes(c: CronData) {
    forall k :: 1 <= k <= 5 ==> k in c.indexOfDay
  }

  /**
   * With every week index allowed, every day has an allowed index, counted
   * forwards or backwards: a day is the last of its weekday in its month
   * moved back by zero to four weeks.
   */
  lemma AllIndexesMatch(c: CronData, z: int)
    requires AllIndexes(c)
    ensures WeekIndexMatches(c, z)
  {
    if c.weekDayIndexReversed {
      var d := CivilFromDays(z);
      var last := LastSameWeekday(z);
      assert DaysFromCivil(Date(d.year, d.month, 1)) <= z <= DaysFromCivil(Date(d.year, d.month, DaysInMonth(d.year, d.month)));
      if z > last {
        WeekdayPeriod(last, z - last);
        assert false;
      }
      WeekdayPeriod(z, last - z);
      var k := (last - z) / 7 + 1;
      assert 1 <= k <= 5 && z == last - 7 * (k - 1);
      assert k in c.indexOfDay;
    }
  }

  /** An instant from the start of the second of `t` onwards lies on day `DayOf(t)` or later. */
  lemma NotBeforeDay(t: int, u: int)
    requires FloorToSecond(t) <= u
    ensures DayOf(t) <= DayOf(u)
  {
    FloorToSecondKeepsView(t);
    DayOfMonotone(FloorToSecond(t), u);
  }

  /** A midnight is at 00:00:00. */
  lemma MidnightView(z: int)
    ensures DayOf(Midnight(z)) == z
    ensures Hour(Midnight(z)) == 0 && Minute(Midnight(z)) == 0 && Second(Midnight(z)) == 0
  {
    ViewOfTimeOfDay(z, 0, 0);
  }

  // ---------------------------------------------------------------------
  // Where each correction moves the candidate

  /** A disallowed year moves the candidate to 00:00:00 on the 1st of January of the next year. */
  lemma YearCorrection(c: CronData, t: int)
    requires DateOf(t).year !in c.years
    ensures Pass(c, t).Advance? && Pass(c, t).dateChanged
    ensures DateOf(Pass(c, t).next) == Date(DateOf(t).year + 1, 1, 1)
    ensures Hour(Pass(c, t).next) == 0 && Minute(Pass(c, t).next) == 0 && Second(Pass(c, t).next) == 0
  {
    var newYear := Date(DateOf(t).year + 1, 1, 1);
    CivilFromDaysFromCivil(newYear);
    MidnightView(DaysFromCivil(newYear));
  }

  /**
   * A disallowed month (in an allowed year) moves the candidate to 00:00:00
   * on the 1st of the next month, December rolling over into January.
   */
  lemma MonthCorrection(c: CronData, t: int)
    requires DateOf(t).year in c.years && DateOf(t).month !in c.months
    ensures Pass(c, t).Advance? && Pass(c, t).dateChanged
    ensures DateOf(Pass(c, t).next) == FirstOfNextMonth(DateOf(t))
    ensures Hour(Pass(c, t).next) == 0 && Minute(Pass(c, t).next) == 0 && Second(Pass(c, t).next) == 0
  {
    var first := FirstOfNextMonth(DateOf(t));
    CivilFromDaysFromCivil(first);
    MidnightView(DaysFromCivil(first));
  }

  /**
   * A disallowed day of the month (when that field governs), or a
   * disallowed weekday (when it does not), moves the candidate to the next
   * midnight.
   */
  lemma DayCorrection(c: CronData, t: int)
    requires DateOf(t).year in c.years && DateOf(t).month in c.months
    requires if DayOfMonthGoverns(c) then EffectiveDay(c, DateOf(t)) !in c.dayOfMonth
             else Weekday(DayOf(t)) !in c.dayOfWeek
    ensures Pass(c, t).Advance? && Pass(c, t).dateChanged
    ensures DayOf(Pass(c, t).next) == DayOf(t) + 1
    ensures Hour(Pass(c, t).next) == 0 && Minute(Pass(c, t).next) == 0 && Second(Pass(c, t).next) == 0
  {
    MidnightView(DayOf(t) + 1);
  }

  /**
   * An allowed weekday whose occurrence index is not allowed moves the
   * candidate to the same weekday one week later, at midnight.
   */
  lemma WeekCorrection(c: CronData, t: int)
    requires DateOf(t).year in c.years && DateOf(t).month in c.months
    requires !DayOfMonthGoverns(c) && Weekday(DayOf(t)) in c.dayOfWeek && !WeekIndexMatches(c, DayOf(t))
    ensures Pass(c, t).Advance? && Pass(c, t).dateChanged
    ensures DayOf(Pass(c, t).next) == DayOf(t) + 7
    ensures Weekday(DayOf(Pass(c, t).next)) == Weekday(DayOf(t))
    ensures Hour(Pass(c, t).next) == 0 && Minute(Pass(c, t).next) == 0 && Second(Pass(c, t).next) == 0
  {
    MidnightView(DayOf(t) + 7);
    WeekdayPeriod(DayOf(t), 7);
  }

  /**
   * On a matching date, a disallowed hour moves the candidate to minute 0,
   * second 0 of the next hour, which after 23 h is 00:00:00 of the next day;
   * the fraction of a second is kept.
   */
  lemma HourCorrection(c: CronData, t: int)
    requires DateOf(t).year in c.years && DateOf(t).month in c.months && DayMatches(c, DayOf(t))
    requires Hour(t) !in c.hours
    ensures Pass(c, t).Advance? && !Pass(c, t).dateChanged
    ensures Minute(Pass(c, t).next) == 0 && Second(Pass(c, t).next) == 0
    ensures Pass(c, t).next % TicksPerSecond == t % TicksPerSecond
    ensures Hour(t) < 23 ==> DayOf(Pass(c, t).next) == DayOf(t) && Hour(Pass(c, t).next) == Hour(t) + 1
    ensures Hour(t) == 23 ==> DayOf(Pass(c, t).next) == DayOf(t) + 1 && Hour(Pass(c, t).next) == 0
  {
    NextHourView(t);
  }

  /**
   * On a matching date and hour, a disallowed minute moves the candidate to
   * second 0 of the next minute, which after minute 59 is the start of the
   * next hour; the fraction of a second is kept.
   */
  lemma MinuteCorrection(c: CronData, t: int)
    requires DateOf(t).year in c.years && DateOf(t).month in c.months && DayMatches(c, DayOf(t))
    requires Hour(t) in c.hours && Minute(t) !in c.minutes
    ensures Pass(c, t).Advance? && !Pass(c, t).dateChanged
    ensures Second(Pass(c, t).next) == 0
    ensures Pass(c, t).next % TicksPerSecond == t % TicksPerSecond
    ensures Minute(t) < 59 ==> DayOf(Pass(c, t).next) == DayOf(t) && Hour(Pass(c, t).next) == Hour(t)
                               && Minute(Pass(c, t).next) == Minute(t) + 1
    ensures Minute(t) == 59 ==> FloorToSecond(Pass(c, t).next) == Midnight(DayOf(t)) + (Hour(t) + 1) * TicksPerHour
  {
    NextMinuteView(t);
  }

  /**
   * On a matching date, hour and minute, a disallowed second moves the
   * candidate one second on, fraction kept.
   */
  lemma SecondCorrection(c: CronData, t: int)
    requires DateOf(t).year in c.years && DateOf(t).month in c.months && DayMatches(c, DayOf(t))
    requires Hour(t) in c.hours && Minute(t) in c.minutes && Second(t) !in c.seconds
    ensures Pass(c, t).Advance? && !Pass(c, t).dateChanged
    ensures Seconds(Pass(c, t).next) == Seconds(t) + 1
    ensures Pass(c, t).next % TicksPerSecond == t % TicksPerSecond
  {
    FloorToSecondShift(t, 1);
  }

  // ---------------------------------------------------------------------
  // The instants each correction jumps over

  /** A disallowed year is left for the 1st of January of the next year, and nothing in between matches. */
  lemma SkipYear(c: CronData, t: int, u: int)
    requires DateOf(t).year !in c.years
    requires FloorToSecond(t) <= u < Midnight(DaysFromCivil(Date(DateOf(t).year + 1, 1, 1)))
    ensures !Satisfies(c, u)
  {
    NotBeforeDay(t, u);
    BeforeMidnight(u, DaysFromCivil(Date(DateOf(t).year + 1, 1, 1)));
    SameYearUntilNextYear(DayOf(t), DayOf(u));
  }

  /** A disallowed month is left for the 1st of the next month, and nothing in between matches. */
  lemma SkipMonth(c: CronData, t: int, u: int)
    requires DateOf(t).month !in c.months
    requires FloorToSecond(t) <= u < Midnight(DaysFromCivil(FirstOfNextMonth(DateOf(t))))
    ensures !Satisfies(c, u)
  {
    NotBeforeDay(t, u);
    BeforeMidnight(u, DaysFromCivil(FirstOfNextMonth(DateOf(t))));
    SameMonthUntilNextMonth(DayOf(t), DayOf(u));
  }

  /** A day that does not match is left for the next midnight, and nothing in between matches. */
  lemma SkipDay(c: CronData, t: int, u: int)
    requires !DayMatches(c, DayOf(t))
    requires FloorToSecond(t) <= u < Midnight(DayOf(t) + 1)
    ensures !Satisfies(c, u)
  {
    NotBeforeDay(t, u);
    BeforeMidnight(u, DayOf(t) + 1);
  }

  /** A day of at most one allowed weekday holds the only weekday allowed. */
  lemma OnlyWeekday(weekdays: set<int>, w: int, v: int)
    requires |weekdays| <= 1 && w in weekdays && v in weekdays
    ensures v == w
  {
    var others := weekdays - {w};
    assert |others| == |weekdays| - 1;
    assert others == {};
  }

  /**
   * A day of an allowed weekday with the wrong index is left for the same
   * weekday a week later. When it is the only weekday allowed, nothing in
   * between matches.
   */
  lemma SkipWeek(c: CronData, t: int, u: int)
    requires !DayOfMonthGoverns(c) && |c.dayOfWeek| <= 1
    requires Weekday(DayOf(t)) in c.dayOfWeek && !WeekIndexMatches(c, DayOf(t))
    requires FloorToSecond(t) <= u < Midnight(DayOf(t) + 7)
    ensures !Satisfies(c, u)
  {
    var z, w := DayOf(t), DayOf(u);
    NotBeforeDay(t, u);
    BeforeMidnight(u, z + 7);
    if w != z {
      WeekdayPeriod(z, w - z);
      if Weekday(w) in c.dayOfWeek {
        OnlyWeekday(c.dayOfWeek, Weekday(z), Weekday(w));
      }
    }
  }

  /** A disallowed hour is left for the start of the next hour, and nothing in between matches. */
  lemma SkipHour(c: CronData, t: int, u: int)
    requires Hour(t) !in c.hours
    requires FloorToSecond(t) <= u < Midnight(DayOf(t)) + (Hour(t) + 1) * TicksPerHour
    ensures !Satisfies(c, u)
  {
    TimeOfDayDecomposition(t);
    FloorToSecondSubtractsRemainder(t);
    WithinDay(u, DayOf(t), Hour(t) * 3600, (Hour(t) + 1) * 3600);
    assert Hour(u) == Hour(t);
  }

  /** A disallowed minute is left for the start of the next minute, and nothing in between matches. */
  lemma SkipMinute(c: CronData, t: int, u: int)
    requires Hour(t) in c.hours && Minute(t) !in c.minutes
    requires FloorToSecond(t) <= u < Midnight(DayOf(t)) + Hour(t) * TicksPerHour + (Minute(t) + 1) * TicksPerMinute
    ensures !Satisfies(c, u)
  {
    TimeOfDayDecomposition(t);
    FloorToSecondSubtractsRemainder(t);
    var lo := Hour(t) * 3600 + Minute(t) * 60;
    WithinDay(u, DayOf(t), lo, lo + 60);
    var r := SecondOfDay(u);
    assert r / 3600 == Hour(t) && r % 3600 == Minute(t) * 60 + (r - lo);
    assert Minute(u) == Minute(t);
  }

  /** A disallowed second is left for the next second, and nothing in between matches. */
  lemma SkipSecond(c: CronData, t: int, u: int)
    requires Second(t) !in c.seconds
    requires FloorToSecond(t) <= u < FloorToSecond(t) + TicksPerSecond
    ensures !Satisfies(c, u)
  {
    assert FloorToSecond(u) == FloorToSecond(t);
    SameSecondSameView(t, u);
  }

  /**
   * The instants a pass jumps over, up to the whole second it lands in, do
   * not meet the schedule (when the seven-day jump is safe).
   */
  lemma PassSkipsNoMatch(c: CronData, t: int, u: int)
    requires JumpsAreSafe(c)
    requires Pass(c, t).Advance?
    requires FloorToSecond(t) <= u < FloorToSecond(Pass(c, t).next)
    ensures !Satisfies(c, u)
  {
    var next := Pass(c, t).next;
    var z, d := DayOf(t), DateOf(t);
    FloorToSecondSubtractsRemainder(next);
    if d.year !in c.years {
      SkipYear(c, t, u);
    } else if d.month !in c.months {
      SkipMonth(c, t, u);
    } else if !DayMatches(c, z) && (DayOfMonthGoverns(c) || Weekday(z) !in c.dayOfWeek) {
      SkipDay(c, t, u);
    } else if !DayMatches(c, z) {
      if AllIndexes(c) {
        AllIndexesMatch(c, z);
      }
      SkipWeek(c, t, u);
    } else if Hour(t) !in c.hours {
      NextHourStart(t);
      SkipHour(c, t, u);
    } else if Minute(t) !in c.minutes {
      NextMinuteStart(t);
      SkipMinute(c, t, u);
    } else {
      FloorToSecondShift(t, 1);
      SkipSecond(c, t, u);
    }
  }

  /** An instant the search jumps over does not meet the schedule. */
  lemma {:induction false} SearchSkipsNoMatchAt(c: CronData, t: int, budget: nat, u: int)
    requires JumpsAreSafe(c)
    requires FloorToSecond(t) <= u < FloorToSecond(Search(c, t, budget).1)
    decreases budget
    ensures !Satisfies(c, u)
  {
    if budget > 0 {
      SearchStep(c, t, budget);
      if Pass(c, t).Advance? {
        if u < FloorToSecond(Pass(c, t).next) {
          PassSkipsNoMatch(c, t, u);
        } else {
          SearchSkipsNoMatchAt(c, Pass(c, t).next, budget - 1, u);
        }
      }
    }
  }

  /** Nothing the whole search jumps over meets the schedule. */
  lemma SearchSkipsNoMatch(c: CronData, t: int, budget: nat)
    requires JumpsAreSafe(c)
    ensures forall u :: FloorToSecond(t) <= u < FloorToSecond(Search(c, t, budget).1) ==> !Satisfies(c, u)
  {
    forall u | FloorToSecond(t) <= u < FloorToSecond(Search(c, t, budget).1)
      ensures !Satisfies(c, u)
    {
      SearchSkipsNoMatchAt(c, t, budget, u);
    }
  }

  /**
   * When the seven-day jump is safe, a reported occurrence is the earliest
   * instant, from the start of the second of `from` on, that meets the
   * schedule; and when none is reported, none exists up to where the
   * search stopped.
   */
  lemma NextOccurrenceIsEarliest(c: CronData, from: int)
    requires JumpsAreSafe(c)
    ensures NextOccurrence(c, from).0 ==> Satisfies(c, NextOccurrence(c, from).1)
    ensures forall u :: FloorToSecond(from) <= u < NextOccurrence(c, from).1 ==> !Satisfies(c, u)
  {
    NextOccurrenceSatisfies(c, from);
    SearchSkipsNoMatch(c, from, MaxIterations - 1);
  }

  // ---------------------------------------------------------------------
  // Whole-search consequences

  /** Two schedules whose passes agree everywhere have the same search. */
  lemma {:induction false} SearchFollowsPass(c1: CronData, c2: CronData, t: int, budget: nat)
    requires forall u :: Pass(c1, u) == Pass(c2, u)
    decreases budget
    ensures Search(c1, t, budget) == Search(c2, t, budget)
  {
    if budget > 0 {
      SearchStep(c1, t, budget);
      SearchStep(c2, t, budget);
      if Pass(c1, t).Advance? {
        SearchFollowsPass(c1, c2, Pass(c1, t).next, budget - 1);
      }
    }
  }

  /**
   * A restricted day-of-month field takes precedence: the weekday, the
   * week index and its direction are then ignored altogether.
   */
  lemma DayOfMonthTakesPrecedence(c: CronData, from: int, weekdays: set<int>, indexes: set<int>, reversed: bool)
    requires DayOfMonthGoverns(c)
    ensures NextOccurrence(c.(dayOfWeek := weekdays, indexOfDay := indexes, weekDayIndexReversed := reversed), from)
         == NextOccurrence(c, from)
  {
    var c2 := c.(dayOfWeek := weekdays, indexOfDay := indexes, weekDayIndexReversed := reversed);
    SearchFollowsPass(c, c2, from, MaxIterations - 1);
  }

  /**
   * An unrestricted day-of-month field leaves the day to the weekday field:
   * which days of the month are listed, and from which end they count, is
   * then ignored.
   */
  lemma WeekdayTakesPrecedence(c: CronData, from: int, days: set<int>, reversed: bool)
    requires !DayOfMonthGoverns(c) && |days| == |c.dayOfMonth|
    ensures NextOccurrence(c.(dayOfMonth := days, monthDayIndexReversed := reversed), from)
         == NextOccurrence(c, from)
  {
    var c2 := c.(dayOfMonth := days, monthDayIndexReversed := reversed);
    SearchFollowsPass(c, c2, from, MaxIterations - 1);
  }

  /** A reported occurrence is its own next occurrence: searching again from it finds it again. */
  lemma NextOccurrenceIdempotent(c: CronData, from: int)
    requires NextOccurrence(c, from).0
    ensures NextOccurrence(c, NextOccurrence(c, from).1) == NextOccurrence(c, from)
  {
    var r := NextOccurrence(c, from).1;
    NextOccurrenceSatisfies(c, from);
    NextOccurrenceFixedPoint(c, r);
    FloorToSecondSubtractsRemainder(r);
  }

  /**
   * A day of the month that February never has (the 30th or 31st, counted
   * from the start) is never met in a February-only schedule, so the search
   * reports no occurrence.
   */
  lemma NonexistentDayNeverFound(c: CronData, from: int)
    requires DayOfMonthGoverns(c) && !c.monthDayIndexReversed && c.months == {2}
    requires forall day :: day in c.dayOfMonth ==> day >= 30
    ensures forall t :: !Satisfies(c, t)
    ensures !NextOccurrence(c, from).0
  {
    forall t ensures !Satisfies(c, t) {
      var d := DateOf(t);
      if d.month == 2 {
        assert d.day <= 29;
      }
    }
    NextOccurrenceSatisfies(c, from);
  }

  /** Day 1 counted from the end of the month (`L`) is the last day of the month. */
  lemma ReversedFirstIsLastDay(c: CronData, z: int)
    requires DayOfMonthGoverns(c) && c.monthDayIndexReversed && c.dayOfMonth == {1}
    ensures DayMatches(c, z) <==> CivilFromDays(z).day == DaysInMonth(CivilFromDays(z).year, CivilFromDays(z).month)
  {
  }

  /**
   * Week index 1 counted from the end of the month (`5L`) is the last
   * occurrence of the weekday in its month: no later day of the month has
   * the same weekday.
   */
  lemma ReversedIndexOneIsLastWeekday(c: CronData, z: int)
    requires c.weekDayIndexReversed && c.indexOfDay == {1}
    ensures WeekIndexMatches(c, z) <==> CivilFromDays(z).day + 7 > DaysInMonth(CivilFromDays(z).year, CivilFromDays(z).month)
  {
    var d := CivilFromDays(z);
    var last := LastSameWeekday(z);
    var first := DaysFromCivil(Date(d.year, d.month, 1));
    assert z == first + d.day - 1;
    if d.day + 7 > DaysInMonth(d.year, d.month) {
      if z < last {
        WeekdayPeriod(z, last - z);
      } else if last < z {
        WeekdayPeriod(last, z - last);
      }
      assert 1 in c.indexOfDay && z == last - 7 * (1 - 1);
    }
  }
}
