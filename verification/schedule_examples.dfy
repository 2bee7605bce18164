/**
 * Particular schedules: every day at midnight across a day boundary, the
 * last day of February, a week-index jump that passes over a matching day,
 * and the rounding of an instant before 1970 to the whole second.
 */
module ScheduleExamples {
  import opened Calendar
  import opened Clock
  import opened CronSchedule
  import opened SearchProperties

  /**
   * The value assumed for `CronData::value_of(DayOfMonth::Last)`: a
   * day-of-month field holding all of 1 .. 31 counts as unrestricted.
   */
  const LastDayOfMonthValue: int := 31

  /** `x` lies between `lo` and `hi`; names the range so that the set below has a trigger. */
  predicate Within(x: int, lo: int, hi: int) {
    lo <= x <= hi
  }

  /** The integers `lo` .. `hi`: every value of a field that runs from `lo` to `hi`. */
  function Interval(lo: int, hi: int): (r: set<int>)
    ensures forall x :: x in r <==> lo <= x <= hi
  {
    set x | lo <= x <= hi && Within(x, lo, hi)
  }

  /** The field 1 .. n has n values. */
  lemma {:induction false} IntervalSize(n: nat)
    ensures |Interval(1, n)| == n
  {
    if n > 0 {
      IntervalSize(n - 1);
      assert Interval(1, n) == Interval(1, n - 1) + {n};
    }
  }

  /** Every value of every field allowed; the day-of-week field is `?`. */
  function EveryField(): (c: CronData)
    ensures !DayOfMonthGoverns(c)
  {
    IntervalSize(31);
    CronData(
      years := Interval(1970, 2099),
      months := Interval(1, 12),
      dayOfMonth := Interval(1, 31),
      dayOfWeek := Interval(0, 6),
      indexOfDay := Interval(1, 5),
      hours := Interval(0, 23),
      minutes := Interval(0, 59),
      seconds := Interval(0, 59),
      monthDayIndexReversed := false,
      weekDayIndexReversed := false,
      lastDayOfMonthValue := LastDayOfMonthValue)
  }

  /** `0 0 0 * * ?`: every day at midnight. */
  function DailyAtMidnight(): (c: CronData)
    ensures !DayOfMonthGoverns(c) && c.hours == {0} && c.minutes == {0} && c.seconds == {0}
  {
    EveryField().(hours := {0}, minutes := {0}, seconds := {0})
  }

  /**
   * From 23:59:59 of any day in the years of the schedule, a
   * daily-at-midnight schedule moves to 00:00:00 of the next day in two
   * passes: the hour correction reaches midnight, which then matches.
   */
  lemma DailyFromLastSecond(z: int)
    requires 1970 <= CivilFromDays(z).year <= 2099 && 1970 <= CivilFromDays(z + 1).year <= 2099
    ensures NextOccurrence(DailyAtMidnight(), Midnight(z) + 86399 * TicksPerSecond) == (true, Midnight(z + 1))
  {
    var c := DailyAtMidnight();
    var from, next := Midnight(z) + 86399 * TicksPerSecond, Midnight(z + 1);
    LastHourCorrected(z);
    MidnightMatches(z + 1);
    PassFinishedIffSatisfies(c, next);
    SearchStep(c, from, MaxIterations - 1);
    SearchStep(c, next, MaxIterations - 2);
    FloorToSecondSubtractsRemainder(next);
  }

  /**
   * The daily schedule allows every weekday and every week index, so its
   * seven-day jump never happens and its result is the earliest midnight.
   */
  lemma DailyIsEarliest(from: int)
    ensures JumpsAreSafe(DailyAtMidnight())
    ensures forall u :: (FloorToSecond(from) <= u < NextOccurrence(DailyAtMidnight(), from).1
                         ==> !Satisfies(DailyAtMidnight(), u))
  {
    NextOccurrenceIsEarliest(DailyAtMidnight(), from);
  }

  /** At 23:59:59 the hour is wrong, and the hour correction lands on the next midnight. */
  lemma LastHourCorrected(z: int)
    requires 1970 <= CivilFromDays(z).year <= 2099
    ensures Pass(DailyAtMidnight(), Midnight(z) + 86399 * TicksPerSecond) == Advance(Midnight(z + 1), false)
  {
    LastSecondOfDay(z);
  }

  /** Every midnight in the years of the schedule meets it. */
  lemma MidnightMatches(z: int)
    requires 1970 <= CivilFromDays(z).year <= 2099
    ensures Satisfies(DailyAtMidnight(), Midnight(z))
  {
    MidnightView(z);
  }

  /** `0 0 0 L * ?`: midnight on the last day of every month. */
  function LastDayOfMonth(): (c: CronData)
    ensures DayOfMonthGoverns(c) && c.monthDayIndexReversed && c.dayOfMonth == {1}
  {
    DailyAtMidnight().(dayOfMonth := {1}, monthDayIndexReversed := true)
  }

  /** In February the last day is the 29th in a leap year and the 28th otherwise. */
  lemma LastDayOfFebruary(z: int)
    requires CivilFromDays(z).month == 2
    ensures DayMatches(LastDayOfMonth(), z) <==> CivilFromDays(z).day == if IsLeapYear(CivilFromDays(z).year) then 29 else 28
  {
  }

  /**
   * `0 0 0 ? * MON#2,TUE#2`: Mondays and Tuesdays with week index 2 (the
   * index set is shared by all the allowed weekdays).
   */
  function SecondMondayOrTuesday(): (c: CronData)
    ensures !DayOfMonthGoverns(c) && c.dayOfWeek == {1, 2} && c.indexOfDay == {2}
  {
    DailyAtMidnight().(dayOfWeek := {1, 2}, indexOfDay := {2})
  }

  /**
   * With two weekdays allowed, the seven-day jump can pass over a matching
   * day: from Monday 1970-09-07 (the first Monday of the month) the pass
   * moves to Monday 1970-09-14, past Tuesday 1970-09-08, the second Tuesday,
   * which meets the schedule.
   */
  lemma SevenDayJumpCanSkip()
    ensures var c, z := SecondMondayOrTuesday(), DaysFromCivil(Date(1970, 9, 7));
      Pass(c, Midnight(z)) == Advance(Midnight(z + 7), true)
      && Satisfies(c, Midnight(z + 1)) && Midnight(z + 1) < Midnight(z + 7)
  {
    var c, z := SecondMondayOrTuesday(), DaysFromCivil(Date(1970, 9, 7));
    assert z == 249;
    assert z + 1 == DaysFromCivil(Date(1970, 9, 8));
    MidnightOfDate(Date(1970, 9, 7));
    MidnightOfDate(Date(1970, 9, 8));
    assert !WeekIndexMatches(c, z) by {
      assert WeekdayIndex(7) == 1;
    }
    assert WeekIndexMatches(c, z + 1) by {
      assert WeekdayIndex(8) == 2;
    }
  }

  /** The last second of day `z` shows 23:59:59 on that day. */
  lemma LastSecondOfDay(z: int)
    ensures var t := Midnight(z) + 86399 * TicksPerSecond;
      DayOf(t) == z && Hour(t) == 23 && Minute(t) == 59 && Second(t) == 59
  {
    ViewOfTimeOfDay(z, 86399, 0);
  }

  /** The midnight that starts a date shows that date and 00:00:00. */
  lemma MidnightOfDate(d: Date)
    requires ValidDate(d)
    ensures DateOf(Midnight(DaysFromCivil(d))) == d
    ensures Hour(Midnight(DaysFromCivil(d))) == 0 && Minute(Midnight(DaysFromCivil(d))) == 0
    ensures Second(Midnight(DaysFromCivil(d))) == 0
  {
    MidnightView(DaysFromCivil(d));
    CivilFromDaysFromCivil(d);
  }

  /** `59 59 23 * * ? 1969`: the last second of every day of 1969. */
  function EveryDayOf1969AtLastSecond(): (c: CronData)
    ensures !DayOfMonthGoverns(c)
  {
    EveryField().(years := {1969}, hours := {23}, minutes := {59}, seconds := {59})
  }

  /**
   * Less than a second before 1970 the schedule is met. Rounded toward zero
   * as written, the result is 1970-01-01 00:00:00, which does not meet the
   * schedule; rounded down, it is 1969-12-31 23:59:59, which does.
   */
  lemma TruncationBreaksOccurrence(from: int)
    requires -TicksPerSecond < from < 0
    ensures var c := EveryDayOf1969AtLastSecond();
      NextOccurrenceAsWritten(c, from) == (true, 0) && !Satisfies(c, 0)
      && NextOccurrence(c, from) == (true, -TicksPerSecond) && Satisfies(c, -TicksPerSecond)
  {
    var c := EveryDayOf1969AtLastSecond();
    FirstPassFinds(from);
    LastSecondOf1969(-TicksPerSecond);
    ViewOfTimeOfDay(0, 0, 0);
    FloorToSecondWithin(from, -1);
    FloorToSecondSubtractsRemainder(from);
  }

  /** The search stops on `from` itself, in its first pass. */
  lemma FirstPassFinds(from: int)
    requires -TicksPerSecond < from < 0
    ensures Search(EveryDayOf1969AtLastSecond(), from, MaxIterations - 1) == (true, from)
  {
    var c := EveryDayOf1969AtLastSecond();
    LastSecondOf1969(from);
    PassFinishedIffSatisfies(c, from);
    SearchStep(c, from, MaxIterations - 1);
  }

  /** Every instant of the second before 1970 meets the schedule. */
  lemma LastSecondOf1969(t: int)
    requires -TicksPerSecond <= t < 0
    ensures Satisfies(EveryDayOf1969AtLastSecond(), t)
  {
    var c := EveryDayOf1969AtLastSecond();
    ViewOfTimeOfDay(-1, 86399, t + TicksPerSecond);
    assert DayOf(t) == -1 && SecondOfDay(t) == 86399;
    YearOfDay(DayOf(t), 1969);
    assert DayMatches(c, DayOf(t));
    assert Hour(t) == 23 && Minute(t) == 59 && Second(t) == 59;
  }
}
