/**
 * The next-occurrence search of a cron schedule: starting from an instant,
 * inspect the candidate from the year down to the second, apply the first
 * correction that is needed (each one moves the candidate forward), and
 * stop when every field matches or the iteration budget runs out.
 */
module CronSchedule {
  import opened Calendar
  import opened Clock

  /**
   * The allowed values of each field of a parsed schedule, and the two
   * "count from the end of the month" flags. `lastDayOfMonthValue` is
   * `CronData::value_of(DayOfMonth::Last)`, the set size at which the
   * day-of-month field counts as unrestricted.
   */
  datatype CronData = CronData(
    years: set<int>,
    months: set<int>,
    dayOfMonth: set<int>,
    dayOfWeek: set<int>,
    indexOfDay: set<int>,
    hours: set<int>,
    minutes: set<int>,
    seconds: set<int>,
    monthDayIndexReversed: bool,
    weekDayIndexReversed: bool,
    lastDayOfMonthValue: int)

  /** `std::numeric_limits<uint16_t>::max()`, the iteration budget. */
  const MaxIterations: int := 0xFFFF

  /** A restricted day-of-month field takes precedence over the day-of-week field. */
  predicate DayOfMonthGoverns(c: CronData) {
    |c.dayOfMonth| != c.lastDayOfMonthValue
  }

  /** The day of the month as the day-of-month field counts it. */
  function EffectiveDay(c: CronData, d: Date): int
    requires ValidDate(d)
  {
    if c.monthDayIndexReversed then ReversedDay(d.year, d.month, d.day) else d.day
  }

  /** The day number of the last day in the month of day `z` with the weekday of `z`. */
  function LastSameWeekday(z: int): int {
    var d := CivilFromDays(z);
    LastWeekdayOfMonth(d.year, d.month, Weekday(z))
  }

  /** Day `z` is day `last` moved back by k-1 weeks, for an allowed index k. */
  predicate ReversedIndexMatches(indexes: set<int>, z: int, last: int) {
    exists k :: k in indexes && z == last - 7 * (k - 1)
  }

  predicate WeekIndexMatches(c: CronData, z: int) {
    if c.weekDayIndexReversed then ReversedIndexMatches(c.indexOfDay, z, LastSameWeekday(z))
    else WeekdayIndex(CivilFromDays(z).day) in c.indexOfDay
  }

  /** The day-level constraint, under the precedence rule. */
  predicate DayMatches(c: CronData, z: int) {
    if DayOfMonthGoverns(c) then EffectiveDay(c, CivilFromDays(z)) in c.dayOfMonth
    else Weekday(z) in c.dayOfWeek && WeekIndexMatches(c, z)
  }

  /** Instant `t` meets every field of the schedule. */
  predicate Satisfies(c: CronData, t: int) {
    var d := DateOf(t);
    d.year in c.years && d.month in c.months && DayMatches(c, DayOf(t))
    && Hour(t) in c.hours && Minute(t) in c.minutes && Second(t) in c.seconds
  }

  /** What one pass of the search does with the candidate. */
  datatype Step = Finished | Advance(next: int, dateChanged: bool)

  /** One pass over the time-of-day fields, reached only when the date did not change. */
  function TimeOfDayPass(c: CronData, t: int): (s: Step)
    ensures s.Advance? ==> t < s.next && !s.dateChanged
  {
    if Hour(t) !in c.hours then
      Advance(t + TicksPerHour - Minute(t) * TicksPerMinute - Second(t) * TicksPerSecond, false)
    else if Minute(t) !in c.minutes then
      Advance(t + TicksPerMinute - Second(t) * TicksPerSecond, false)
    else if Second(t) !in c.seconds then
      Advance(t + TicksPerSecond, false)
    else
      Finished
  }

  /**
   * One pass of the search loop: at most one correction, from the coarsest
   * field down. A date correction lands on a midnight.
   */
  function Pass(c: CronData, t: int): (s: Step)
    ensures s.Advance? ==> t < s.next
    ensures s.Advance? && s.dateChanged ==> s.next == Midnight(DayOf(s.next))
  {
    var z := DayOf(t);
    var d := CivilFromDays(z);
    BeforeMidnight(t, z + 1);
    if d.year !in c.years then
      DaysFromCivilOrdered(d, Date(d.year + 1, 1, 1));
      Advance(Midnight(DaysFromCivil(Date(d.year + 1, 1, 1))), true)
    else if d.month !in c.months then
      DaysFromCivilOrdered(d, FirstOfNextMonth(d));
      Advance(Midnight(DaysFromCivil(FirstOfNextMonth(d))), true)
    else if DayOfMonthGoverns(c) then
      if EffectiveDay(c, d) !in c.dayOfMonth then Advance(Midnight(z + 1), true)
      else TimeOfDayPass(c, t)
    else if Weekday(z) !in c.dayOfWeek then
      Advance(Midnight(z + 1), true)
    else if !WeekIndexMatches(c, z) then
      Advance(Midnight(z + 7), true)
    else
      TimeOfDayPass(c, t)
  }

  /** A pass finds nothing to correct exactly when the candidate meets every field. */
  lemma PassFinishedIffSatisfies(c: CronData, t: int)
    ensures Pass(c, t) == Finished <==> Satisfies(c, t)
  {
  }

  /**
   * The loop run with a budget of passes: whether a pass found nothing to
   * correct, and the candidate it stopped at, which is never earlier than
   * where it started. No budget left ends the search unsuccessfully.
   */
  function Search(c: CronData, t: int, budget: nat): (r: (bool, int))
    decreases budget, 1
    ensures t <= r.1
  {
    if budget == 0 then (false, t) else SearchPass(c, t, budget)
  }

  /** One pass on the candidate, paid from the budget; the search goes on with what is left. */
  function SearchPass(c: CronData, t: int, budget: nat): (r: (bool, int))
    requires 0 < budget
    decreases budget, 0
    ensures t <= r.1
  {
    match Pass(c, t)
    case Finished => (true, t)
    case Advance(next, _) => Search(c, next, budget - 1)
  }

  /** One pass of the search, unfolded. */
  lemma SearchStep(c: CronData, t: int, budget: nat)
    requires 0 < budget
    ensures Pass(c, t) == Finished ==> Search(c, t, budget) == (true, t)
    ensures Pass(c, t).Advance? ==> Search(c, t, budget) == Search(c, Pass(c, t).next, budget - 1)
  {
    assert Search(c, t, budget) == SearchPass(c, t, budget);
  }

  /** When the search reports success, the candidate meets every field. */
  lemma {:induction false} SearchFindsMatch(c: CronData, t: int, budget: nat)
    decreases budget
    ensures Search(c, t, budget).0 ==> Satisfies(c, Search(c, t, budget).1)
  {
    if budget > 0 {
      SearchStep(c, t, budget);
      PassFinishedIffSatisfies(c, t);
      if Pass(c, t).Advance? {
        SearchFindsMatch(c, Pass(c, t).next, budget - 1);
      }
    }
  }

  /** Whether the schedule is met depends only on the whole second. */
  lemma SatisfiesPerSecond(c: CronData, t: int, u: int)
    requires FloorToSecond(t) == FloorToSecond(u)
    ensures Satisfies(c, t) <==> Satisfies(c, u)
  {
    SameSecondSameView(t, u);
  }

  /**
   * `calculate_from`: the search with the budget `--max_iterations > 0`
   * allows (MaxIterations - 1 passes), and the candidate rounded down to
   * the whole second.
   */
  function NextOccurrence(c: CronData, from: int): (r: (bool, int))
    ensures r.1 % TicksPerSecond == 0 && FloorToSecond(from) <= r.1
  {
    var r := Search(c, from, MaxIterations - 1);
    FloorToSecondMonotone(from, r.1);
    (r.0, FloorToSecond(r.1))
  }

  /**
   * `calculate_from` with the fraction of a second removed as written: C++
   * `%` on a negative duration truncates toward zero, so a candidate before
   * 1970 with a fraction is moved up to the next whole second instead of
   * down. It agrees with NextOccurrence from 1970 on.
   */
  function NextOccurrenceAsWritten(c: CronData, from: int): (r: (bool, int))
    ensures r.0 == NextOccurrence(c, from).0 && r.1 % TicksPerSecond == 0
    ensures FloorToSecond(from) <= r.1
    ensures Search(c, from, MaxIterations - 1).1 >= 0 ==> r == NextOccurrence(c, from)
  {
    var s := Search(c, from, MaxIterations - 1);
    FloorToSecondMonotone(from, s.1);
    (s.0, TruncateTowardZero(s.1))
  }

  /** A reported occurrence meets every field of the schedule. */
  lemma NextOccurrenceSatisfies(c: CronData, from: int)
    ensures NextOccurrence(c, from).0 ==> Satisfies(c, NextOccurrence(c, from).1)
  {
    var curr := Search(c, from, MaxIterations - 1).1;
    SearchFindsMatch(c, from, MaxIterations - 1);
    SatisfiesPerSecond(c, curr, FloorToSecond(curr));
  }

  /**
   * When no year before 1970 is allowed, a reported occurrence is never
   * before 1970, and the two ways of removing the fraction agree.
   */
  lemma AsWrittenAgreesFrom1970(c: CronData, from: int)
    requires forall y :: y in c.years ==> 1970 <= y
    ensures NextOccurrence(c, from).0 ==> NextOccurrenceAsWritten(c, from) == NextOccurrence(c, from)
  {
    var s := Search(c, from, MaxIterations - 1);
    SearchFindsMatch(c, from, MaxIterations - 1);
    if s.0 {
      var d := DateOf(s.1);
      if d.year > 1970 {
        DaysBeforeYearMonotone(1970, d.year);
      }
      assert DayOf(s.1) >= 0;
      assert Seconds(s.1) >= 0;
    }
  }

  /** An instant that already meets every field is its own next occurrence, rounded down to the second. */
  lemma NextOccurrenceFixedPoint(c: CronData, from: int)
    requires Satisfies(c, from)
    ensures NextOccurrence(c, from) == (true, FloorToSecond(from))
  {
    PassFinishedIffSatisfies(c, from);
    SearchStep(c, from, MaxIterations - 1);
  }

  /**
   * The loop over the allowed week indexes in the reversed case: `ok` is
   * set when day `z` is the last of its weekday in its month moved back by
   * index-1 weeks.
   */
  method MatchesReversedIndex(indexes: set<int>, z: int) returns (ok: bool)
    ensures ok == ReversedIndexMatches(indexes, z, LastSameWeekday(z))
  {
    var ymw := CivilFromDays(z);
    ghost var last := LastSameWeekday(z);
    ok := false;
    ghost var found := 0;
    var rest := indexes;
    while rest != {}
      invariant rest <= indexes
      invariant !ok
      invariant forall k :: k in indexes && k !in rest ==> z != last - 7 * (k - 1)
      decreases |rest|
    {
      assert !(forall k :: k !in rest) by {
        if forall k :: k !in rest {
          assert false;
        }
      }
      var index :| index in rest;
      var ymwlDays := LastWeekdayOfMonth(ymw.year, ymw.month, Weekday(z));
      ymwlDays := ymwlDays - 7 * (index - 1);
      if z == ymwlDays {
        ok := true;
        found := index;
        break;
      }
      rest := rest - {index};
    }
    if ok {
      assert found in indexes && z == last - 7 * (found - 1);
    } else {
      assert rest == {};
    }
  }

  /**
   * The date part of one pass of `calculate_from`: the year, month and day
   * checks, each of which may move the candidate to a later midnight.
   */
  method CheckDate(c: CronData, curr: int) returns (next: int, dateChanged: bool)
    ensures dateChanged ==> Pass(c, curr) == Advance(next, true)
    ensures !dateChanged ==> next == curr && Pass(c, curr) == TimeOfDayPass(c, curr)
  {
    next := curr;
    dateChanged := false;
    var z := DayOf(curr);
    var ymd := CivilFromDays(z);
    MidnightPlusDays(z);
    if ymd.year !in c.years {
      next := Midnight(DaysFromCivil(Date(ymd.year + 1, 1, 1)));
      dateChanged := true;
    } else if ymd.month !in c.months {
      next := Midnight(DaysFromCivil(FirstOfNextMonth(ymd)));
      dateChanged := true;
    } else if |c.dayOfMonth| != c.lastDayOfMonthValue {
      var day := ymd.day;
      if c.monthDayIndexReversed {
        day := ReversedDay(ymd.year, ymd.month, day);
      }
      assert day == EffectiveDay(c, ymd);
      if day !in c.dayOfMonth {
        next := Midnight(z);
        next := next + TicksPerDay;
        dateChanged := true;
      }
    } else {
      if Weekday(z) !in c.dayOfWeek {
        next := Midnight(z);
        next := next + TicksPerDay;
        dateChanged := true;
      } else if !c.weekDayIndexReversed {
        if WeekdayIndex(ymd.day) !in c.indexOfDay {
          next := Midnight(z);
          next := next + 7 * TicksPerDay;
          dateChanged := true;
        }
      } else {
        var ok := MatchesReversedIndex(c.indexOfDay, z);
        if !ok {
          next := Midnight(z);
          next := next + 7 * TicksPerDay;
          dateChanged := true;
        }
      }
    }
  }

  /**
   * The time-of-day part of one pass, reached only when the date did not
   * change: at most one of the hour, minute and second corrections.
   */
  method CheckTimeOfDay(c: CronData, curr: int) returns (next: int, done: bool)
    ensures done ==> next == curr && TimeOfDayPass(c, curr) == Finished
    ensures !done ==> TimeOfDayPass(c, curr) == Advance(next, false)
  {
    next := curr;
    done := false;
    var hour, min, sec := Hour(curr), Minute(curr), Second(curr);
    if hour !in c.hours {
      next := next + TicksPerHour;
      next := next - min * TicksPerMinute;
      next := next - sec * TicksPerSecond;
    } else if min !in c.minutes {
      next := next + TicksPerMinute;
      next := next - sec * TicksPerSecond;
    } else if sec !in c.seconds {
      next := next + TicksPerSecond;
    } else {
      done := true;
    }
  }

  /**
   * `CronSchedule::calculate_from`, as written: the fraction of a second is
   * removed with the toward-zero remainder of C++ `%`. `passes` counts the
   * executions of the loop body.
   */
  method CalculateFrom(c: CronData, from: int) returns (found: bool, result: int, ghost passes: nat)
    requires InClockRange(from)
    ensures (found, result) == NextOccurrenceAsWritten(c, from)
    ensures found == NextOccurrence(c, from).0
    ensures passes <= MaxIterations - 1
    ensures result % TicksPerSecond == 0 && FloorToSecond(from) <= result
  {
    var curr := from;
    var done := false;
    var maxIterations := MaxIterations;
    passes := 0;
    ghost var spec := Search(c, from, MaxIterations - 1);
    while !done
      invariant 0 < maxIterations <= MaxIterations
      invariant passes == MaxIterations - maxIterations
      invariant !done ==> Search(c, curr, maxIterations - 1) == spec
      invariant done ==> spec == (true, curr)
      decreases maxIterations
    {
      maxIterations := maxIterations - 1;
      if maxIterations == 0 {
        break;
      }
      passes := passes + 1;
      ghost var before := curr;
      var dateChanged;
      curr, dateChanged := CheckDate(c, curr);
      if !dateChanged {
        curr, done := CheckTimeOfDay(c, curr);
      }
      SearchStep(c, before, maxIterations);
    }
    found := maxIterations > 0;
    assert spec == (found, curr);
    // Discard the fraction of a second left over from `from`; `%` truncates toward zero.
    var rem := if curr >= 0 then curr % TicksPerSecond else -((-curr) % TicksPerSecond);
    curr := curr - rem;
    result := curr;
  }
}
