/**
 * Instants of `system_clock`: a signed tick count since 1970-01-01 00:00:00,
 * and the calendar view of an instant (the `floor<days>` date and the time
 * of day that `to_calendar_time` reports).
 */
module Clock {
  import opened Calendar

  /** The tick is taken to be a nanosecond; the period of `system_clock` is left to the implementation. */
  const TicksPerSecond: int := 1_000_000_000
  const TicksPerMinute: int := 60 * TicksPerSecond
  const TicksPerHour: int := 60 * TicksPerMinute
  const TicksPerDay: int := 24 * TicksPerHour

  /** The instants a signed 64-bit tick count can hold. */
  predicate InClockRange(t: int) {
    -0x8000_0000_0000_0000 <= t < 0x8000_0000_0000_0000
  }

  /** Whole seconds since the epoch, rounded down. */
  function Seconds(t: int): int {
    t / TicksPerSecond
  }

  /** The day number of `floor<days>(t)`. */
  function DayOf(t: int): int {
    Seconds(t) / 86400
  }

  /**
   * Rounding down to whole seconds and then to whole days is rounding down
   * to whole days: the instant lies between the midnight of its day and the
   * next one.
   */
  lemma DayOfIsFloorDays(t: int)
    ensures DayOf(t) == t / TicksPerDay
    ensures Midnight(DayOf(t)) <= t < Midnight(DayOf(t) + 1)
  {
    var s, z := Seconds(t), t / TicksPerDay;
    assert z * TicksPerDay <= t < z * TicksPerDay + TicksPerDay;
    assert z * 86400 <= s < z * 86400 + 86400;
  }

  /** Midnight at the start of day `z` (a `sys_days` converted to a time point). */
  function Midnight(z: int): (t: int)
    ensures DayOf(t) == z && t % TicksPerSecond == 0
  {
    z * TicksPerDay
  }

  /** Adding whole days to a midnight gives a later midnight. */
  lemma MidnightPlusDays(z: int)
    ensures Midnight(z) + TicksPerDay == Midnight(z + 1)
    ensures Midnight(z) + 7 * TicksPerDay == Midnight(z + 7)
  {
  }

  function DateOf(t: int): (d: Date)
    ensures ValidDate(d)
  {
    CivilFromDays(DayOf(t))
  }

  function SecondOfDay(t: int): int {
    Seconds(t) % 86400
  }

  /** The hour of the day, 0 .. 23. */
  function Hour(t: int): (h: int)
    ensures 0 <= h < 24
  {
    SecondOfDay(t) / 3600
  }

  /** The minute of the hour, 0 .. 59. */
  function Minute(t: int): (m: int)
    ensures 0 <= m < 60
  {
    SecondOfDay(t) % 3600 / 60
  }

  /** The second of the minute, 0 .. 59. */
  function Second(t: int): (s: int)
    ensures 0 <= s < 60
  {
    SecondOfDay(t) % 60
  }

  /**
   * The hour, minute and second are the time of day of the second of the
   * day: each lies in the span of the coarser one, and together they add
   * up to it.
   */
  lemma TimeOfDayFields(t: int)
    ensures 0 <= SecondOfDay(t) < 86400
    ensures Hour(t) * 3600 <= SecondOfDay(t) < (Hour(t) + 1) * 3600
    ensures SecondOfDay(t) == Hour(t) * 3600 + Minute(t) * 60 + Second(t)
  {
  }

  /** An instant is its day's midnight plus its hour, minute, second and sub-second ticks. */
  lemma TimeOfDayDecomposition(t: int)
    ensures t == Midnight(DayOf(t)) + Hour(t) * TicksPerHour + Minute(t) * TicksPerMinute
                 + Second(t) * TicksPerSecond + t % TicksPerSecond
  {
    var s := Seconds(t);
    assert t == s * TicksPerSecond + t % TicksPerSecond;
    var r := SecondOfDay(t);
    assert s == DayOf(t) * 86400 + r;
    assert r == Hour(t) * 3600 + Minute(t) * 60 + Second(t);
  }

  /**
   * The converse of the decomposition: the instant `sec` seconds and `f`
   * ticks after the midnight of day `z` has that day and that time of day.
   */
  lemma ViewOfTimeOfDay(z: int, sec: int, f: int)
    requires 0 <= sec < 86400 && 0 <= f < TicksPerSecond
    ensures DayOf(Midnight(z) + sec * TicksPerSecond + f) == z
    ensures SecondOfDay(Midnight(z) + sec * TicksPerSecond + f) == sec
    ensures (Midnight(z) + sec * TicksPerSecond + f) % TicksPerSecond == f
  {
    var t := Midnight(z) + sec * TicksPerSecond + f;
    assert t == (z * 86400 + sec) * TicksPerSecond + f;
    assert Seconds(t) == z * 86400 + sec;
  }

  /** The whole second at or before `t` (sub-second ticks discarded, rounding down). */
  function FloorToSecond(t: int): (r: int)
    ensures r <= t < r + TicksPerSecond && r % TicksPerSecond == 0
  {
    Seconds(t) * TicksPerSecond
  }

  /** Every instant of second `k` rounds down to its start. */
  lemma FloorToSecondWithin(t: int, k: int)
    requires k * TicksPerSecond <= t < (k + 1) * TicksPerSecond
    ensures FloorToSecond(t) == k * TicksPerSecond
  {
    assert Seconds(t) == k;
  }

  /** Rounding down to the second subtracts the (non-negative) remainder. */
  lemma FloorToSecondSubtractsRemainder(t: int)
    ensures FloorToSecond(t) == t - t % TicksPerSecond
  {
  }

  /**
   * `t - t.time_since_epoch() % seconds{1}` as written: C++ `%` truncates
   * toward zero, so a negative remainder is subtracted and an instant before
   * the epoch with a fraction moves up to the next whole second.
   */
  function TruncateTowardZero(t: int): (r: int)
    ensures r % TicksPerSecond == 0
    ensures FloorToSecond(t) <= r <= FloorToSecond(t) + TicksPerSecond
    ensures t >= 0 ==> r == FloorToSecond(t)
    ensures t < 0 && t % TicksPerSecond != 0 ==> r == FloorToSecond(t) + TicksPerSecond
  {
    var rem := if t >= 0 then t % TicksPerSecond else -((-t) % TicksPerSecond);
    assert t < 0 && t % TicksPerSecond != 0 ==> rem == t % TicksPerSecond - TicksPerSecond;
    t - rem
  }

  /** Half a second before the epoch is 23:59:59 of 1969-12-31, but truncates to 00:00:00. */
  lemma TruncateTowardZeroChangesSecond()
    ensures Second(-TicksPerSecond / 2) == 59
    ensures TruncateTowardZero(-TicksPerSecond / 2) == 0 && Second(0) == 0
  {
  }

  /** Moving by whole seconds keeps the fraction of a second. */
  lemma FloorToSecondShift(t: int, k: int)
    ensures FloorToSecond(t + k * TicksPerSecond) == FloorToSecond(t) + k * TicksPerSecond
    ensures (t + k * TicksPerSecond) % TicksPerSecond == t % TicksPerSecond
  {
    assert t + k * TicksPerSecond == (Seconds(t) + k) * TicksPerSecond + t % TicksPerSecond;
  }

  /**
   * Adding an hour and taking away the minutes and seconds of the time of
   * day reaches the start of the next hour, fraction of a second kept.
   */
  lemma NextHourStart(t: int)
    ensures FloorToSecond(t + TicksPerHour - Minute(t) * TicksPerMinute - Second(t) * TicksPerSecond)
         == Midnight(DayOf(t)) + (Hour(t) + 1) * TicksPerHour
    ensures (t + TicksPerHour - Minute(t) * TicksPerMinute - Second(t) * TicksPerSecond) % TicksPerSecond
         == t % TicksPerSecond
  {
    TimeOfDayDecomposition(t);
    FloorToSecondSubtractsRemainder(t);
    FloorToSecondShift(t, 3600 - 60 * Minute(t) - Second(t));
  }

  /** Adding a minute and taking away the seconds reaches the start of the next minute. */
  lemma NextMinuteStart(t: int)
    ensures FloorToSecond(t + TicksPerMinute - Second(t) * TicksPerSecond)
         == Midnight(DayOf(t)) + Hour(t) * TicksPerHour + (Minute(t) + 1) * TicksPerMinute
    ensures (t + TicksPerMinute - Second(t) * TicksPerSecond) % TicksPerSecond == t % TicksPerSecond
  {
    TimeOfDayDecomposition(t);
    FloorToSecondSubtractsRemainder(t);
    FloorToSecondShift(t, 60 - Second(t));
  }

  /**
   * The start of the next hour as a time of day: minute 0, second 0 of the
   * next hour, or 00:00:00 of the next day after 23 h.
   */
  lemma NextHourView(t: int)
    ensures var n := t + TicksPerHour - Minute(t) * TicksPerMinute - Second(t) * TicksPerSecond;
      Minute(n) == 0 && Second(n) == 0 && n % TicksPerSecond == t % TicksPerSecond
      && (Hour(t) < 23 ==> DayOf(n) == DayOf(t) && Hour(n) == Hour(t) + 1)
      && (Hour(t) == 23 ==> DayOf(n) == DayOf(t) + 1 && Hour(n) == 0)
  {
    var n := t + TicksPerHour - Minute(t) * TicksPerMinute - Second(t) * TicksPerSecond;
    var z, f := DayOf(t), t % TicksPerSecond;
    NextHourStart(t);
    FloorToSecondSubtractsRemainder(n);
    if Hour(t) < 23 {
      ViewOfTimeOfDay(z, (Hour(t) + 1) * 3600, f);
    } else {
      assert n == Midnight(z + 1) + 0 * TicksPerSecond + f;
      ViewOfTimeOfDay(z + 1, 0, f);
    }
  }

  /**
   * The start of the next minute as a time of day: second 0 of the next
   * minute of the same hour, or the start of the next hour after minute 59.
   */
  lemma NextMinuteView(t: int)
    ensures var n := t + TicksPerMinute - Second(t) * TicksPerSecond;
      Second(n) == 0 && n % TicksPerSecond == t % TicksPerSecond
      && (Minute(t) < 59 ==> DayOf(n) == DayOf(t) && Hour(n) == Hour(t) && Minute(n) == Minute(t) + 1)
      && (Minute(t) == 59 ==> FloorToSecond(n) == Midnight(DayOf(t)) + (Hour(t) + 1) * TicksPerHour)
  {
    var n := t + TicksPerMinute - Second(t) * TicksPerSecond;
    var z, f := DayOf(t), t % TicksPerSecond;
    NextMinuteStart(t);
    FloorToSecondSubtractsRemainder(n);
    var sec := Hour(t) * 3600 + (Minute(t) + 1) * 60;
    if sec < 86400 {
      ViewOfTimeOfDay(z, sec, f);
    } else {
      assert n == Midnight(z + 1) + 0 * TicksPerSecond + f;
      ViewOfTimeOfDay(z + 1, 0, f);
    }
  }

  lemma FloorToSecondMonotone(t: int, u: int)
    requires t <= u
    ensures FloorToSecond(t) <= FloorToSecond(u)
  {
    assert Seconds(t) <= Seconds(u);
  }

  /** Rounding down to the second keeps the date and the time of day. */
  lemma FloorToSecondKeepsView(t: int)
    ensures DayOf(FloorToSecond(t)) == DayOf(t)
    ensures Hour(FloorToSecond(t)) == Hour(t)
    ensures Minute(FloorToSecond(t)) == Minute(t)
    ensures Second(FloorToSecond(t)) == Second(t)
  {
    assert Seconds(FloorToSecond(t)) == Seconds(t);
  }

  /** Instants in the same whole second have the same calendar view. */
  lemma SameSecondSameView(t: int, u: int)
    requires FloorToSecond(t) == FloorToSecond(u)
    ensures DayOf(t) == DayOf(u) && Hour(t) == Hour(u) && Minute(t) == Minute(u) && Second(t) == Second(u)
  {
    assert Seconds(t) == Seconds(u);
  }

  /** Later instants never fall on earlier days. */
  lemma DayOfMonotone(t: int, u: int)
    requires t <= u
    ensures DayOf(t) <= DayOf(u)
  {
    assert Seconds(t) <= Seconds(u);
  }

  /** An instant before the midnight of day `z` lies on an earlier day. */
  lemma BeforeMidnight(t: int, z: int)
    requires t < Midnight(z)
    ensures DayOf(t) < z
  {
  }

  /**
   * An instant between `lo` and `hi` seconds after the midnight of day `z`
   * lies on day `z`, at a second of the day between `lo` and `hi`.
   */
  lemma WithinDay(t: int, z: int, lo: int, hi: int)
    requires 0 <= lo <= hi <= 86400
    requires Midnight(z) + lo * TicksPerSecond <= t < Midnight(z) + hi * TicksPerSecond
    ensures DayOf(t) == z && lo <= SecondOfDay(t) < hi
  {
    assert z * 86400 + lo <= Seconds(t) < z * 86400 + hi;
  }
}
