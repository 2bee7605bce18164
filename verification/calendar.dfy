/**
 * The proleptic Gregorian calendar on day numbers counted from 1970-01-01
 * (day 0). It stands in for the `date` library that the schedule search
 * relies on: `year_month_day` (CivilFromDays / DaysFromCivil), the
 * `last` day of a month, `weekday` with Sunday == 0, the forward weekday
 * index of `year_month_weekday` and the date of `year_month_weekday_last`.
 */
module Calendar {

  datatype Date = Date(year: int, month: int, day: int)

  predicate IsLeapYear(y: int) {
    y % 4 == 0 && (y % 100 != 0 || y % 400 == 0)
  }

  function DaysInYear(y: int): int {
    if IsLeapYear(y) then 366 else 365
  }

  function DaysInMonth(y: int, m: int): (n: int)
    requires 1 <= m <= 12
    ensures 28 <= n <= 31
    ensures m == 2 ==> (n == 29 <==> IsLeapYear(y))
  {
    if m == 2 then (if IsLeapYear(y) then 29 else 28)
    else if m == 4 || m == 6 || m == 9 || m == 11 then 30
    else 31
  }

  predicate ValidDate(d: Date) {
    1 <= d.month <= 12 && 1 <= d.day <= DaysInMonth(d.year, d.month)
  }

  /** Days of year `y` that lie before the 1st of month `m`. */
  function DaysBeforeMonth(y: int, m: int): int
    requires 1 <= m <= 12
  {
    var common :=
      if m == 1 then 0 else if m == 2 then 31 else if m == 3 then 59
      else if m == 4 then 90 else if m == 5 then 120 else if m == 6 then 151
      else if m == 7 then 181 else if m == 8 then 212 else if m == 9 then 243
      else if m == 10 then 273 else if m == 11 then 304 else 334;
    if m > 2 && IsLeapYear(y) then common + 1 else common
  }

  /** The months of a year follow each other without gap and fill the year. */
  lemma MonthsFillYear(y: int, m: int)
    requires 1 <= m <= 12
    ensures m < 12 ==> DaysBeforeMonth(y, m + 1) == DaysBeforeMonth(y, m) + DaysInMonth(y, m)
    ensures m == 12 ==> DaysBeforeMonth(y, m) + DaysInMonth(y, m) == DaysInYear(y)
    ensures DaysBeforeMonth(y, m) + DaysInMonth(y, m) <= DaysInYear(y)
  {
  }

  /** A later month of the same year starts after an earlier one ends. */
  lemma DaysBeforeMonthMonotone(y: int, m1: int, m2: int)
    requires 1 <= m1 < m2 <= 12
    ensures DaysBeforeMonth(y, m1) + DaysInMonth(y, m1) <= DaysBeforeMonth(y, m2)
  {
  }

  /**
   * Day number of the 1st of January of year `y`: the lengths of the years
   * from 1970 up to `y`, negative for the years before 1970.
   */
  function DaysBeforeYear(y: int): int
    decreases if y < 1970 then 1970 - y else y - 1970
  {
    if y == 1970 then 0
    else if y > 1970 then DaysBeforeYear(y - 1) + DaysInYear(y - 1)
    else DaysBeforeYear(y + 1) - DaysInYear(y)
  }

  lemma NextYearStart(y: int)
    ensures DaysBeforeYear(y + 1) == DaysBeforeYear(y) + DaysInYear(y)
  {
  }

  lemma {:induction false} DaysBeforeYearMonotone(y1: int, y2: int)
    requires y1 < y2
    decreases y2 - y1
    ensures DaysBeforeYear(y1) + DaysInYear(y1) <= DaysBeforeYear(y2)
  {
    NextYearStart(y1);
    if y1 + 1 < y2 {
      DaysBeforeYearMonotone(y1 + 1, y2);
    }
  }

  /**
   * Number of leap years among the years 0 .. y-1 (negative when y < 0),
   * by the Gregorian rule counted in closed form.
   */
  function LeapYearsBefore(y: int): int {
    (y + 3) / 4 - (y + 99) / 100 + (y + 399) / 400
  }

  /** Year `y` adds one to the count exactly when it is a leap year. */
  lemma LeapYearsStep(y: int)
    ensures LeapYearsBefore(y + 1) == LeapYearsBefore(y) + (if IsLeapYear(y) then 1 else 0)
  {
    assert (y + 4) / 4 - (y + 3) / 4 == (if y % 4 == 0 then 1 else 0);
    assert (y + 100) / 100 - (y + 99) / 100 == (if y % 100 == 0 then 1 else 0);
    assert (y + 400) / 400 - (y + 399) / 400 == (if y % 400 == 0 then 1 else 0);
  }

  /** The year starts agree with the closed form: 365 days a year plus one per leap year. */
  lemma {:induction false} DaysBeforeYearClosedForm(y: int)
    decreases if y < 1970 then 1970 - y else y - 1970
    ensures DaysBeforeYear(y) == 365 * (y - 1970) + LeapYearsBefore(y) - LeapYearsBefore(1970)
  {
    if y > 1970 {
      DaysBeforeYearClosedForm(y - 1);
      LeapYearsStep(y - 1);
    } else if y < 1970 {
      DaysBeforeYearClosedForm(y + 1);
      LeapYearsStep(y);
    }
  }

  /** The day number of a calendar date (`sys_days` of a `year_month_day`), 1970-01-01 being day 0. */
  function DaysFromCivil(d: Date): (z: int)
    requires ValidDate(d)
    ensures DaysBeforeYear(d.year) <= z < DaysBeforeYear(d.year + 1)
  {
    MonthsFillYear(d.year, d.month);
    NextYearStart(d.year);
    DaysBeforeYear(d.year) + DaysBeforeMonth(d.year, d.month) + d.day - 1
  }

  /** The month, searched downwards from `m`, in which day `doy` of year `y` falls. */
  function MonthOfDay(y: int, doy: int, m: int): (r: int)
    requires 1 <= m <= 12 && 0 <= doy < DaysBeforeMonth(y, m) + DaysInMonth(y, m)
    ensures 1 <= r <= m
    ensures DaysBeforeMonth(y, r) <= doy < DaysBeforeMonth(y, r) + DaysInMonth(y, r)
  {
    if DaysBeforeMonth(y, m) <= doy then m
    else
      MonthsFillYear(y, m - 1);
      MonthOfDay(y, doy, m - 1)
  }

  /**
   * The date of day number `n`, found by walking year by year from year `y`
   * towards the year that holds `n`.
   */
  function DateNear(n: int, y: int): (d: Date)
    decreases if n < DaysBeforeYear(y) then DaysBeforeYear(y) - n + 400 else n - DaysBeforeYear(y)
    ensures ValidDate(d)
    ensures DaysBeforeYear(d.year) + DaysBeforeMonth(d.year, d.month) + d.day - 1 == n
  {
    NextYearStart(y - 1);
    NextYearStart(y);
    if n < DaysBeforeYear(y) then DateNear(n, y - 1)
    else if DaysBeforeYear(y + 1) <= n then DateNear(n, y + 1)
    else
      MonthsFillYear(y, 12);
      var m := MonthOfDay(y, n - DaysBeforeYear(y), 12);
      Date(y, m, n - DaysBeforeYear(y) - DaysBeforeMonth(y, m) + 1)
  }

  /** The calendar date of a day number (`year_month_day` of a `sys_days`). */
  function CivilFromDays(z: int): (d: Date)
    ensures ValidDate(d) && DaysFromCivil(d) == z
  {
    DateNear(z, 1970)
  }

  /** Distinct valid dates have distinct day numbers, and later dates larger ones. */
  lemma DaysFromCivilOrdered(a: Date, b: Date)
    requires ValidDate(a) && ValidDate(b)
    requires a.year < b.year || (a.year == b.year && a.month < b.month)
      || (a.year == b.year && a.month == b.month && a.day < b.day)
    ensures DaysFromCivil(a) < DaysFromCivil(b)
  {
    MonthsFillYear(a.year, a.month);
    if a.year < b.year {
      DaysBeforeYearMonotone(a.year, b.year);
    } else if a.month < b.month {
      DaysBeforeMonthMonotone(a.year, a.month, b.month);
    }
  }

  lemma DaysFromCivilInjective(a: Date, b: Date)
    requires ValidDate(a) && ValidDate(b) && DaysFromCivil(a) == DaysFromCivil(b)
    ensures a == b
  {
    if a.year < b.year || (a.year == b.year && a.month < b.month)
      || (a.year == b.year && a.month == b.month && a.day < b.day) {
      DaysFromCivilOrdered(a, b);
    } else if b.year < a.year || (a.year == b.year && b.month < a.month)
      || (a.year == b.year && a.month == b.month && b.day < a.day) {
      DaysFromCivilOrdered(b, a);
    }
  }

  /** A day number between the starts of year `y` and of the next year falls in year `y`. */
  lemma YearOfDay(z: int, y: int)
    requires DaysBeforeYear(y) <= z < DaysBeforeYear(y + 1)
    ensures CivilFromDays(z).year == y
  {
    var d := CivilFromDays(z);
    MonthsFillYear(d.year, d.month);
    NextYearStart(y);
    if d.year < y {
      DaysBeforeYearMonotone(d.year, y);
    } else if d.year > y {
      DaysBeforeYearMonotone(y, d.year);
    }
  }

  /** The two conversions are inverse: every valid date survives the round trip. */
  lemma CivilFromDaysFromCivil(d: Date)
    requires ValidDate(d)
    ensures CivilFromDays(DaysFromCivil(d)) == d
  {
    DaysFromCivilInjective(CivilFromDays(DaysFromCivil(d)), d);
  }

  /** The 1st of the month after the month of `d`; December rolls over to January. */
  function FirstOfNextMonth(d: Date): (r: Date)
    requires ValidDate(d)
    ensures ValidDate(r) && r.day == 1
    ensures d.month < 12 ==> r.year == d.year && r.month == d.month + 1
    ensures d.month == 12 ==> r.year == d.year + 1 && r.month == 1
  {
    if d.month == 12 then Date(d.year + 1, 1, 1) else Date(d.year, d.month + 1, 1)
  }

  /** Every day from `z` up to the next 1st of January lies in the year of `z`. */
  lemma SameYearUntilNextYear(z: int, w: int)
    requires z <= w < DaysFromCivil(Date(CivilFromDays(z).year + 1, 1, 1))
    ensures CivilFromDays(w).year == CivilFromDays(z).year
  {
    var a, b := CivilFromDays(z), CivilFromDays(w);
    if b.year < a.year {
      DaysFromCivilOrdered(b, Date(a.year, 1, 1));
    } else if b.year > a.year {
      if b.year > a.year + 1 {
        DaysFromCivilOrdered(Date(a.year + 1, 1, 1), b);
      } else if b != Date(a.year + 1, 1, 1) {
        DaysFromCivilOrdered(Date(a.year + 1, 1, 1), b);
      }
    }
  }

  /** Every day from `z` up to the next 1st of a month lies in the year and month of `z`. */
  lemma SameMonthUntilNextMonth(z: int, w: int)
    requires z <= w < DaysFromCivil(FirstOfNextMonth(CivilFromDays(z)))
    ensures CivilFromDays(w).year == CivilFromDays(z).year
    ensures CivilFromDays(w).month == CivilFromDays(z).month
  {
    var a, b := CivilFromDays(z), CivilFromDays(w);
    var next := FirstOfNextMonth(a);
    if a.month < 12 {
      DaysFromCivilOrdered(next, Date(a.year + 1, 1, 1));
    }
    SameYearUntilNextYear(z, w);
    if b.month < a.month {
      DaysFromCivilOrdered(b, Date(a.year, a.month, 1));
    } else if b.month > a.month {
      assert a.month < 12;
      if b.month > a.month + 1 || b.day > 1 {
        DaysFromCivilOrdered(next, b);
      }
    }
  }

  /** The weekday of a day number, Sunday == 0 (`weekday::c_encoding`); 1970-01-01 was a Thursday. */
  function Weekday(z: int): (w: int)
    ensures 0 <= w < 7
  {
    (z + 4) % 7
  }

  /** 1970-01-01 was a Thursday (4), and 1970-01-04 the first Sunday (0). */
  lemma WeekdayAnchor()
    ensures Weekday(DaysFromCivil(Date(1970, 1, 1))) == 4
    ensures Weekday(DaysFromCivil(Date(1970, 1, 4))) == 0
  {
  }

  /** Weekdays repeat every seven days and no sooner. */
  lemma WeekdayPeriod(z: int, k: int)
    requires 0 <= k
    ensures Weekday(z + k) == Weekday(z) <==> k % 7 == 0
  {
  }

  /**
   * The forward occurrence index of the weekday of day-of-month `day`:
   * `day` is the r-th day of its weekday in the month.
   */
  function WeekdayIndex(day: int): (r: int)
    requires 1 <= day <= 31
    ensures 1 <= r <= 5
    ensures 1 <= day - 7 * (r - 1) <= 7
  {
    (day - 1) / 7 + 1
  }

  /** The day-of-month counted backwards from the last day of the month. */
  function ReversedDay(y: int, m: int, day: int): (r: int)
    requires 1 <= m <= 12 && 1 <= day <= DaysInMonth(y, m)
    ensures 1 <= r <= DaysInMonth(y, m)
    ensures r == 1 <==> day == DaysInMonth(y, m)
  {
    DaysInMonth(y, m) - day + 1
  }

  /** Counting backwards twice gives back the day. */
  lemma ReversedDayInvolutive(y: int, m: int, day: int)
    requires 1 <= m <= 12 && 1 <= day <= DaysInMonth(y, m)
    ensures ReversedDay(y, m, ReversedDay(y, m, day)) == day
  {
  }

  lemma WeekdayBack(last: int, back: int, wd: int)
    requires 0 <= wd < 7 && back == (Weekday(last) - wd + 7) % 7
    ensures Weekday(last - back) == wd
  {
    var q := (last + 4) / 7;
    assert last + 4 == 7 * q + Weekday(last);
  }

  /** The day number of the last weekday `wd` of month `m` of year `y` (`year_month_weekday_last`). */
  function LastWeekdayOfMonth(y: int, m: int, wd: int): (r: int)
    requires 1 <= m <= 12 && 0 <= wd < 7
    ensures Weekday(r) == wd
    ensures DaysFromCivil(Date(y, m, 1)) <= r <= DaysFromCivil(Date(y, m, DaysInMonth(y, m)))
    ensures DaysFromCivil(Date(y, m, DaysInMonth(y, m))) < r + 7
  {
    var last := DaysFromCivil(Date(y, m, DaysInMonth(y, m)));
    var back := (Weekday(last) - wd + 7) % 7;
    assert 0 <= back < 7;
    assert DaysFromCivil(Date(y, m, 1)) + DaysInMonth(y, m) - 1 == last;
    WeekdayBack(last, back, wd);
    last - back
  }
}
