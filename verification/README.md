# libcron next-occurrence search in Dafny

This project models `CronSchedule::calculate_from` of libcron. Given an
instant `from` and a parsed cron schedule, the function looks for an instant
that meets every field of the schedule. What it reports is never before
`from` rounded down to the second. It is the earliest such instant when the
seven-day week-index jump is safe (see "Left out"). The schedule is the
set of allowed years, months, days of the month, weekdays, weekday indexes,
hours, minutes and seconds, plus two "count from the end of the month"
flags. The function reports `(found, instant)`.

It searches by passes. Each pass inspects the candidate from the year down to
the second and applies at most one correction, which always moves the
candidate forward:

- next 1st of January;
- next 1st of a month;
- next midnight;
- the same weekday one week later;
- next hour, next minute or next second.

The search stops when a pass finds nothing to correct, or when the
`uint16_t` iteration budget runs out. The fraction of a second is then
removed with the C++ remainder, which truncates toward zero.

Files:

- `calendar.dfy` (`Calendar`): the proleptic Gregorian calendar on day numbers (1970-01-01 is day 0). It stands in for the `date` library:
  - `year_month_day` in both directions;
  - the last day of a month;
  - the weekday with Sunday = 0;
  - the forward weekday index;
  - `year_month_weekday_last`.
- `clock.dfy` (`Clock`): `system_clock` instants as signed tick counts; the tick is taken to be a nanosecond, since the period of `system_clock` is left to the implementation. It gives their date and time of day, and the two ways of removing the fraction of a second.
- `cron_schedule.dfy` (`CronSchedule`):
  - The schedule data.
  - `Satisfies`: an instant meets every field under the day-of-month / day-of-week precedence rule.
  - One pass of the search as a function (`Pass`).
  - The bounded search as a function (`Search`, `NextOccurrence`).
  - The imperative `CalculateFrom` with its loop, proved equal to the as-written search `NextOccurrenceAsWritten`.
- `search_properties.dfy` (`SearchProperties`):
  - Each correction, stated in calendar terms.
  - What each correction jumps over contains no match.
  - The result is the earliest match when the seven-day jump is safe; the precedence rule holds; the search is idempotent.
  - An impossible day is never found.
  - The "last day" and "last weekday" readings of the reversed flags.
- `schedule_examples.dfy` (`ScheduleExamples`): particular schedules:
  - every day at midnight across a day boundary;
  - the last day of February;
  - a week-index jump that passes over a match;
  - the rounding of an instant before 1970.

## Model

| member | source | states |
|---|---|---|
| CronSchedule.TimeOfDayPass | libcron/src/CronSchedule.cpp:110-131 | a time-of-day correction moves the candidate strictly forward and never counts as a date change |
| CronSchedule.Pass | libcron/src/CronSchedule.cpp:19-131 | one pass applies at most one correction; it always moves the candidate strictly forward; a date correction lands on a midnight |
| CronSchedule.PassFinishedIffSatisfies | libcron/src/CronSchedule.cpp:24-131 | a pass finds nothing to correct if and only if the candidate meets every field under the precedence rule |
| CronSchedule.Search | libcron/src/CronSchedule.cpp:17 | the budgeted search never ends before the instant it started from |
| CronSchedule.SearchFindsMatch | libcron/src/CronSchedule.cpp:128-131 | when the search reports success, its candidate meets every field |
| CronSchedule.SatisfiesPerSecond | libcron/src/CronSchedule.cpp:112-127 | whether an instant meets the schedule depends only on its whole second |
| CronSchedule.NextOccurrence | libcron/src/CronSchedule.cpp:143-145 | the result is a whole second and is not earlier than `from` rounded down to the second |
| CronSchedule.NextOccurrenceAsWritten | libcron/src/CronSchedule.cpp:143 | removing the fraction as written keeps the flag and gives a whole second not before `from` rounded down; from 1970 on it agrees with NextOccurrence |
| CronSchedule.AsWrittenAgreesFrom1970 | libcron/src/CronSchedule.cpp:143 | when no allowed year is before 1970, a reported occurrence is the same under both ways of removing the fraction |
| CronSchedule.NextOccurrenceSatisfies | libcron/src/CronSchedule.cpp:128-145 | a reported occurrence meets every field of the schedule |
| CronSchedule.NextOccurrenceFixedPoint | libcron/src/CronSchedule.cpp:128-143 | an instant that already meets the schedule gives `(true, instant rounded down to the second)` |
| CronSchedule.MatchesReversedIndex | libcron/src/CronSchedule.cpp:88-99 | the loop over the index set sets `ok` exactly when the day is the last of its weekday in the month, moved back by k-1 weeks for some allowed index k |
| CronSchedule.CheckDate | libcron/src/CronSchedule.cpp:20-108 | the year, month and day checks either change the date exactly as a pass does, or leave the candidate unchanged so that the pass is decided by the time of day |
| CronSchedule.CheckTimeOfDay | libcron/src/CronSchedule.cpp:110-132 | the hour, minute and second checks either finish the loop or move the candidate as the time-of-day pass does |
| CronSchedule.CalculateFrom | libcron/src/CronSchedule.cpp:9-146 | the loop returns exactly NextOccurrenceAsWritten, with the flag of NextOccurrence: true only when a pass found every field matching, within 65534 passes; the result is a whole second no earlier than `from` rounded down |
| SearchProperties.YearCorrection | libcron/src/CronSchedule.cpp:24-29 | a disallowed year moves the candidate to 00:00:00 on the 1st of January of the next year, as a date change |
| SearchProperties.MonthCorrection | libcron/src/CronSchedule.cpp:32-37 | a disallowed month moves the candidate to 00:00:00 on the 1st of the next month (December rolls over into January), as a date change |
| SearchProperties.DayCorrection | libcron/src/CronSchedule.cpp:40-73 | a disallowed effective day (day-of-month governing) or a disallowed weekday (otherwise) moves the candidate to the next midnight |
| SearchProperties.WeekCorrection | libcron/src/CronSchedule.cpp:74-105 | an allowed weekday with a disallowed index moves the candidate to the same weekday seven days later, at midnight |
| SearchProperties.HourCorrection | libcron/src/CronSchedule.cpp:113-118 | on a matching date, a disallowed hour moves the candidate to minute 0, second 0 of the next hour of the same day, or to 00:00:00 of the next day after hour 23, keeping the fraction of a second. |
| SearchProperties.MinuteCorrection | libcron/src/CronSchedule.cpp:119-123 | a disallowed minute moves the candidate to second 0 of the next minute (the next hour after minute 59), fraction kept |
| SearchProperties.SecondCorrection | libcron/src/CronSchedule.cpp:124-127 | a disallowed second adds exactly one second |
| SearchProperties.SkipYear | libcron/src/CronSchedule.cpp:24-29 | no instant between the candidate and the next 1st of January meets the schedule |
| SearchProperties.SkipMonth | libcron/src/CronSchedule.cpp:32-37 | no instant between the candidate and the next 1st of a month meets the schedule |
| SearchProperties.SkipDay | libcron/src/CronSchedule.cpp:52-73 | no instant of a day that does not match meets the schedule |
| SearchProperties.SkipWeek | libcron/src/CronSchedule.cpp:76-105 | with at most one weekday allowed, no instant in the seven days jumped over meets the schedule |
| SearchProperties.SkipHour | libcron/src/CronSchedule.cpp:113-118 | no instant of a disallowed hour meets the schedule |
| SearchProperties.SkipMinute | libcron/src/CronSchedule.cpp:119-123 | no instant of a disallowed minute meets the schedule |
| SearchProperties.SkipSecond | libcron/src/CronSchedule.cpp:124-127 | no instant of a disallowed second meets the schedule |
| SearchProperties.AllIndexesMatch | libcron/src/CronSchedule.cpp:76-99 | with every week index 1 to 5 allowed, every day passes the index check, counted forwards or backwards |
| SearchProperties.PassSkipsNoMatch | libcron/src/CronSchedule.cpp:19-131 | nothing a single pass jumps over meets the schedule, when the day-of-month field governs, at most one weekday is allowed, or every week index is allowed |
| SearchProperties.SearchSkipsNoMatch | libcron/src/CronSchedule.cpp:17-133 | nothing the whole search jumps over meets the schedule, under the same three conditions |
| SearchProperties.NextOccurrenceIsEarliest | libcron/src/CronSchedule.cpp:9-146 | a reported occurrence meets the schedule, and no earlier instant from `from` rounded down does, under the same three conditions |
| SearchProperties.SearchFollowsPass | libcron/src/CronSchedule.cpp:17-133 | two schedules whose passes agree everywhere give the same search |
| SearchProperties.DayOfMonthTakesPrecedence | libcron/src/CronSchedule.cpp:40-60 | when the day-of-month field governs, the weekday, index and reversed-index fields do not change the result |
| SearchProperties.WeekdayTakesPrecedence | libcron/src/CronSchedule.cpp:61-108 | when the day-of-week field governs, any day-of-month set of the same size and either reversed flag give the same result |
| SearchProperties.NextOccurrenceIdempotent | libcron/src/CronSchedule.cpp:9-146 | searching again from a reported occurrence gives the same answer |
| SearchProperties.NonexistentDayNeverFound | libcron/src/CronSchedule.cpp:15-59 | February with only days 30 and 31 allowed is never met, and the search reports `false` |
| SearchProperties.ReversedFirstIsLastDay | libcron/src/CronSchedule.cpp:44-53 | reversed day 1 (`L`) matches exactly the last day of the month |
| SearchProperties.ReversedIndexOneIsLastWeekday | libcron/src/CronSchedule.cpp:87-99 | reversed index 1 matches a day exactly when no later day of its month has the same weekday |
| Calendar.DaysInMonth | libcron/src/CronSchedule.cpp:47 | a month has 28 to 31 days; February has 29 exactly in a leap year |
| Calendar.DaysFromCivil | libcron/src/CronSchedule.cpp:27 | the day number of a valid date lies between the starts of its year and of the next year |
| Calendar.CivilFromDays | libcron/src/CronSchedule.cpp:20 | the date of a day number is a valid date whose day number is that day |
| Calendar.CivilFromDaysFromCivil | libcron/src/CronSchedule.cpp:20-27 | every valid date survives the round trip through its day number |
| Calendar.DaysFromCivilOrdered | libcron/src/CronSchedule.cpp:27-35 | later dates have larger day numbers |
| Calendar.DaysFromCivilInjective | libcron/src/CronSchedule.cpp:27-35 | distinct valid dates have distinct day numbers |
| Calendar.YearOfDay | libcron/src/CronSchedule.cpp:20-24 | a day between the starts of year `y` and year `y+1` falls in year `y` |
| Calendar.DaysBeforeYearClosedForm | libcron/src/CronSchedule.cpp:26-27 | the year starts equal 365 days a year plus one per Gregorian leap year |
| Calendar.FirstOfNextMonth | libcron/src/CronSchedule.cpp:34-35 | the next 1st of a month is in the following month, or in January of the next year after December |
| Calendar.SameYearUntilNextYear | libcron/src/CronSchedule.cpp:24-29 | every day up to the next 1st of January lies in the same year |
| Calendar.SameMonthUntilNextMonth | libcron/src/CronSchedule.cpp:32-37 | every day up to the next 1st of a month lies in the same month |
| Calendar.Weekday | libcron/src/CronSchedule.cpp:66 | the weekday of a day number is in 0 to 6 |
| Calendar.WeekdayAnchor | libcron/src/CronSchedule.cpp:66 | 1970-01-01 has weekday 4 (Thursday) and 1970-01-04 has weekday 0 (Sunday), as `c_encoding` counts |
| Calendar.WeekdayPeriod | libcron/src/CronSchedule.cpp:81-84 | weekdays repeat every seven days and no sooner |
| Calendar.WeekdayIndex | libcron/src/CronSchedule.cpp:78 | the forward index is 1 to 5, and the day is the index-th of its weekday in the month |
| Calendar.ReversedDay | libcron/src/CronSchedule.cpp:47-48 | the day counted from the end stays in 1 to the month length and is 1 exactly on the last day |
| Calendar.ReversedDayInvolutive | libcron/src/CronSchedule.cpp:48 | counting from the end twice gives the day back |
| Calendar.LastWeekdayOfMonth | libcron/src/CronSchedule.cpp:92-93 | the last given weekday of a month has that weekday, lies in the month and is within a week of its last day |
| Clock.DayOfIsFloorDays | libcron/src/CronSchedule.cpp:20 | the day of an instant is its tick count divided by the ticks of a day, rounded down: the instant lies between that day's midnight and the next |
| Clock.Hour | libcron/src/CronSchedule.cpp:112 | the hour of `to_calendar_time` is in 0 to 23 |
| Clock.Minute | libcron/src/CronSchedule.cpp:112 | the minute of `to_calendar_time` is in 0 to 59 |
| Clock.Second | libcron/src/CronSchedule.cpp:112 | the second of `to_calendar_time` is in 0 to 59 |
| Clock.TimeOfDayFields | libcron/src/CronSchedule.cpp:112 | the hour is the one whose 3600 seconds hold the second of the day, and hour, minute and second add up to that second of the day |
| Clock.Midnight | libcron/src/CronSchedule.cpp:55-57 | midnight of a day lies on that day and is a whole second |
| Clock.TimeOfDayDecomposition | libcron/src/CronSchedule.cpp:112 | an instant is its day's midnight plus its hour, minute, second and fraction |
| Clock.ViewOfTimeOfDay | libcron/src/CronSchedule.cpp:112 | an instant built from a day, a second of the day and a fraction shows that day, second and fraction |
| Clock.FloorToSecond | libcron/src/CronSchedule.cpp:143 | rounding down gives the whole second at or before the instant |
| Clock.TruncateTowardZero | libcron/src/CronSchedule.cpp:143 | removing the C++ `%` remainder gives a whole second between the instant rounded down and one second later; it rounds down from 1970 on, and up to the next second before 1970 when there is a fraction |
| Clock.TruncateTowardZeroChangesSecond | libcron/src/CronSchedule.cpp:143 | half a second before 1970 shows second 59, yet is truncated to 00:00:00 |
| Clock.NextHourView | libcron/src/CronSchedule.cpp:115-117 | adding an hour and removing the minutes and seconds reaches minute 0, second 0 of the next hour, or 00:00:00 of the next day after 23 h |
| Clock.NextMinuteView | libcron/src/CronSchedule.cpp:121-122 | adding a minute and removing the seconds reaches second 0 of the next minute, or the next hour after minute 59 |
| Clock.FloorToSecondKeepsView | libcron/src/CronSchedule.cpp:143 | rounding down to the second keeps the date and the time of day |
| ScheduleExamples.DailyFromLastSecond | libcron/src/CronSchedule.cpp:113-131 | every day at midnight, from 23:59:59 of a day in 1970 to 2099: the result is the next midnight, also across a new year |
| ScheduleExamples.DailyIsEarliest | libcron/src/CronSchedule.cpp:39-107 | every day at midnight (`0 0 0 * * ?`) meets the safe-jump condition, so no instant before its reported occurrence meets it |
| ScheduleExamples.LastDayOfFebruary | libcron/src/CronSchedule.cpp:44-53 | `L` in February matches the 29th in a leap year and the 28th otherwise |
| ScheduleExamples.SevenDayJumpCanSkip | libcron/src/CronSchedule.cpp:76-86 | with Mondays and Tuesdays of index 2 allowed, the pass from the first Monday of September 1970 jumps seven days past the matching second Tuesday |
| ScheduleExamples.TruncationBreaksOccurrence | libcron/src/CronSchedule.cpp:143 | for a schedule met in the last second of 1969 and any start less than a second before 1970, the result as written is 00:00:00 of 1970, which does not meet the schedule; rounding down gives 23:59:59, which does |

## Left out

- The `date` and `std::chrono` libraries are not part of this model. `Calendar` and `Clock` replace them with their own proleptic Gregorian arithmetic. `to_calendar_time` is taken to give the `floor<days>` date and the hour, minute and second of the rest of the day.
- How `CronData` is built is not part of this model: parsing, enum casts and `value_of`. The schedule is a value of sets and flags, and `CronData::value_of(DayOfMonth::Last)` is the field `lastDayOfMonthValue`, because its number is not visible. The particular schedules take it to be 31, an assumed value.
- The `uint8_t` cast of the index at line 94 is not modelled; indexes are taken as the values 1 to 5 that the field holds.
- CronSchedule.CalculateFrom: requires `from` to fit a signed 64-bit tick count. Candidates later than that range are not checked for overflow; the instants are unbounded integers.
- CronSchedule.CalculateFrom: its contract ties the result to NextOccurrenceAsWritten. That a reported result meets the schedule is not in the method's own contract. It is stated for the rounded-down result by CronSchedule.NextOccurrenceSatisfies. CronSchedule.AsWrittenAgreesFrom1970 carries it over to the as-written result when no allowed year is before 1970.
- SearchProperties.NextOccurrenceIsEarliest: proved only when the day-of-month field governs, at most one weekday is allowed, or every week index 1 to 5 is allowed. That covers every `*`/`?` day-of-week schedule without `#` or `L` indexes. With several weekdays and a restricted index set, the seven-day jump can pass over a matching day (ScheduleExamples.SevenDayJumpCanSkip). Whether the parser can produce such a schedule is not part of this model.
- SearchProperties.PassSkipsNoMatch and SearchProperties.SearchSkipsNoMatch: proved under the same three conditions, for the same reason.
- The scheduler, clock polling, threads, time zones and daylight saving are outside `calculate_from` and are not modelled.

## Findings

| source | as written | input that shows it | evidently intended | confidence | as-written member | corrected member |
|---|---|---|---|---|---|---|
| libcron/src/CronSchedule.cpp:143 | `curr -= curr.time_since_epoch() % seconds{1}` uses C++ `%`, which truncates toward zero, so an instant before 1970 with a fraction of a second moves up to the next whole second | schedule `59 59 23 * * ? 1969`, `from` half a second before 1970: the result is 1970-01-01 00:00:00, which does not meet the schedule. It needs an allowed year before 1970, which the parser may not accept; with every allowed year from 1970 on, the two roundings agree (CronSchedule.AsWrittenAgreesFrom1970) | remove the fraction by rounding down, so that the result stays in the matching second 1969-12-31 23:59:59 | not executed | CronSchedule.NextOccurrenceAsWritten, CronSchedule.CalculateFrom, ScheduleExamples.TruncationBreaksOccurrence | CronSchedule.NextOccurrence, CronSchedule.NextOccurrenceSatisfies |
