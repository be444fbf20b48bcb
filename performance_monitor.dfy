/** The calendar progress values of the performance monitor (src/utils/performance_monitor.py):
    how far through the day, the week, the month and the year the current moment is.

    The source reads `datetime.now()` and divides in floating point; here the moment is an
    input and each progress an exact fraction `num / den`. */
module PerformanceMonitor {
  /** A fraction `num / den`. */
  datatype Ratio = Ratio(num: int, den: int)

  /** The fields of `datetime.now()` the progress functions read; `weekday` counts from Monday
      as 0. */
  datatype Moment = Moment(year: int, month: int, day: int, hour: int, minute: int, second: int, weekday: int)

  /** The Gregorian rule: every fourth year, except centuries not divisible by 400. */
  predicate IsLeap(year: int) {
    year % 4 == 0 && (year % 100 != 0 || year % 400 == 0)
  }

  /** The month lengths `get_month_progress` uses: 30 for April, June, September and November,
      29 or 28 for February, 31 for every other month number. */
  function DaysInMonth(year: int, month: int): (days: int)
    ensures 28 <= days <= 31
    ensures month == 2 ==> (days == 29 <==> IsLeap(year)) && (days == 28 <==> !IsLeap(year))
    ensures (month == 4 || month == 6 || month == 9 || month == 11) ==> days == 30
    ensures month != 2 && month != 4 && month != 6 && month != 9 && month != 11 ==> days == 31
  {
    if month == 4 || month == 6 || month == 9 || month == 11 then 30
    else if month == 2 then (if IsLeap(year) then 29 else 28)
    else 31
  }

  /** The year length `get_year_progress` uses, with its own copy of the leap-year test. */
  function DaysInYear(year: int): (days: int)
    ensures days == 365 || days == 366
    ensures days == 366 <==> IsLeap(year)
  {
    if year % 4 == 0 && (year % 100 != 0 || year % 400 == 0) then 366 else 365
  }

  /** The days of the months before `month`. */
  function DaysBefore(year: int, month: int): (days: int)
    requires 1 <= month <= 13
    ensures days >= 0
  {
    if month == 1 then 0 else DaysBefore(year, month - 1) + DaysInMonth(year, month - 1)
  }

  /** The twelve month lengths add up to the year length: the two leap-year tests agree. */
  lemma MonthsMakeYear(year: int)
    ensures DaysBefore(year, 13) == DaysInYear(year)
  {
    var feb := DaysInMonth(year, 2);
    assert DaysBefore(year, 2) == 31;
    assert DaysBefore(year, 3) == 31 + feb;
    assert DaysBefore(year, 4) == 62 + feb;
    assert DaysBefore(year, 5) == 92 + feb;
    assert DaysBefore(year, 6) == 123 + feb;
    assert DaysBefore(year, 7) == 153 + feb;
    assert DaysBefore(year, 8) == 184 + feb;
    assert DaysBefore(year, 9) == 215 + feb;
    assert DaysBefore(year, 10) == 245 + feb;
    assert DaysBefore(year, 11) == 276 + feb;
    assert DaysBefore(year, 12) == 306 + feb;
  }

  /** More months, more days. */
  lemma {:induction false} DaysBeforeGrows(year: int, m: int, k: int)
    requires 1 <= m <= k <= 13
    ensures DaysBefore(year, m) <= DaysBefore(year, k)
  {
    if m < k {
      DaysBeforeGrows(year, m, k - 1);
    }
  }

  /** `timetuple().tm_yday`: 1 on the first of January. */
  function DayOfYear(m: Moment): int
    requires 1 <= m.month <= 12
  {
    DaysBefore(m.year, m.month) + m.day
  }

  /** A moment `datetime` can hold. */
  predicate ValidMoment(m: Moment) {
    && 1 <= m.month <= 12 && 1 <= m.day <= DaysInMonth(m.year, m.month)
    && 0 <= m.hour < 24 && 0 <= m.minute < 60 && 0 <= m.second < 60
    && 0 <= m.weekday < 7
  }

  function SecondsOfDay(m: Moment): int {
    m.hour * 3600 + m.minute * 60 + m.second
  }

  const SECONDS_PER_DAY: int := 24 * 3600

  /** `get_day_progress`: the seconds since midnight over the seconds of a day, from 0 at
      midnight up to, never reaching, 1. */
  function DayProgress(m: Moment): (r: Ratio)
    ensures r.den == SECONDS_PER_DAY
    ensures ValidMoment(m) ==> 0 <= r.num < r.den
    ensures ValidMoment(m) && m.hour == 0 && m.minute == 0 && m.second == 0 ==> r.num == 0
  {
    Ratio(SecondsOfDay(m), SECONDS_PER_DAY)
  }

  /** `get_week_progress`: the days of the week begun, over 7; Monday gives 1/7 and Sunday all
      of it. */
  function WeekProgress(m: Moment): (r: Ratio)
    ensures r.den == 7
    ensures ValidMoment(m) ==> 0 < r.num <= r.den
    ensures m.weekday == 0 ==> r == Ratio(1, 7)
    ensures m.weekday == 6 ==> r.num == r.den
  {
    Ratio(m.weekday + 1, 7)
  }

  /** `get_month_progress`: the day of the month over the month's length, above 0 and all of it
      exactly on the last day. */
  function MonthProgress(m: Moment): (r: Ratio)
    ensures r.den == DaysInMonth(m.year, m.month)
    ensures ValidMoment(m) ==> 0 < r.num <= r.den
    ensures ValidMoment(m) ==> (r.num == r.den <==> m.day == DaysInMonth(m.year, m.month))
  {
    Ratio(m.day, DaysInMonth(m.year, m.month))
  }

  /** `get_year_progress`: the whole days gone plus the fraction of today, over the days of the
      year, written over the common denominator `86400 * days_in_year`; from 0 at the start of
      the first of January up to, never reaching, 1. */
  function YearProgress(m: Moment): (r: Ratio)
    requires 1 <= m.month <= 12
    ensures r.den == SECONDS_PER_DAY * DaysInYear(m.year)
    ensures ValidMoment(m) ==> 0 <= r.num < r.den
    ensures ValidMoment(m) && m.month == 1 && m.day == 1 ==> r.num == SecondsOfDay(m)
  {
    DayOfYearInYear(m);
    var gone, today, days := DayOfYear(m) - 1, SecondsOfDay(m), DaysInYear(m.year);
    DaySecondsBelow(gone, today, days);
    Ratio(gone * SECONDS_PER_DAY + today, SECONDS_PER_DAY * days)
  }

  /** Whole days before the last one plus a part of a day stay below all the days. */
  lemma DaySecondsBelow(gone: int, today: int, days: int)
    ensures 0 <= gone < days && 0 <= today < SECONDS_PER_DAY ==>
      0 <= gone * SECONDS_PER_DAY + today < SECONDS_PER_DAY * days
  {
    if 0 <= gone < days && 0 <= today < SECONDS_PER_DAY {
      assert gone * SECONDS_PER_DAY <= (days - 1) * SECONDS_PER_DAY;
    }
  }

  /** The day of the year of a valid moment is one of the year's days. */
  lemma DayOfYearInYear(m: Moment)
    requires 1 <= m.month <= 12
    ensures ValidMoment(m) ==> 1 <= DayOfYear(m) <= DaysInYear(m.year)
  {
    if ValidMoment(m) {
      DaysBeforeGrows(m.year, m.month + 1, 13);
      MonthsMakeYear(m.year);
    }
  }

  /** The last second of the year is one second short of the whole year. */
  lemma LastSecondOfYear(year: int, weekday: int)
    requires 0 <= weekday < 7
    ensures var r := YearProgress(Moment(year, 12, 31, 23, 59, 59, weekday)); r.num == r.den - 1
  {
    MonthsMakeYear(year);
  }

  /** The Gregorian calendar repeats every 400 years, month by month, and a leap year is
      followed by at least three common years. */
  lemma LeapCycle(year: int, month: int)
    ensures DaysInYear(year + 400) == DaysInYear(year)
    ensures DaysInMonth(year + 400, month) == DaysInMonth(year, month)
    ensures IsLeap(year) ==> !IsLeap(year + 1) && !IsLeap(year + 2) && !IsLeap(year + 3)
  {
    Shift400(year);
    assert IsLeap(year + 400) == IsLeap(year);
    if IsLeap(year) {
      AfterLeap(year);
    }
  }

  /** The three years after a multiple of four are not multiples of four. */
  lemma AfterLeap(year: int)
    requires year % 4 == 0
    ensures (year + 1) % 4 == 1 && (year + 2) % 4 == 2 && (year + 3) % 4 == 3
  {
    var q := year / 4;
    assert year == 4 * q;
    assert year + 1 == 4 * q + 1 && year + 2 == 4 * q + 2 && year + 3 == 4 * q + 3;
  }

  /** Adding 400 keeps the remainders the leap-year test reads. */
  lemma Shift400(x: int)
    ensures (x + 400) % 4 == x % 4 && (x + 400) % 100 == x % 100 && (x + 400) % 400 == x % 400
  {
    var q4, q100, q400 := x / 4, x / 100, x / 400;
    assert x + 400 == 4 * (q4 + 100) + x % 4;
    assert x + 400 == 100 * (q100 + 4) + x % 100;
    assert x + 400 == 400 * (q400 + 1) + x % 400;
  }
}
