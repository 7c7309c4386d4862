/**
  The wall-clock fields of a Python `datetime`, the ranges its constructor
  enforces, and the count of seconds since 0001-01-01T00:00:00 that orders
  them on the proleptic Gregorian calendar.
 */
module Calendar {

  datatype WallClock = WallClock(year: int, month: int, day: int, hour: int, minute: int, second: int)

  predicate IsLeapYear(y: int) { y % 4 == 0 && (y % 100 != 0 || y % 400 == 0) }

  function DaysInYear(y: int): int { if IsLeapYear(y) then 366 else 365 }

  function DaysInMonth(y: int, m: int): (n: int)
    requires 1 <= m <= 12
    ensures 28 <= n <= 31
  {
    if m == 2 then (if IsLeapYear(y) then 29 else 28)
    else if m == 4 || m == 6 || m == 9 || m == 11 then 30
    else 31
  }

  /** The field ranges `datetime(year, month, day, hour, minute, second)` accepts. */
  predicate Valid(w: WallClock) {
    && 1 <= w.year <= 9999
    && 1 <= w.month <= 12
    && 1 <= w.day <= DaysInMonth(w.year, w.month)
    && 0 <= w.hour < 24
    && 0 <= w.minute < 60
    && 0 <= w.second < 60
  }

  /** Days from 0001-01-01 to the first day of year y. */
  function DaysBeforeYear(y: int): nat
    requires y >= 1
    decreases y
  {
    if y == 1 then 0 else DaysBeforeYear(y - 1) + DaysInYear(y - 1)
  }

  /** Days from the first day of year y to the first day of month m. */
  function DaysBeforeMonth(y: int, m: int): nat
    requires 1 <= m <= 12
  {
    [0, 31, 59, 90, 120, 151, 181, 212, 243, 273, 304, 334][m - 1]
    + (if m > 2 && IsLeapYear(y) then 1 else 0)
  }

  /** Days from 0001-01-01 to the date of w. */
  function DayNumber(w: WallClock): nat
    requires Valid(w)
  {
    DaysBeforeYear(w.year) + DaysBeforeMonth(w.year, w.month) + w.day - 1
  }

  function SecondOfDay(w: WallClock): nat
    requires Valid(w)
  {
    w.hour * 3600 + w.minute * 60 + w.second
  }

  /** Seconds from 0001-01-01T00:00:00 to w, read as a time on one fixed clock. */
  function LocalSeconds(w: WallClock): int
    requires Valid(w)
  {
    DayNumber(w) * 86400 + SecondOfDay(w)
  }

  /** Field-by-field order, most significant field first (datetime's comparison). */
  predicate Before(a: WallClock, b: WallClock) {
    if a.year != b.year then a.year < b.year
    else if a.month != b.month then a.month < b.month
    else if a.day != b.day then a.day < b.day
    else if a.hour != b.hour then a.hour < b.hour
    else if a.minute != b.minute then a.minute < b.minute
    else a.second < b.second
  }

  lemma MonthFitsInYear(y: int, m: int)
    requires 1 <= m <= 12
    ensures m < 12 ==> DaysBeforeMonth(y, m) + DaysInMonth(y, m) == DaysBeforeMonth(y, m + 1)
    ensures DaysBeforeMonth(y, m) + DaysInMonth(y, m) <= DaysInYear(y)
  {
  }

  lemma {:induction false} MonthsIncrease(y: int, m1: int, m2: int)
    requires 1 <= m1 < m2 <= 12
    ensures DaysBeforeMonth(y, m1) + DaysInMonth(y, m1) <= DaysBeforeMonth(y, m2)
    decreases m2 - m1
  {
    MonthFitsInYear(y, m1);
    if m1 + 1 < m2 {
      MonthsIncrease(y, m1 + 1, m2);
      MonthFitsInYear(y, m1 + 1);
    }
  }

  lemma {:induction false} YearsIncrease(y1: int, y2: int)
    requires 1 <= y1 < y2
    ensures DaysBeforeYear(y1) + DaysInYear(y1) <= DaysBeforeYear(y2)
    decreases y2 - y1
  {
    if y1 + 1 < y2 {
      YearsIncrease(y1 + 1, y2);
    }
  }

  /** An earlier date has a smaller day number. */
  lemma DayNumberIncreasing(a: WallClock, b: WallClock)
    requires Valid(a) && Valid(b) && Before(a, b)
    requires (a.year, a.month, a.day) != (b.year, b.month, b.day)
    ensures DayNumber(a) < DayNumber(b)
  {
    if a.year != b.year {
      MonthFitsInYear(a.year, a.month);
      YearsIncrease(a.year, b.year);
    } else if a.month != b.month {
      MonthsIncrease(a.year, a.month, b.month);
    }
  }

  /** Later wall-clock fields denote a strictly later time. */
  lemma LocalSecondsIncreasing(a: WallClock, b: WallClock)
    requires Valid(a) && Valid(b) && Before(a, b)
    ensures LocalSeconds(a) < LocalSeconds(b)
  {
    if (a.year, a.month, a.day) != (b.year, b.month, b.day) {
      DayNumberIncreasing(a, b);
      assert SecondOfDay(a) < 86400;
    }
  }

  /** Distinct wall-clock fields never denote the same time. */
  lemma LocalSecondsInjective(a: WallClock, b: WallClock)
    requires Valid(a) && Valid(b) && LocalSeconds(a) == LocalSeconds(b)
    ensures a == b
  {
    if Before(a, b) {
      LocalSecondsIncreasing(a, b);
    } else if Before(b, a) {
      LocalSecondsIncreasing(b, a);
    }
  }
}
