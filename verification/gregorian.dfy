/** Python's `datetime.date`, reduced to what the converters use: the proleptic
    Gregorian calendar of years 1..9999, dates as day ordinals (0001-01-01 is
    ordinal 1, as `date.toordinal()` gives), and the Monday-based weekday. */
module Gregorian {

  const MaxYear := 9999

  /** `date(9999, 12, 31).toordinal()`, the last representable day. */
  const MaxOrdinal := 3652059

  /** A representable `datetime.date`, held as its ordinal. */
  type Date = n: int | 1 <= n <= MaxOrdinal witness 1

  predicate IsLeapYear(y: int) {
    y % 4 == 0 && (y % 100 != 0 || y % 400 == 0)
  }

  function DaysInYear(y: int): int {
    if IsLeapYear(y) then 366 else 365
  }

  function DaysInMonth(y: int, m: int): int
    requires 1 <= m <= 12
  {
    if m == 2 then (if IsLeapYear(y) then 29 else 28)
    else if m == 4 || m == 6 || m == 9 || m == 11 then 30
    else 31
  }

  /** Days in year `y` before the first of month `m`. */
  function DaysBeforeMonth(y: int, m: int): int
    requires 1 <= m <= 12
  {
    var cumulative := [0, 31, 59, 90, 120, 151, 181, 212, 243, 273, 304, 334];
    cumulative[m - 1] + (if m > 2 && IsLeapYear(y) then 1 else 0)
  }

  /** Days before January 1 of year `y`, counted from 0001-01-01. */
  function DaysBeforeYear(y: int): int
    requires y >= 1
  {
    var p := y - 1;
    p * 365 + p / 4 - p / 100 + p / 400
  }

  /** The check `datetime.date(y, m, d)` makes before it accepts its arguments. */
  predicate IsValidDate(y: int, m: int, d: int) {
    1 <= y <= MaxYear && 1 <= m <= 12 && 1 <= d <= DaysInMonth(y, m)
  }

  lemma DaysBeforeYearStep(y: int)
    requires y >= 1
    ensures DaysBeforeYear(y + 1) == DaysBeforeYear(y) + DaysInYear(y)
  {
    var p := y - 1;
    assert (p + 1) / 4 == p / 4 + (if y % 4 == 0 then 1 else 0);
    assert (p + 1) / 100 == p / 100 + (if y % 100 == 0 then 1 else 0);
    assert (p + 1) / 400 == p / 400 + (if y % 400 == 0 then 1 else 0);
  }

  lemma {:induction false} DaysBeforeYearMonotone(y: int, y': int)
    requires 1 <= y <= y'
    ensures DaysBeforeYear(y) + 365 * (y' - y) <= DaysBeforeYear(y')
    decreases y' - y
  {
    if y < y' {
      DaysBeforeYearMonotone(y, y' - 1);
      DaysBeforeYearStep(y' - 1);
    }
  }

  lemma DaysBeforeMonthStep(y: int, m: int)
    requires 1 <= m < 12
    ensures DaysBeforeMonth(y, m + 1) == DaysBeforeMonth(y, m) + DaysInMonth(y, m)
  {
  }

  lemma DaysBeforeMonthMonotone(y: int, m: int, m': int)
    requires 1 <= m < m' <= 12
    ensures DaysBeforeMonth(y, m) + DaysInMonth(y, m) <= DaysBeforeMonth(y, m')
  {
  }

  lemma DaysInDecember(y: int)
    ensures DaysBeforeMonth(y, 12) + DaysInMonth(y, 12) == DaysInYear(y)
  {
  }

  lemma MonthWithinYear(y: int, m: int)
    requires 1 <= m <= 12
    ensures DaysBeforeMonth(y, m) + DaysInMonth(y, m) <= DaysInYear(y)
  {
  }

  /** `date(y, m, d).toordinal()`: the day count since 0001-01-01, which is day 1.
      Each year's days occupy exactly the ordinals after the previous year's. */
  function ToOrdinal(y: int, m: int, d: int): (n: Date)
    requires IsValidDate(y, m, d)
    ensures DaysBeforeYear(y) < n <= DaysBeforeYear(y) + DaysInYear(y)
  {
    MonthWithinYear(y, m);
    DaysBeforeYearStep(y);
    DaysBeforeYearMonotone(y + 1, MaxYear + 1);
    DaysBeforeYear(y) + DaysBeforeMonth(y, m) + d
  }

  /** `date.weekday()` of the date with ordinal `n`: Monday is 0, Sunday is 6. */
  function DayOfWeek(n: int): int {
    (n + 6) % 7
  }

  /** The day after any day is one weekday later, Sunday wrapping to Monday. */
  lemma DayOfWeekNext(n: int)
    ensures DayOfWeek(n + 1) == (DayOfWeek(n) + 1) % 7
  {
    var q := (n + 6) / 7;
    var r := (n + 6) % 7;
    assert n + 7 == 7 * q + (r + 1);
    if r < 6 {
      assert (n + 7) % 7 == r + 1;
    } else {
      assert n + 7 == 7 * (q + 1);
      assert (n + 7) % 7 == 0;
    }
  }

  /** The calendar day after a valid date, rolling over months and years. */
  function NextDay(y: int, m: int, d: int): (int, int, int)
    requires IsValidDate(y, m, d)
  {
    if d < DaysInMonth(y, m) then (y, m, d + 1)
    else if m < 12 then (y, m + 1, 1)
    else (y + 1, 1, 1)
  }

  /** Consecutive calendar days have consecutive ordinals: the ordinal numbering
      has no gaps and no repeats, and the weekday advances by one. */
  lemma ToOrdinalNextDay(y: int, m: int, d: int)
    requires IsValidDate(y, m, d) && (y, m, d) != (MaxYear, 12, 31)
    ensures var (y', m', d') := NextDay(y, m, d);
      && IsValidDate(y', m', d')
      && ToOrdinal(y', m', d') == ToOrdinal(y, m, d) + 1
      && DayOfWeek(ToOrdinal(y', m', d')) == (DayOfWeek(ToOrdinal(y, m, d)) + 1) % 7
  {
    var n := ToOrdinal(y, m, d);
    DayOfWeekNext(n);
    if d < DaysInMonth(y, m) {
      assert NextDay(y, m, d) == (y, m, d + 1);
      assert ToOrdinal(y, m, d + 1) == n + 1;
    } else if m < 12 {
      assert NextDay(y, m, d) == (y, m + 1, 1);
      DaysBeforeMonthStep(y, m);
      assert ToOrdinal(y, m + 1, 1) == n + 1;
    } else {
      assert NextDay(y, m, d) == (y + 1, 1, 1);
      DaysBeforeYearStep(y);
      DaysInDecember(y);
      assert ToOrdinal(y + 1, 1, 1) == n + 1;
    }
  }

  predicate LexLess(y: int, m: int, d: int, y': int, m': int, d': int) {
    y < y' || (y == y' && (m < m' || (m == m' && d < d')))
  }

  /** A later calendar date has a larger ordinal. */
  lemma ToOrdinalIncreasing(y: int, m: int, d: int, y': int, m': int, d': int)
    requires IsValidDate(y, m, d) && IsValidDate(y', m', d')
    requires LexLess(y, m, d, y', m', d')
    ensures ToOrdinal(y, m, d) < ToOrdinal(y', m', d')
  {
    if y < y' {
      DaysBeforeYearStep(y);
      DaysBeforeYearMonotone(y + 1, y');
    } else if m < m' {
      DaysBeforeMonthMonotone(y, m, m');
    }
  }

  /** Distinct calendar dates have distinct ordinals. */
  lemma ToOrdinalInjective(y: int, m: int, d: int, y': int, m': int, d': int)
    requires IsValidDate(y, m, d) && IsValidDate(y', m', d')
    requires ToOrdinal(y, m, d) == ToOrdinal(y', m', d')
    ensures y == y' && m == m' && d == d'
  {
    if LexLess(y, m, d, y', m', d') {
      ToOrdinalIncreasing(y, m, d, y', m', d');
    } else if LexLess(y', m', d', y, m, d) {
      ToOrdinalIncreasing(y', m', d', y, m, d);
    }
  }

  /** The ordinal range is exactly 0001-01-01 .. 9999-12-31. */
  lemma OrdinalBounds()
    ensures IsValidDate(1, 1, 1) && ToOrdinal(1, 1, 1) == 1
    ensures IsValidDate(9999, 12, 31) && ToOrdinal(9999, 12, 31) == MaxOrdinal
  {
    assert DaysBeforeYear(1) == 0;
    assert DaysInMonth(9999, 12) == 31;
    assert DaysBeforeYear(9999) == 3651694 by {
      assert 9998 / 4 == 2499 && 9998 / 100 == 99 && 9998 / 400 == 24;
    }
    assert DaysBeforeMonth(9999, 12) == 334 by {
      assert !IsLeapYear(9999);
    }
  }

  /** 0001-01-01, ordinal 1, is a Monday. */
  lemma FirstDayIsMonday()
    ensures IsValidDate(1, 1, 1) && DayOfWeek(ToOrdinal(1, 1, 1)) == 0
  {
    OrdinalBounds();
  }
}
