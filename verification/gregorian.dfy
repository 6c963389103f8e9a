/** Gregorian calendar arithmetic on day numbers. The components build dates
    with `new Date(y, m, d)` and read them back with `getFullYear`,
    `getMonth`, `getDate` and `getDay`; here a date is a (year, month, day)
    triple with month 1..12, and `ToDay`/`FromDay` convert between triples
    and day numbers (day 0 is 0001-01-01). */
module Gregorian {
  import opened Types

  datatype Date = Date(year: int, month: int, day: int)

  predicate IsLeapYear(y: int)
  {
    (y % 4 == 0 && y % 100 != 0) || y % 400 == 0
  }

  /** Length of month `m` (1..12) of year `y`. */
  function DaysInMonth(y: int, m: int): (n: int)
    requires 1 <= m <= 12
    ensures 28 <= n <= 31
    ensures n == 29 <==> m == 2 && IsLeapYear(y)
    ensures n == 28 <==> m == 2 && !IsLeapYear(y)
  {
    if m == 2 then (if IsLeapYear(y) then 29 else 28)
    else if m == 4 || m == 6 || m == 9 || m == 11 then 30
    else 31
  }

  function YearLength(y: int): int
  {
    if IsLeapYear(y) then 366 else 365
  }

  predicate ValidDate(d: Date)
  {
    1 <= d.year && 1 <= d.month <= 12 && 1 <= d.day <= DaysInMonth(d.year, d.month)
  }

  /** Days from 0001-01-01 to January 1st of year `y`. */
  function DaysBeforeYear(y: int): int
  {
    var p := y - 1;
    365 * p + p / 4 - p / 100 + p / 400
  }

  /** Days from January 1st to the first of month `m` in year `y`. */
  function DaysBeforeMonth(y: int, m: int): int
    requires 1 <= m <= 12
  {
    var common :=
      if m == 1 then 0 else if m == 2 then 31 else if m == 3 then 59
      else if m == 4 then 90 else if m == 5 then 120 else if m == 6 then 151
      else if m == 7 then 181 else if m == 8 then 212 else if m == 9 then 243
      else if m == 10 then 273 else if m == 11 then 304 else 334;
    if m > 2 && IsLeapYear(y) then common + 1 else common
  }

  function ToDay(d: Date): Day
    requires 1 <= d.month <= 12
  {
    DaysBeforeYear(d.year) + DaysBeforeMonth(d.year, d.month) + d.day - 1
  }

  /** Finds the year holding day `n` of the count that starts at January 1st
      of year `y`; returns that year and the 0-based day within it. */
  function YearOf(n: int, y: int): (int, int)
    decreases n
  {
    if n < YearLength(y) then (y, n) else YearOf(n - YearLength(y), y + 1)
  }

  /** Finds the month holding 0-based day `doy` of the count that starts at
      the first of month `m`; returns the month and the 1-based day. */
  function MonthOf(y: int, doy: int, m: int): (r: (int, int))
    requires 1 <= m <= 12
    ensures m <= r.0 <= 12
    decreases 12 - m
  {
    if m == 12 || doy < DaysInMonth(y, m) then (m, doy + 1)
    else MonthOf(y, doy - DaysInMonth(y, m), m + 1)
  }

  function FromDay(n: Day): Date
  {
    var (y, doy) := YearOf(n, 1);
    var (m, d) := MonthOf(y, doy, 1);
    Date(y, m, d)
  }

  /** Whatever the day number, its month is one of the twelve. */
  lemma FromDayMonth(n: Day)
    ensures 1 <= FromDay(n).month <= 12
  {
  }

  /** `getDay()`: 0 is Sunday. Day 0 (0001-01-01) is a Monday. */
  function Weekday(n: Day): (w: int)
    ensures 0 <= w < 7
  {
    (n + 1) % 7
  }

  /** Lexicographic order on (year, month, day). */
  predicate Before(a: Date, b: Date)
  {
    a.year < b.year
    || (a.year == b.year && a.month < b.month)
    || (a.year == b.year && a.month == b.month && a.day < b.day)
  }

  // ---------------------------------------------------------------------
  // Year and month steps

  lemma YearStep(y: int)
    ensures DaysBeforeYear(y + 1) == DaysBeforeYear(y) + YearLength(y)
  {
    StepDiv4(y);
    StepDiv100(y);
    StepDiv400(y);
    DivisibilityChain(y);
    assert DaysBeforeYear(y + 1) - DaysBeforeYear(y)
      == 365 + (y / 4 - (y - 1) / 4) - (y / 100 - (y - 1) / 100) + (y / 400 - (y - 1) / 400);
  }

  /** A multiple of 400 is a multiple of 100, which is a multiple of 4. */
  lemma DivisibilityChain(y: int)
    ensures y % 400 == 0 ==> y % 100 == 0
    ensures y % 100 == 0 ==> y % 4 == 0
  {
    if y % 400 == 0 {
      var k := y / 400;
      assert y == 400 * k;
      MultipleOf100(4 * k);
    }
    if y % 100 == 0 {
      var k := y / 100;
      assert y == 100 * k;
      MultipleOf4(25 * k);
    }
  }

  lemma MultipleOf100(k: int)
    ensures (100 * k) % 100 == 0
  {
  }

  lemma MultipleOf4(k: int)
    ensures (4 * k) % 4 == 0
  {
  }

  lemma StepDiv4(y: int)
    ensures y / 4 - (y - 1) / 4 == if y % 4 == 0 then 1 else 0
  {
  }

  lemma StepDiv100(y: int)
    ensures y / 100 - (y - 1) / 100 == if y % 100 == 0 then 1 else 0
  {
  }

  lemma StepDiv400(y: int)
    ensures y / 400 - (y - 1) / 400 == if y % 400 == 0 then 1 else 0
  {
  }

  lemma {:induction false} YearsMonotone(a: int, b: int)
    requires a <= b
    ensures DaysBeforeYear(a) + 365 * (b - a) <= DaysBeforeYear(b)
    decreases b - a
  {
    if a < b {
      YearsMonotone(a, b - 1);
      YearStep(b - 1);
    }
  }

  lemma MonthStep(y: int, m: int)
    requires 1 <= m < 12
    ensures DaysBeforeMonth(y, m + 1) == DaysBeforeMonth(y, m) + DaysInMonth(y, m)
  {
  }

  lemma LastMonth(y: int)
    ensures DaysBeforeMonth(y, 12) + DaysInMonth(y, 12) == YearLength(y)
  {
  }

  lemma MonthsMonotone(y: int, a: int, b: int)
    requires 1 <= a < b <= 12
    ensures DaysBeforeMonth(y, a) + DaysInMonth(y, a) <= DaysBeforeMonth(y, b)
  {
  }

  lemma DayWithinYear(d: Date)
    requires ValidDate(d)
    ensures DaysBeforeYear(d.year) <= ToDay(d) < DaysBeforeYear(d.year) + YearLength(d.year)
  {
    if d.month < 12 {
      MonthsMonotone(d.year, d.month, 12);
    }
    LastMonth(d.year);
  }

  // ---------------------------------------------------------------------
  // Order and round trips

  /** Later dates have larger day numbers. */
  lemma ToDayMonotone(a: Date, b: Date)
    requires ValidDate(a) && ValidDate(b) && Before(a, b)
    ensures ToDay(a) < ToDay(b)
  {
    DayWithinYear(a);
    DayWithinYear(b);
    if a.year < b.year {
      YearStep(a.year);
      YearsMonotone(a.year + 1, b.year);
    } else if a.month < b.month {
      MonthsMonotone(a.year, a.month, b.month);
    }
  }

  /** Day-number order is exactly calendar order. */
  lemma ToDayOrder(a: Date, b: Date)
    requires ValidDate(a) && ValidDate(b)
    ensures ToDay(a) < ToDay(b) <==> Before(a, b)
    ensures ToDay(a) == ToDay(b) <==> a == b
  {
    if Before(a, b) {
      ToDayMonotone(a, b);
    } else if Before(b, a) {
      ToDayMonotone(b, a);
    }
  }

  lemma {:induction false} YearOfCorrect(n: int, y: int)
    requires 0 <= n && 1 <= y
    ensures var (yy, doy) := YearOf(n, y);
      y <= yy && 0 <= doy < YearLength(yy) && DaysBeforeYear(yy) + doy == DaysBeforeYear(y) + n
    decreases n
  {
    if n >= YearLength(y) {
      YearStep(y);
      YearOfCorrect(n - YearLength(y), y + 1);
    }
  }

  lemma {:induction false} MonthOfCorrect(y: int, doy: int, m: int)
    requires 1 <= m <= 12 && 0 <= doy
    requires DaysBeforeMonth(y, m) + doy < YearLength(y)
    ensures var (mm, d) := MonthOf(y, doy, m);
      m <= mm <= 12 && 1 <= d <= DaysInMonth(y, mm)
      && DaysBeforeMonth(y, mm) + d - 1 == DaysBeforeMonth(y, m) + doy
    decreases 12 - m
  {
    if m == 12 {
      LastMonth(y);
    } else if doy >= DaysInMonth(y, m) {
      MonthStep(y, m);
      MonthOfCorrect(y, doy - DaysInMonth(y, m), m + 1);
    }
  }

  /** Every non-negative day number names a valid date, and converting that
      date back gives the same number. */
  lemma FromDayCorrect(n: Day)
    requires 0 <= n
    ensures ValidDate(FromDay(n)) && ToDay(FromDay(n)) == n
  {
    YearOfCorrect(n, 1);
    var (y, doy) := YearOf(n, 1);
    MonthOfCorrect(y, doy, 1);
  }

  /** Every valid date is recovered from its day number. */
  lemma ToDayRoundTrip(d: Date)
    requires ValidDate(d)
    ensures 0 <= ToDay(d) && FromDay(ToDay(d)) == d
  {
    DayWithinYear(d);
    YearsMonotone(1, d.year);
    FromDayCorrect(ToDay(d));
    ToDayOrder(FromDay(ToDay(d)), d);
  }

  // ---------------------------------------------------------------------
  // Days with a four-digit year

  /** 1000-01-01 and 9999-12-31: the days whose `YYYY-MM-DD` form has a
      four-digit year. */
  const MinDay: Day := 364877
  const MaxDay: Day := 3652058

  predicate InRange(n: Day)
  {
    MinDay <= n <= MaxDay
  }

  lemma RangeBounds()
    ensures ToDay(Date(1000, 1, 1)) == MinDay
    ensures ToDay(Date(9999, 12, 31)) == MaxDay
  {
  }

  lemma InRangeYears(n: Day)
    requires InRange(n)
    ensures ValidDate(FromDay(n)) && 1000 <= FromDay(n).year <= 9999
  {
    FromDayCorrect(n);
    var d := FromDay(n);
    DayWithinYear(d);
    if d.year < 1000 {
      YearStep(d.year);
      YearsMonotone(d.year + 1, 1000);
    }
    if d.year > 9999 {
      YearsMonotone(10000, d.year);
    }
  }
}
