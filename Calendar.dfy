/** Proleptic Gregorian calendar dates and their day numbers, which give the
    whole-day difference pandas computes when it subtracts two dates. */
module Calendar {

  predicate IsLeap(y: int) {
    y % 4 == 0 && (y % 100 != 0 || y % 400 == 0)
  }

  function YearLength(y: int): int {
    if IsLeap(y) then 366 else 365
  }

  function DaysInMonth(y: int, m: int): (n: int)
    requires 1 <= m <= 12
    ensures 28 <= n <= 31
  {
    if m == 2 then (if IsLeap(y) then 29 else 28)
    else if m == 4 || m == 6 || m == 9 || m == 11 then 30
    else 31
  }

  predicate ValidDate(y: int, m: int, d: int) {
    1 <= m <= 12 && 1 <= d <= DaysInMonth(y, m)
  }

  /** Days from 1 January of year 1 to 1 January of year `y`. */
  function DaysBeforeYear(y: int): int {
    var p := y - 1;
    365 * p + p / 4 - p / 100 + p / 400
  }

  /** Days from 1 January of year `y` to the first day of month `m`. */
  function DaysBeforeMonth(y: int, m: int): int
    requires 1 <= m <= 12
  {
    var common :=
      if m == 1 then 0 else if m == 2 then 31 else if m == 3 then 59 else if m == 4 then 90
      else if m == 5 then 120 else if m == 6 then 151 else if m == 7 then 181 else if m == 8 then 212
      else if m == 9 then 243 else if m == 10 then 273 else if m == 11 then 304 else 334;
    common + (if m > 2 && IsLeap(y) then 1 else 0)
  }

  /** Consecutive numbering of days; 1 January of year 1 is day 0. */
  function DayNumber(y: int, m: int, d: int): int
    requires 1 <= m <= 12
  {
    DaysBeforeYear(y) + DaysBeforeMonth(y, m) + d - 1
  }

  /** The calendar day after a valid date. */
  function NextDay(y: int, m: int, d: int): (r: (int, int, int))
    requires ValidDate(y, m, d)
    ensures ValidDate(r.0, r.1, r.2)
  {
    if d < DaysInMonth(y, m) then (y, m, d + 1)
    else if m < 12 then (y, m + 1, 1)
    else (y + 1, 1, 1)
  }

  lemma YearStep(y: int)
    ensures DaysBeforeYear(y + 1) == DaysBeforeYear(y) + YearLength(y)
  {
    var p := y - 1;
    Multiples4(y);
    Multiples100(y);
    Multiples400(y);
    LeapDivisors(y);
    assert DaysBeforeYear(y + 1) - DaysBeforeYear(y) == 365 + (y / 4 - p / 4) - (y / 100 - p / 100) + (y / 400 - p / 400);
  }

  /** A multiple of 400 is one of 100, and a multiple of 100 one of 4. */
  lemma LeapDivisors(y: int)
    ensures y % 400 == 0 ==> y % 100 == 0
    ensures y % 100 == 0 ==> y % 4 == 0
  {
  }

  /** Counting the multiples of 4, 100 and 400 up to `y` and up to `y - 1`. */
  lemma Multiples4(y: int)
    ensures y / 4 - (y - 1) / 4 == if y % 4 == 0 then 1 else 0
  {
  }

  lemma Multiples100(y: int)
    ensures y / 100 - (y - 1) / 100 == if y % 100 == 0 then 1 else 0
  {
  }

  lemma Multiples400(y: int)
    ensures y / 400 - (y - 1) / 400 == if y % 400 == 0 then 1 else 0
  {
  }

  /** The day numbers of a date and of the day after it differ by one: day
      numbers count calendar days without gaps or repeats. */
  lemma NextDayNumber(y: int, m: int, d: int)
    requires ValidDate(y, m, d)
    ensures var (y2, m2, d2) := NextDay(y, m, d); DayNumber(y2, m2, d2) == DayNumber(y, m, d) + 1
  {
    if d == DaysInMonth(y, m) && m == 12 {
      YearStep(y);
    }
  }

  /** A date's offset inside its year is less than the year's length. */
  lemma DayOfYearBound(y: int, m: int, d: int)
    requires ValidDate(y, m, d)
    ensures 0 <= DaysBeforeMonth(y, m) + d - 1 < YearLength(y)
  {
  }

  lemma {:induction false} DaysBeforeYearMonotone(a: int, b: int)
    requires a <= b
    ensures DaysBeforeYear(a) + (b - a) * 365 <= DaysBeforeYear(b)
    decreases b - a
  {
    if a < b {
      DaysBeforeYearMonotone(a, b - 1);
      YearStep(b - 1);
    }
  }

  /** Lexicographic order of (year, month, day). */
  predicate Before(y1: int, m1: int, d1: int, y2: int, m2: int, d2: int) {
    y1 < y2 || (y1 == y2 && (m1 < m2 || (m1 == m2 && d1 < d2)))
  }

  /** Earlier dates have smaller day numbers, so the day difference of two
      dates is negative, zero or positive exactly as the first date is
      before, equal to or after the second. */
  lemma DayNumberOrder(y1: int, m1: int, d1: int, y2: int, m2: int, d2: int)
    requires ValidDate(y1, m1, d1) && ValidDate(y2, m2, d2)
    ensures Before(y1, m1, d1, y2, m2, d2) <==> DayNumber(y1, m1, d1) < DayNumber(y2, m2, d2)
    ensures (y1, m1, d1) == (y2, m2, d2) <==> DayNumber(y1, m1, d1) == DayNumber(y2, m2, d2)
  {
    DayOfYearBound(y1, m1, d1);
    DayOfYearBound(y2, m2, d2);
    if y1 < y2 {
      DaysBeforeYearMonotone(y1 + 1, y2);
      YearStep(y1);
    } else if y2 < y1 {
      DaysBeforeYearMonotone(y2 + 1, y1);
      YearStep(y2);
    } else {
      if m1 < m2 {
        MonthOrder(y1, m1, m2);
      } else if m2 < m1 {
        MonthOrder(y1, m2, m1);
      }
    }
  }

  lemma MonthOrder(y: int, m1: int, m2: int)
    requires 1 <= m1 < m2 <= 12
    ensures DaysBeforeMonth(y, m1) + DaysInMonth(y, m1) <= DaysBeforeMonth(y, m2)
  {
  }
}
