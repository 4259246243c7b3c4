/**
 * The proleptic Gregorian calendar used for the day files: the date of a
 * timestamp is the epoch date plus a number of whole days, and the day count
 * between two dates is the difference of their ordinals.
 */
module Calendar {

  datatype Date = Date(year: int, month: int, day: int)

  predicate IsLeapYear(y: int) {
    (y % 4 == 0 && y % 100 != 0) || y % 400 == 0
  }

  function MonthLength(y: int, m: int): (n: int)
    ensures 28 <= n <= 31
  {
    if m == 2 then (if IsLeapYear(y) then 29 else 28)
    else if m == 4 || m == 6 || m == 9 || m == 11 then 30
    else 31
  }

  function YearLength(y: int): int {
    if IsLeapYear(y) then 366 else 365
  }

  predicate ValidDate(d: Date) {
    1 <= d.year && 1 <= d.month <= 12 && 1 <= d.day <= MonthLength(d.year, d.month)
  }

  /** Lexicographic order on (year, month, day). */
  predicate Before(d1: Date, d2: Date) {
    d1.year < d2.year
    || (d1.year == d2.year && d1.month < d2.month)
    || (d1.year == d2.year && d1.month == d2.month && d1.day < d2.day)
  }

  /** Days in the years 1 .. y-1. */
  function DaysBeforeYear(y: int): nat
    requires y >= 1
  {
    if y == 1 then 0 else DaysBeforeYear(y - 1) + YearLength(y - 1)
  }

  /** Days in the months 1 .. m-1 of year y. */
  function DaysBeforeMonth(y: int, m: int): nat
    requires 1 <= m <= 12
  {
    var leap := if m > 2 && IsLeapYear(y) then 1 else 0;
    (match m
     case 1 => 0 case 2 => 31 case 3 => 59 case 4 => 90
     case 5 => 120 case 6 => 151 case 7 => 181 case 8 => 212
     case 9 => 243 case 10 => 273 case 11 => 304 case _ => 334) + leap
  }

  /** Number of days from 1-1-1 to d: 1-1-1 has ordinal 0. */
  function Ordinal(d: Date): nat
    requires ValidDate(d)
  {
    DaysBeforeYear(d.year) + DaysBeforeMonth(d.year, d.month) + d.day - 1
  }

  /** The calendar day after d. */
  function NextDay(d: Date): (r: Date)
    requires ValidDate(d)
    ensures ValidDate(r) && Before(d, r)
  {
    if d.day < MonthLength(d.year, d.month) then Date(d.year, d.month, d.day + 1)
    else if d.month < 12 then Date(d.year, d.month + 1, 1)
    else Date(d.year + 1, 1, 1)
  }

  /** The date n days after d. */
  function AddDays(d: Date, n: nat): (r: Date)
    requires ValidDate(d)
    ensures ValidDate(r)
  {
    if n == 0 then d else NextDay(AddDays(d, n - 1))
  }

  /** The day count between two dates, as a Gregorian date subtraction gives it. */
  function DaysBetween(from: Date, to: Date): int
    requires ValidDate(from) && ValidDate(to)
  {
    Ordinal(to) - Ordinal(from)
  }

  lemma OrdinalNextDay(d: Date)
    requires ValidDate(d)
    ensures Ordinal(NextDay(d)) == Ordinal(d) + 1
  {
    if d.day == MonthLength(d.year, d.month) && d.month == 12 {
      assert DaysBeforeYear(d.year + 1) == DaysBeforeYear(d.year) + YearLength(d.year);
    }
  }

  /** Adding n days moves the ordinal by exactly n. */
  lemma {:induction false} OrdinalAddDays(d: Date, n: nat)
    requires ValidDate(d)
    ensures Ordinal(AddDays(d, n)) == Ordinal(d) + n
  {
    if n > 0 {
      OrdinalAddDays(d, n - 1);
      OrdinalNextDay(AddDays(d, n - 1));
    }
  }

  lemma {:induction false} DaysBeforeYearGrows(y1: int, y2: int)
    requires 1 <= y1 < y2
    ensures DaysBeforeYear(y1) + YearLength(y1) <= DaysBeforeYear(y2)
  {
    if y1 < y2 - 1 {
      DaysBeforeYearGrows(y1, y2 - 1);
    }
  }

  lemma DayOfYearBound(d: Date)
    requires ValidDate(d)
    ensures DaysBeforeMonth(d.year, d.month) + d.day <= YearLength(d.year)
  {
  }

  /** The ordinal is strictly increasing in calendar order. */
  lemma OrdinalMonotone(d1: Date, d2: Date)
    requires ValidDate(d1) && ValidDate(d2) && Before(d1, d2)
    ensures Ordinal(d1) < Ordinal(d2)
  {
    if d1.year < d2.year {
      DaysBeforeYearGrows(d1.year, d2.year);
      DayOfYearBound(d1);
    }
  }

  /** Distinct valid dates have distinct ordinals. */
  lemma OrdinalInjective(d1: Date, d2: Date)
    requires ValidDate(d1) && ValidDate(d2) && Ordinal(d1) == Ordinal(d2)
    ensures d1 == d2
  {
    if Before(d1, d2) {
      OrdinalMonotone(d1, d2);
    } else if Before(d2, d1) {
      OrdinalMonotone(d2, d1);
    }
  }

  /** The day count between d and the date n days later is n. */
  lemma DaysBetweenAddDays(d: Date, a: nat, b: nat)
    requires ValidDate(d)
    ensures DaysBetween(AddDays(d, a), AddDays(d, b)) == b - a
  {
    OrdinalAddDays(d, a);
    OrdinalAddDays(d, b);
  }

  /** Dates a different number of days after d are different dates. */
  lemma AddDaysInjective(d: Date, a: nat, b: nat)
    requires ValidDate(d) && AddDays(d, a) == AddDays(d, b)
    ensures a == b
  {
    OrdinalAddDays(d, a);
    OrdinalAddDays(d, b);
  }

  /** Every valid date on or after d is reached from d by adding days. */
  lemma AddDaysReaches(d: Date, e: Date)
    requires ValidDate(d) && ValidDate(e) && Ordinal(d) <= Ordinal(e)
    ensures AddDays(d, Ordinal(e) - Ordinal(d)) == e
  {
    var n := Ordinal(e) - Ordinal(d);
    OrdinalAddDays(d, n);
    OrdinalInjective(AddDays(d, n), e);
  }
}
