/** The proleptic Gregorian calendar, as far as the period types need it:
    the leap rule, month lengths, the day of the year and its inverse, and
    the chronological order of dates. */
module Gregorian {

  /** A calendar date. The date library guarantees `ValidDate` of every
      date it hands out. */
  datatype Date = Date(year: int, month: int, day: int)

  /** Divisible by 4, except centuries that are not divisible by 400. */
  predicate IsLeap(year: int): (b: bool)
    ensures year % 4 != 0 ==> !b
    ensures year % 4 == 0 && year % 100 != 0 ==> b
    ensures year % 100 == 0 && year % 400 != 0 ==> !b
    ensures year % 400 == 0 ==> b
  {
    year % 4 == 0 && (year % 100 != 0 || year % 400 == 0)
  }

  function DaysInYear(year: int): int {
    if IsLeap(year) then 366 else 365
  }

  function DaysInMonth(year: int, month: int): (n: int)
    requires 1 <= month <= 12
    ensures 28 <= n <= 31
    ensures n == 29 <==> month == 2 && IsLeap(year)
    ensures n == 28 <==> month == 2 && !IsLeap(year)
  {
    if month == 2 then (if IsLeap(year) then 29 else 28)
    else if month == 4 || month == 6 || month == 9 || month == 11 then 30
    else 31
  }

  predicate ValidDate(d: Date) {
    1 <= d.month <= 12 && 1 <= d.day <= DaysInMonth(d.year, d.month)
  }

  /** Number of days of `year` that lie before the first of `month`;
      month 13 stands for the end of the year. Computed from the cumulative
      table of a common year plus the leap day, and shown to be the running
      sum of the month lengths. */
  function DaysBeforeMonth(year: int, month: int): (n: int)
    requires 1 <= month <= 13
    ensures month == 1 ==> n == 0
    ensures month == 13 ==> n == DaysInYear(year)
  {
    var common := match month
      case 1 => 0   case 2 => 31   case 3 => 59   case 4 => 90
      case 5 => 120 case 6 => 151  case 7 => 181  case 8 => 212
      case 9 => 243 case 10 => 273 case 11 => 304 case 12 => 334
      case _ => 365;
    common + (if month > 2 && IsLeap(year) then 1 else 0)
  }

  /** The table is the running sum of the month lengths. */
  lemma DaysBeforeMonthStep(year: int, month: int)
    requires 1 <= month <= 12
    ensures DaysBeforeMonth(year, month + 1) == DaysBeforeMonth(year, month) + DaysInMonth(year, month)
  {
  }

  /** The leap day shifts every month from March on by one day and nothing else. */
  lemma DaysBeforeMonthLeapShift(year: int, other: int, month: int)
    requires 1 <= month <= 13
    requires !IsLeap(other)
    ensures DaysBeforeMonth(year, month)
            == DaysBeforeMonth(other, month) + (if month > 2 && IsLeap(year) then 1 else 0)
  {
  }

  /** Earlier months start earlier, by at least the length of the earlier month. */
  lemma {:induction false} DaysBeforeMonthMonotone(year: int, m1: int, m2: int)
    requires 1 <= m1 < m2 <= 13
    ensures DaysBeforeMonth(year, m1) + DaysInMonth(year, m1) <= DaysBeforeMonth(year, m2)
    decreases m2 - m1
  {
    DaysBeforeMonthStep(year, m1);
    if m1 + 1 < m2 {
      DaysBeforeMonthMonotone(year, m1 + 1, m2);
    }
  }

  /** 1-based ordinal of the date within its year (the `tm_yday` of the date). */
  function DayOfYear(d: Date): (n: int)
    requires ValidDate(d)
    ensures 1 <= n <= DaysInYear(d.year)
    ensures DaysBeforeMonth(d.year, d.month) < n <= DaysBeforeMonth(d.year, d.month + 1)
  {
    DaysBeforeMonthStep(d.year, d.month);
    DaysBeforeMonth(d.year, d.month) + d.day
  }

  /** The month of `year` that holds day of the year `yday`, searched from month `m` on. */
  function MonthFrom(year: int, yday: int, m: int): (month: int)
    requires 1 <= m <= 12
    requires DaysBeforeMonth(year, m) < yday <= DaysInYear(year)
    ensures m <= month <= 12
    ensures DaysBeforeMonth(year, month) < yday <= DaysBeforeMonth(year, month + 1)
    decreases 12 - m
  {
    if yday <= DaysBeforeMonth(year, m + 1) then m else MonthFrom(year, yday, m + 1)
  }

  /** The date that is day `yday` of `year`: January 1 moved on by `yday - 1` days. */
  function DateOfDayOfYear(year: int, yday: int): (d: Date)
    requires 1 <= yday <= DaysInYear(year)
    ensures ValidDate(d) && d.year == year
    ensures DayOfYear(d) == yday
  {
    var month := MonthFrom(year, yday, 1);
    Date(year, month, yday - DaysBeforeMonth(year, month))
  }

  /** At most one month of a year holds a given day of the year. */
  lemma MonthUnique(year: int, yday: int, m1: int, m2: int)
    requires 1 <= m1 <= 12 && 1 <= m2 <= 12
    requires DaysBeforeMonth(year, m1) < yday <= DaysBeforeMonth(year, m1 + 1)
    requires DaysBeforeMonth(year, m2) < yday <= DaysBeforeMonth(year, m2 + 1)
    ensures m1 == m2
  {
    if m1 < m2 {
      DaysBeforeMonthMonotone(year, m1 + 1, m2 + 1);
    } else if m2 < m1 {
      DaysBeforeMonthMonotone(year, m2 + 1, m1 + 1);
    }
  }

  /** Day of the year identifies a date within its year: the inverse round trip. */
  lemma DateOfDayOfYearInverse(d: Date)
    requires ValidDate(d)
    ensures DateOfDayOfYear(d.year, DayOfYear(d)) == d
  {
    var yday := DayOfYear(d);
    var month := MonthFrom(d.year, yday, 1);
    MonthUnique(d.year, yday, month, d.month);
  }

  /** Chronological order of dates, as the date library compares them. */
  predicate Before(a: Date, b: Date) {
    a.year < b.year
    || (a.year == b.year && (a.month < b.month || (a.month == b.month && a.day < b.day)))
  }

  /** Within one year, chronological order is the order of the days of the year. */
  lemma BeforeSameYear(a: Date, b: Date)
    requires ValidDate(a) && ValidDate(b) && a.year == b.year
    ensures Before(a, b) <==> DayOfYear(a) < DayOfYear(b)
  {
    if a.month < b.month {
      DaysBeforeMonthMonotone(a.year, a.month, b.month);
    } else if b.month < a.month {
      DaysBeforeMonthMonotone(a.year, b.month, a.month);
    }
  }
}
