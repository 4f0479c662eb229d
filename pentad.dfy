/** Pentads: five-day periods, 73 per year. Pentad `p` starts on the month
    and day of day `1 + 5 * (p - 1)` of a common year, in every year; in a
    leap year pentad 12 runs six days, from February 25 to March 1. A pentad
    is represented by the date of its first day, so its equality and
    chronological order are those of dates. */
module Pentads {
  import opened Gregorian
  import opened Kalendar

  const PerYear := 73

  /** The common year whose calendar gives every pentad its month and day. */
  const TemplateYear := 2010

  /** Month and day of some pentad start in the template year. */
  predicate IsPentadStart(d: Date) {
    && 1 <= d.month <= 12
    && 1 <= d.day <= DaysInMonth(TemplateYear, d.month)
    && (DaysBeforeMonth(TemplateYear, d.month) + d.day - 1) % 5 == 0
  }

  type Pentad = d: Date | IsPentadStart(d) witness Date(TemplateYear, 1, 1)

  /** Pentad index of a date, from its day of the year. From the leap day on,
      a leap year counts one day less, so pentad 12 takes in February 29. */
  function GetPentad(d: Date): (p: int)
    requires ValidDate(d)
    ensures 1 <= p <= PerYear
  {
    var yday := DayOfYear(d);
    if IsLeap(d.year) && yday >= 60 then 1 + (yday - 2) / 5 else 1 + (yday - 1) / 5
  }

  /** Template date of pentad `pentad`: January 1 of the template year moved
      on by `(pentad - 1) * 5` days. */
  function TemplateDate(pentad: int): (t: Date)
    requires 1 <= pentad <= PerYear
    ensures ValidDate(t) && t.year == TemplateYear
    ensures DayOfYear(t) == 1 + 5 * (pentad - 1)
  {
    DateOfDayOfYear(TemplateYear, 1 + 5 * (pentad - 1))
  }

  /** In the template year, March 1 is day 60. */
  lemma TemplateMarch(t: Date)
    requires ValidDate(t) && t.year == TemplateYear
    ensures t.month >= 3 <==> DayOfYear(t) >= 60
  {
    if 3 < t.month {
      DaysBeforeMonthMonotone(TemplateYear, 3, t.month);
    }
  }

  /** The template month and day make a pentad start and a valid date in any year. */
  lemma TemplateIsStart(year: int, pentad: int)
    requires 1 <= pentad <= PerYear
    ensures var t := TemplateDate(pentad);
            IsPentadStart(Date(year, t.month, t.day)) && ValidDate(Date(year, t.month, t.day))
  {
    var t := TemplateDate(pentad);
    assert Date(TemplateYear, t.month, t.day) == t;
    assert DaysInMonth(TemplateYear, t.month) <= DaysInMonth(year, t.month);
    MultipleOfFive(pentad - 1);
  }

  lemma MultipleOfFive(k: int)
    ensures (5 * k) % 5 == 0
  {
  }

  /** Put in a leap year, the template month and day fall one day of the year
      later from March on. */
  lemma TemplateDayOfYear(year: int, pentad: int)
    requires 1 <= pentad <= PerYear
    ensures var t := TemplateDate(pentad);
            ValidDate(Date(year, t.month, t.day))
            && DayOfYear(Date(year, t.month, t.day))
               == 1 + 5 * (pentad - 1) + (if IsLeap(year) && pentad >= 13 then 1 else 0)
  {
    var t := TemplateDate(pentad);
    TemplateIsStart(year, pentad);
    DaysBeforeMonthLeapShift(year, TemplateYear, t.month);
    TemplateMarch(t);
  }

  /** First day of pentad `pentad` of `year`: the month and day of its
      template date, whatever the leap status of `year`. */
  function Start(year: int, pentad: int): (d: Pentad)
    requires 1 <= pentad <= PerYear
    ensures d.year == year && ValidDate(d)
    ensures d.month == TemplateDate(pentad).month && d.day == TemplateDate(pentad).day
  {
    var t := TemplateDate(pentad);
    TemplateIsStart(year, pentad);
    Date(year, t.month, t.day)
  }

  /** In a leap year the first day of a pentad falls one day of the year later
      from pentad 13 on; reading its index back gives `pentad` in every year. */
  lemma StartDay(year: int, pentad: int)
    requires 1 <= pentad <= PerYear
    ensures DayOfYear(Start(year, pentad))
            == 1 + 5 * (pentad - 1) + (if IsLeap(year) && pentad >= 13 then 1 else 0)
    ensures GetPentad(Start(year, pentad)) == pentad
  {
    TemplateDayOfYear(year, pentad);
    var d := Start(year, pentad);
    var k := pentad - 1;
    if IsLeap(year) && pentad >= 13 {
      assert DayOfYear(d) - 2 == 5 * k;
    } else {
      assert DayOfYear(d) - 1 == 5 * k;
    }
  }

  /** Every pentad value is the start of the pentad its template day of the year names. */
  lemma StartOfTemplateDay(x: Pentad)
    ensures var tday := DayOfYear(Date(TemplateYear, x.month, x.day));
            && 1 <= (tday - 1) / 5 + 1 <= PerYear
            && Start(x.year, (tday - 1) / 5 + 1) == x
  {
    var t := Date(TemplateYear, x.month, x.day);
    var tday := DayOfYear(t);
    var p := (tday - 1) / 5 + 1;
    assert 1 <= p <= PerYear && tday == 1 + 5 * (p - 1);
    DateOfDayOfYearInverse(t);
    assert TemplateDate(p) == t;
    assert Start(x.year, p) == Date(x.year, t.month, t.day);
  }

  /** Pentad index of a pentad (the `pentad` accessor). Rebuilding from the
      year and the index gives the same value. */
  function Index(x: Pentad): (k: int)
    ensures 1 <= k <= PerYear
    ensures Start(x.year, k) == x
  {
    StartOfTemplateDay(x);
    StartDay(x.year, (DayOfYear(Date(TemplateYear, x.month, x.day)) - 1) / 5 + 1);
    GetPentad(x)
  }

  /** Reading the index of a pentad start gives the index it was built from. */
  lemma IndexOfStart(year: int, pentad: int)
    requires 1 <= pentad <= PerYear
    ensures Index(Start(year, pentad)) == pentad
  {
    StartDay(year, pentad);
  }

  /** Construction from a year and a pentad index; an index outside 1..73 is
      refused before any date is built. */
  function Make(year: int, pentad: int): (r: Result<Pentad>)
    ensures r.Err? <==> pentad < 1 || pentad > PerYear
    ensures r.Err? ==> r.error == OutOfRange
    ensures r.Ok? ==> r.value.year == year && Index(r.value) == pentad
  {
    if pentad < 1 || pentad > PerYear then Err(OutOfRange) else Ok(Start(year, pentad))
  }

  /** Days in pentad `pentad` of `year`. */
  function Width(year: int, pentad: int): int {
    if IsLeap(year) && pentad == 12 then 6 else 5
  }

  /** A date lies in pentad `p` exactly when its day of the year is among the
      `Width(year, p)` days that start with the first day of `p`. */
  lemma Span(d: Date, p: int)
    requires ValidDate(d) && 1 <= p <= PerYear
    ensures GetPentad(d) == p
            <==> DayOfYear(Start(d.year, p)) <= DayOfYear(d) < DayOfYear(Start(d.year, p)) + Width(d.year, p)
  {
    StartDay(d.year, p);
    var yday, first := DayOfYear(d), DayOfYear(Start(d.year, p));
    if IsLeap(d.year) && yday >= 60 {
      assert yday - 2 == 5 * ((yday - 2) / 5) + (yday - 2) % 5;
    } else {
      assert yday - 1 == 5 * ((yday - 1) / 5) + (yday - 1) % 5;
    }
  }

  /** The pentads of a year follow each other without gap or overlap. */
  lemma NextStart(year: int, p: int)
    requires 1 <= p < PerYear
    ensures DayOfYear(Start(year, p + 1)) == DayOfYear(Start(year, p)) + Width(year, p)
  {
    StartDay(year, p);
    StartDay(year, p + 1);
  }

  /** In a leap year pentad 12 runs from February 25 to March 1 and holds the leap day. */
  lemma LeapTwelfth(year: int)
    requires IsLeap(year)
    ensures Start(year, 12) == Date(year, 2, 25) && Start(year, 13) == Date(year, 3, 2)
    ensures GetPentad(Date(year, 2, 29)) == 12 && GetPentad(Date(year, 3, 1)) == 12
  {
    assert DayOfYear(Date(TemplateYear, 2, 25)) == 56;
    DateOfDayOfYearInverse(Date(TemplateYear, 2, 25));
    assert TemplateDate(12) == Date(TemplateYear, 2, 25);
    assert DayOfYear(Date(TemplateYear, 3, 2)) == 61;
    DateOfDayOfYearInverse(Date(TemplateYear, 3, 2));
    assert TemplateDate(13) == Date(TemplateYear, 3, 2);
    assert DayOfYear(Date(year, 2, 29)) == 60;
    assert DayOfYear(Date(year, 3, 1)) == 61;
  }

  /** December 27 to 31 make up the last pentad, in every year. */
  lemma LastPentad(year: int, day: int)
    requires 27 <= day <= 31
    ensures GetPentad(Date(year, 12, day)) == PerYear
  {
  }

  /** The pentad that holds date `d`: same year, starting on or before `d`,
      and `d` comes before the start of the next pentad of that year. */
  function FromDate(d: Date): (r: Result<Pentad>)
    requires ValidDate(d)
    ensures r.Ok? && r.value.year == d.year
    ensures !Before(d, r.value)
    ensures Index(r.value) < PerYear ==> Before(d, Start(d.year, Index(r.value) + 1))
  {
    InPentad(d);
    IndexOfStart(d.year, GetPentad(d));
    Make(d.year, GetPentad(d))
  }

  /** A date lies between the start of its pentad and the start of the next one. */
  lemma InPentad(d: Date)
    requires ValidDate(d)
    ensures !Before(d, Start(d.year, GetPentad(d)))
    ensures GetPentad(d) < PerYear ==> Before(d, Start(d.year, GetPentad(d) + 1))
  {
    var p := GetPentad(d);
    Span(d, p);
    BeforeSameYear(d, Start(d.year, p));
    if p < PerYear {
      NextStart(d.year, p);
      BeforeSameYear(d, Start(d.year, p + 1));
    }
  }

  /** The pentad as a plain date with the same year, month and day. */
  function ToDate(x: Pentad): (d: Date)
    ensures ValidDate(d)
    ensures d.year == x.year && d.month == x.month && d.day == x.day
  {
    Date(x.year, x.month, x.day)
  }

  /** Converting to a plain date and back gives the pentad again. */
  lemma ToDateFromDate(x: Pentad)
    ensures FromDate(ToDate(x)) == Ok(x)
  {
    assert ToDate(x) == x;
    IndexOfStart(x.year, Index(x));
  }

  /** Constructor arguments that rebuild an equal value (the reduce hook). */
  function Reduce(x: Pentad): (args: (int, int))
    ensures Make(args.0, args.1) == Ok(x)
  {
    (x.year, Index(x))
  }

  /** Wraps `p1 + p2` into 1..73. */
  function Adjust(p1: int, p2: int): (k: int)
    ensures 1 <= k <= PerYear
    ensures (k - (p1 + p2)) % PerYear == 0
  {
    (p1 + (p2 % PerYear) + 72) % PerYear + 1
  }

  /** Number of pentads from the start of year 0 to the start of `x`. */
  function AbsoluteIndex(x: Pentad): int {
    PerYear * x.year + Index(x) - 1
  }

  /** The absolute index identifies a pentad. */
  lemma AbsoluteIndexInjective(x: Pentad, y: Pentad)
    ensures AbsoluteIndex(x) == AbsoluteIndex(y) <==> x == y
  {
    if AbsoluteIndex(x) == AbsoluteIndex(y) {
      var n := AbsoluteIndex(x);
      assert x.year == n / PerYear && Index(x) == n % PerYear + 1;
      assert y.year == n / PerYear && Index(y) == n % PerYear + 1;
    }
  }

  /** The year carry of `+`: wrapping `p + n` into 1..73 and carrying
      `(p + n - 1) // 73` years loses nothing. */
  lemma CarryExact(p: int, n: int, k: int)
    requires 1 <= k <= PerYear && (k - (p + n)) % PerYear == 0
    ensures PerYear * ((p + n - 1) / PerYear) + k == p + n
  {
    var j, q := (k - (p + n)) / PerYear, (p + n - 1) / PerYear;
    assert k - (p + n) == PerYear * j;
    assert p + n - 1 == PerYear * q + (p + n - 1) % PerYear;
    assert j + q == 0;
  }

  /** The year borrow of `-`: wrapping `p - n` into 1..73 and borrowing
      `(73 - p + n) // 73` years loses nothing. */
  lemma BorrowExact(p: int, n: int, k: int)
    requires 1 <= k <= PerYear && (k - (p - n)) % PerYear == 0
    ensures k - PerYear * ((PerYear - p + n) / PerYear) == p - n
  {
    var j, q := (k - (p - n)) / PerYear, (p - n - 1) / PerYear;
    assert k - (p - n) == PerYear * j;
    assert p - n - 1 == PerYear * q + (p - n - 1) % PerYear;
    assert PerYear - p + n == PerYear * (-q) + (PerYear - 1 - (p - n - 1) % PerYear);
    assert (PerYear - p + n) / PerYear == -q;
    assert j + q == 0;
  }

  /** `x + n`: moves on exactly `n` pentads, for every sign of `n`. */
  function AddInt(x: Pentad, n: int): (r: Pentad)
    ensures Index(r) == Adjust(Index(x), n)
    ensures AbsoluteIndex(r) == AbsoluteIndex(x) + n
  {
    var p, k := Index(x), Adjust(Index(x), n);
    var year := x.year + (p + n - 1) / PerYear;
    IndexOfStart(year, k);
    CarryExact(p, n, k);
    Start(year, k)
  }

  /** `x - n`: moves back exactly `n` pentads, for every sign of `n`. */
  function SubInt(x: Pentad, n: int): (r: Pentad)
    ensures Index(r) == Adjust(Index(x), -n)
    ensures AbsoluteIndex(r) == AbsoluteIndex(x) - n
  {
    var p, k := Index(x), Adjust(Index(x), -n);
    var year := x.year - (PerYear - p + n) / PerYear;
    IndexOfStart(year, k);
    BorrowExact(p, n, k);
    Start(year, k)
  }

  /** `x - y` for two pentads: the signed number of pentads from `y` to `x`. */
  function Difference(x: Pentad, y: Pentad): (k: int)
    ensures k == AbsoluteIndex(x) - AbsoluteIndex(y)
  {
    Index(x) - Index(y) + PerYear * (x.year - y.year)
  }

  /** The count between two pentads is zero exactly when they are equal, and
      adding it to the second gives the first. */
  lemma DifferenceLaws(x: Pentad, y: Pentad)
    ensures Difference(x, y) == 0 <==> x == y
    ensures AddInt(y, Difference(x, y)) == x
  {
    AbsoluteIndexInjective(x, y);
    AbsoluteIndexInjective(AddInt(y, Difference(x, y)), x);
  }

  /** Integer `+` and `-` are exact moves on the pentad count. */
  lemma AddIntLaws(x: Pentad, a: int, b: int)
    ensures AddInt(AddInt(x, a), b) == AddInt(x, a + b)
    ensures AddInt(x, 0) == x
    ensures SubInt(AddInt(x, a), a) == x
    ensures AddInt(x, a) == SubInt(x, -a)
    ensures SubInt(SubInt(x, a), b) == SubInt(x, a + b)
  {
    AbsoluteIndexInjective(AddInt(AddInt(x, a), b), AddInt(x, a + b));
    AbsoluteIndexInjective(AddInt(x, 0), x);
    AbsoluteIndexInjective(SubInt(AddInt(x, a), a), x);
    AbsoluteIndexInjective(AddInt(x, a), SubInt(x, -a));
    AbsoluteIndexInjective(SubInt(SubInt(x, a), b), SubInt(x, a + b));
  }

  /** Chronological order of pentads is the order of (year, index) pairs. */
  lemma StartOrder(y1: int, p1: int, y2: int, p2: int)
    requires 1 <= p1 <= PerYear && 1 <= p2 <= PerYear
    ensures Before(Start(y1, p1), Start(y2, p2)) <==> y1 < y2 || (y1 == y2 && p1 < p2)
  {
    if y1 == y2 {
      StartDay(y1, p1);
      StartDay(y2, p2);
      BeforeSameYear(Start(y1, p1), Start(y2, p2));
    }
  }

  /** `x + other`: integers move by pentads, time deltas go to the date
      library, and anything else raises the unsupported-operand error. */
  function Add(x: Pentad, other: Operand<Pentad>): (r: Outcome<Pentad>)
    ensures r.PeriodValue? <==> other.IntOperand?
    ensures other.IntOperand? ==> AbsoluteIndex(r.period) == AbsoluteIndex(x) + other.n
    ensures other.DurationOperand? ==> r == ShiftedDate(ToDate(x), other.days)
    ensures r.Raised? <==> !(other.IntOperand? || other.DurationOperand?)
    ensures r.Raised? ==> r.error == UnsupportedOperand
  {
    match other
    case IntOperand(n) => PeriodValue(AddInt(x, n))
    case DurationOperand(days) => ShiftedDate(ToDate(x), days)
    case _ => Raised(UnsupportedOperand)
  }

  /** `x - other`: integers move back by pentads, another pentad gives the
      pentad count between them, time deltas and dates go to the date
      library, and anything else raises the unsupported-operand error. */
  function Sub(x: Pentad, other: Operand<Pentad>): (r: Outcome<Pentad>)
    ensures other.IntOperand? ==> r.PeriodValue? && AbsoluteIndex(r.period) == AbsoluteIndex(x) - other.n
    ensures other.PeriodOperand? ==> r.PeriodCount? && r.count == AbsoluteIndex(x) - AbsoluteIndex(other.period)
    ensures other.DurationOperand? ==> r == ShiftedDate(ToDate(x), -other.days)
    ensures other.DateOperand? ==> r == DateDifference(ToDate(x), other.date)
    ensures other.OtherOperand? ==> r == Raised(UnsupportedOperand)
  {
    match other
    case IntOperand(n) => PeriodValue(SubInt(x, n))
    case PeriodOperand(y) => PeriodCount(Difference(x, y))
    case DurationOperand(days) => ShiftedDate(ToDate(x), -days)
    case DateOperand(d) => DateDifference(ToDate(x), d)
    case OtherOperand => Raised(UnsupportedOperand)
  }

  /** A scenario from the package's tests: pentad 1 of 2022 plus one is pentad 2. */
  lemma AddOneExample()
    ensures AddInt(Start(2022, 1), 1) == Start(2022, 2)
  {
    IndexOfStart(2022, 1);
    IndexOfStart(2022, 2);
    AbsoluteIndexInjective(AddInt(Start(2022, 1), 1), Start(2022, 2));
  }

  /** A scenario from the package's tests: pentad 1 of 2022 plus 72 is the last pentad of 2022. */
  lemma AddWithinYearExample()
    ensures AddInt(Start(2022, 1), 72) == Start(2022, 73)
  {
    IndexOfStart(2022, 1);
    IndexOfStart(2022, 73);
    AbsoluteIndexInjective(AddInt(Start(2022, 1), 72), Start(2022, 73));
  }

  /** A scenario from the package's tests: pentad 1 of 2022 plus 75 is pentad 3 of 2023. */
  lemma AddAcrossYearExample()
    ensures AddInt(Start(2022, 1), 75) == Start(2023, 3)
  {
    IndexOfStart(2022, 1);
    IndexOfStart(2023, 3);
    AbsoluteIndexInjective(AddInt(Start(2022, 1), 75), Start(2023, 3));
  }

  /** A scenario from the package's tests: pentad 1 of 2022 minus one is the last pentad of 2021. */
  lemma SubOneExample()
    ensures SubInt(Start(2022, 1), 1) == Start(2021, 73)
  {
    IndexOfStart(2022, 1);
    IndexOfStart(2021, 73);
    AbsoluteIndexInjective(SubInt(Start(2022, 1), 1), Start(2021, 73));
  }

  /** A scenario from the package's tests: pentad 1 of 2022 minus 75 is pentad 72 of 2020. */
  lemma SubAcrossYearsExample()
    ensures SubInt(Start(2022, 1), 75) == Start(2020, 72)
  {
    IndexOfStart(2022, 1);
    IndexOfStart(2020, 72);
    AbsoluteIndexInjective(SubInt(Start(2022, 1), 75), Start(2020, 72));
  }

  /** A scenario from the package's tests: pentad 1 of 2022 is three pentads after pentad 71 of 2021. */
  lemma DifferenceExample()
    ensures Difference(Start(2022, 1), Start(2021, 71)) == 3
  {
    IndexOfStart(2022, 1);
    IndexOfStart(2021, 71);
  }

  /** The construction and leap-year scenarios the package's tests check. */
  lemma ConversionExamples()
    ensures Start(2008, 32) == Date(2008, 6, 5)
    ensures Make(2022, -1) == Err(OutOfRange) && Make(2011, 75) == Err(OutOfRange)
    ensures FromDate(Date(2012, 2, 29)) == Ok(Start(2012, 12))
    ensures AddInt(Start(2012, 12), 1) == Date(2012, 3, 2)
  {
    DateOfDayOfYearInverse(Date(TemplateYear, 6, 5));
    LeapTwelfth(2012);
  }
}
