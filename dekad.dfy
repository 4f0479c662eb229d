/** Dekads: ten-day periods, three per month and 36 per year. The first two
    dekads of a month are its days 1-10 and 11-20; the third holds the rest
    of the month. A dekad is represented by the date of its first day, so
    its equality and chronological order are those of dates. */
module Dekads {
  import opened Gregorian
  import opened Kalendar

  const PerYear := 36

  /** The first day of some dekad: the 1st, 11th or 21st of a month. */
  predicate IsDekadStart(d: Date) {
    1 <= d.month <= 12 && (d.day == 1 || d.day == 11 || d.day == 21)
  }

  type Dekad = d: Date | IsDekadStart(d) witness Date(1, 1, 1)

  /** Yearly dekad index of a month and day: the third dekad absorbs days 21-31. */
  function GetDekad(month: int, day: int): (k: int)
    ensures 1 <= month <= 12 && 1 <= day ==> 1 <= k <= PerYear
    ensures 1 <= day <= 10 ==> k == 3 * month - 2
    ensures 11 <= day <= 20 ==> k == 3 * month - 1
    ensures 21 <= day ==> k == 3 * month
  {
    (if (day - 1) / 10 < 2 then (day - 1) / 10 else 2) + (month - 1) * 3 + 1
  }

  /** First day of dekad `dekad` of `year`. Reading its index back gives `dekad`. */
  function Start(year: int, dekad: int): (d: Dekad)
    requires 1 <= dekad <= PerYear
    ensures d.year == year && ValidDate(d)
    ensures GetDekad(d.month, d.day) == dekad
  {
    var q, r := (dekad - 1) / 3, (dekad - 1) % 3;
    assert dekad - 1 == 3 * q + r;
    assert (10 * r) / 10 == r;
    Date(year, q + 1, 10 * r + 1)
  }

  /** Dekad index of a dekad (the `dekad` accessor). Rebuilding from the year
      and the index gives the same value. */
  function Index(x: Dekad): (k: int)
    ensures 1 <= k <= PerYear
    ensures Start(x.year, k) == x
  {
    GetDekad(x.month, x.day)
  }

  /** Construction from a year and a dekad index; an index outside 1..36 is
      refused before any date is built. */
  function Make(year: int, dekad: int): (r: Result<Dekad>)
    ensures r.Err? <==> dekad < 1 || dekad > PerYear
    ensures r.Err? ==> r.error == OutOfRange
    ensures r.Ok? ==> r.value.year == year && Index(r.value) == dekad
  {
    if dekad < 1 || dekad > PerYear then Err(OutOfRange) else Ok(Start(year, dekad))
  }

  /** Position of the dekad within its month (the `dekad_monthly` accessor). */
  function Monthly(x: Dekad): (m: int)
    ensures 1 <= m <= 3
    ensures m == (Index(x) - 1) % 3 + 1
  {
    1 + (x.day - 1) / 10
  }

  /** The dekad that holds date `d`: same year and month, starting on or
      before `d` and less than ten days before it unless it is the third
      dekad of the month. */
  function FromDate(d: Date): (r: Result<Dekad>)
    requires ValidDate(d)
    ensures r.Ok? && r.value.year == d.year && r.value.month == d.month
    ensures r.value.day <= d.day
    ensures d.day < r.value.day + 10 || r.value.day == 21
  {
    Make(d.year, GetDekad(d.month, d.day))
  }

  /** The dekad as a plain date with the same year, month and day. */
  function ToDate(x: Dekad): (d: Date)
    ensures ValidDate(d)
    ensures d.year == x.year && d.month == x.month && d.day == x.day
  {
    Date(x.year, x.month, x.day)
  }

  /** Converting to a plain date and back gives the dekad again. */
  lemma ToDateFromDate(x: Dekad)
    ensures FromDate(ToDate(x)) == Ok(x)
  {
  }

  /** Constructor arguments that rebuild an equal value (the reduce hook). */
  function Reduce(x: Dekad): (args: (int, int))
    ensures Make(args.0, args.1) == Ok(x)
  {
    (x.year, Index(x))
  }

  /** Wraps `d1 + d2` into 1..36. */
  function Adjust(d1: int, d2: int): (k: int)
    ensures 1 <= k <= PerYear
    ensures (k - (d1 + d2)) % PerYear == 0
  {
    (d1 + (d2 % PerYear) + 35) % PerYear + 1
  }

  /** Number of dekads from the start of year 0 to the start of `x`. */
  function AbsoluteIndex(x: Dekad): int {
    PerYear * x.year + Index(x) - 1
  }

  /** The absolute index identifies a dekad. */
  lemma AbsoluteIndexInjective(x: Dekad, y: Dekad)
    ensures AbsoluteIndex(x) == AbsoluteIndex(y) <==> x == y
  {
    if AbsoluteIndex(x) == AbsoluteIndex(y) {
      var n := AbsoluteIndex(x);
      assert x.year == n / PerYear && Index(x) == n % PerYear + 1;
      assert y.year == n / PerYear && Index(y) == n % PerYear + 1;
    }
  }

  /** The year carry of the intended `+`: wrapping `d + n` into 1..36 and
      carrying `(d + n - 1) // 36` years loses nothing. */
  lemma CarryExact(d: int, n: int, k: int)
    requires 1 <= k <= PerYear && (k - (d + n)) % PerYear == 0
    ensures PerYear * ((d + n - 1) / PerYear) + k == d + n
  {
    var j, q := (k - (d + n)) / PerYear, (d + n - 1) / PerYear;
    assert k - (d + n) == PerYear * j;
    assert d + n - 1 == PerYear * q + (d + n - 1) % PerYear;
    assert j + q == 0;
  }

  /** The year carry of `+` as written, `(d + n) // 36`, is one year too many
      exactly when `d + n` is a multiple of 36. */
  lemma CarryAsWritten(d: int, n: int, k: int)
    requires 1 <= k <= PerYear && (k - (d + n)) % PerYear == 0
    ensures PerYear * ((d + n) / PerYear) + k
            == d + n + (if (d + n) % PerYear == 0 then PerYear else 0)
  {
    CarryExact(d, n, k);
    var q := (d + n - 1) / PerYear;
    assert d + n - 1 == PerYear * q + (d + n - 1) % PerYear;
    if (d + n) % PerYear == 0 {
      assert (d + n - 1) % PerYear == PerYear - 1;
      assert (d + n) / PerYear == q + 1;
    } else {
      assert (d + n) / PerYear == q;
    }
  }

  /** The year borrow of `-`: wrapping `d - n` into 1..36 and borrowing
      `(36 - d + n) // 36` years loses nothing. */
  lemma BorrowExact(d: int, n: int, k: int)
    requires 1 <= k <= PerYear && (k - (d - n)) % PerYear == 0
    ensures k - PerYear * ((PerYear - d + n) / PerYear) == d - n
  {
    var j, q := (k - (d - n)) / PerYear, (d - n - 1) / PerYear;
    assert k - (d - n) == PerYear * j;
    assert d - n - 1 == PerYear * q + (d - n - 1) % PerYear;
    assert PerYear - d + n == PerYear * (-q) + (PerYear - 1 - (d - n - 1) % PerYear);
    assert (PerYear - d + n) / PerYear == -q;
    assert j + q == 0;
  }

  /** `x + n` as written: the year advances by `(dekad + n) // 36`. When
      `dekad + n` is a multiple of 36 the result lands one year late. */
  function AddInt(x: Dekad, n: int): (r: Dekad)
    ensures Index(r) == Adjust(Index(x), n)
    ensures AbsoluteIndex(r)
            == AbsoluteIndex(x) + n + (if (Index(x) + n) % PerYear == 0 then PerYear else 0)
  {
    var d, k := Index(x), Adjust(Index(x), n);
    CarryAsWritten(d, n, k);
    Start(x.year + (d + n) / PerYear, k)
  }

  /** `x - n`: moves back exactly `n` dekads, for every sign of `n`. */
  function SubInt(x: Dekad, n: int): (r: Dekad)
    ensures Index(r) == Adjust(Index(x), -n)
    ensures AbsoluteIndex(r) == AbsoluteIndex(x) - n
  {
    var d, k := Index(x), Adjust(Index(x), -n);
    BorrowExact(d, n, k);
    Start(x.year - (PerYear - d + n) / PerYear, k)
  }

  /** `x - y` for two dekads: the signed number of dekads from `y` to `x`. */
  function Difference(x: Dekad, y: Dekad): (k: int)
    ensures k == AbsoluteIndex(x) - AbsoluteIndex(y)
  {
    Index(x) - Index(y) + PerYear * (x.year - y.year)
  }

  /** The count between two dekads is zero exactly when they are equal, and
      subtracting it from the first gives the second. */
  lemma DifferenceLaws(x: Dekad, y: Dekad)
    ensures Difference(x, y) == 0 <==> x == y
    ensures SubInt(x, Difference(x, y)) == y
  {
    AbsoluteIndexInjective(x, y);
    AbsoluteIndexInjective(SubInt(x, Difference(x, y)), y);
  }

  /** Subtracting in two steps is subtracting the sum. */
  lemma SubIntAssociative(x: Dekad, a: int, b: int)
    ensures SubInt(SubInt(x, a), b) == SubInt(x, a + b)
  {
    AbsoluteIndexInjective(SubInt(SubInt(x, a), b), SubInt(x, a + b));
  }

  /** Adding and subtracting agree exactly when `dekad + n` is not a multiple of 36. */
  lemma AddIntAgreesWithSubInt(x: Dekad, n: int)
    ensures AddInt(x, n) == SubInt(x, -n) <==> (Index(x) + n) % PerYear != 0
  {
    AbsoluteIndexInjective(AddInt(x, n), SubInt(x, -n));
  }

  /** Inputs on which `+` as written goes wrong. */
  lemma AddIntOffByOneYear()
    ensures AddInt(Start(2022, 1), 35) == Start(2023, 36)
    ensures AddInt(Start(2021, 36), 0) == Start(2022, 36)
    ensures AddInt(Start(2022, 1), -1) == Start(2022, 36)
    ensures SubInt(Start(2022, 1), -35) == Start(2022, 36)
  {
    assert Index(Start(2022, 1)) == 1 && Index(Start(2021, 36)) == 36;
    AbsoluteIndexInjective(AddInt(Start(2022, 1), 35), Start(2023, 36));
    AbsoluteIndexInjective(AddInt(Start(2021, 36), 0), Start(2022, 36));
    AbsoluteIndexInjective(AddInt(Start(2022, 1), -1), Start(2022, 36));
    AbsoluteIndexInjective(SubInt(Start(2022, 1), -35), Start(2022, 36));
  }

  /** `x + n` with the year carry `(dekad + n - 1) // 36`, as for pentads. */
  function AddIntIntended(x: Dekad, n: int): (r: Dekad)
    ensures Index(r) == Adjust(Index(x), n)
    ensures AbsoluteIndex(r) == AbsoluteIndex(x) + n
  {
    var d, k := Index(x), Adjust(Index(x), n);
    CarryExact(d, n, k);
    Start(x.year + (d + n - 1) / PerYear, k)
  }

  /** The intended addition is additive, has zero as identity and undoes subtraction. */
  lemma AddIntIntendedLaws(x: Dekad, a: int, b: int)
    ensures AddIntIntended(AddIntIntended(x, a), b) == AddIntIntended(x, a + b)
    ensures AddIntIntended(x, 0) == x
    ensures AddIntIntended(x, a) == SubInt(x, -a)
    ensures SubInt(AddIntIntended(x, a), a) == x
  {
    AbsoluteIndexInjective(AddIntIntended(AddIntIntended(x, a), b), AddIntIntended(x, a + b));
    AbsoluteIndexInjective(AddIntIntended(x, 0), x);
    AbsoluteIndexInjective(AddIntIntended(x, a), SubInt(x, -a));
    AbsoluteIndexInjective(SubInt(AddIntIntended(x, a), a), x);
  }

  /** Chronological order of dekads is the order of (year, index) pairs. */
  lemma StartOrder(y1: int, k1: int, y2: int, k2: int)
    requires 1 <= k1 <= PerYear && 1 <= k2 <= PerYear
    ensures Before(Start(y1, k1), Start(y2, k2)) <==> y1 < y2 || (y1 == y2 && k1 < k2)
  {
  }

  /** `x + other`: integers move by dekads, time deltas go to the date
      library, anything else is refused. */
  function Add(x: Dekad, other: Operand<Dekad>): (r: Outcome<Dekad>)
    ensures r.PeriodValue? <==> other.IntOperand?
    ensures other.IntOperand? ==>
              AbsoluteIndex(r.period)
              == AbsoluteIndex(x) + other.n + (if (Index(x) + other.n) % PerYear == 0 then PerYear else 0)
    ensures other.DurationOperand? ==> r == ShiftedDate(ToDate(x), other.days)
    ensures r.Raised? <==> !(other.IntOperand? || other.DurationOperand?)
    ensures r.Raised? ==> r.error == UnsupportedOperand
  {
    match other
    case IntOperand(n) => PeriodValue(AddInt(x, n))
    case DurationOperand(days) => ShiftedDate(ToDate(x), days)
    case _ => Raised(UnsupportedOperand)
  }

  /** `x - other`: integers move back by dekads, another dekad gives the
      dekad count between them, time deltas and dates go to the date library. */
  function Sub(x: Dekad, other: Operand<Dekad>): (r: Outcome<Dekad>)
    ensures other.IntOperand? ==> r.PeriodValue? && AbsoluteIndex(r.period) == AbsoluteIndex(x) - other.n
    ensures other.PeriodOperand? ==> r.PeriodCount? && r.count == AbsoluteIndex(x) - AbsoluteIndex(other.period)
    ensures other.DurationOperand? ==> r == ShiftedDate(ToDate(x), -other.days)
    ensures other.DateOperand? ==> r == DateDifference(ToDate(x), other.date)
    ensures other.OtherOperand? ==> r == Raised(UnsupportedOperand)
  {
    match other
    case IntOperand(n) => PeriodValue(SubInt(x, n))
    case PeriodOperand(y) => PeriodCount(Difference(x, y))
    case DurationOperand(days) => ShiftedDate(ToDate(x), -days)
    case DateOperand(d) => DateDifference(ToDate(x), d)
    case OtherOperand => Raised(UnsupportedOperand)
  }

  /** The arithmetic scenarios the package's tests check. */
  lemma ArithmeticExamples()
    ensures AddInt(Start(2022, 1), 1) == Start(2022, 2)
    ensures AddInt(Start(2022, 1), 38) == Start(2023, 3)
    ensures AddInt(Start(2021, 36), 1) == Start(2022, 1)
    ensures SubInt(Start(2022, 1), 1) == Start(2021, 36)
    ensures SubInt(Start(2022, 1), 38) == Start(2020, 35)
    ensures Difference(Start(2022, 1), Start(2021, 34)) == 3
  {
    assert Index(Start(2022, 1)) == 1 && Index(Start(2021, 36)) == 36;
    AbsoluteIndexInjective(AddInt(Start(2022, 1), 1), Start(2022, 2));
    AbsoluteIndexInjective(AddInt(Start(2022, 1), 38), Start(2023, 3));
    AbsoluteIndexInjective(AddInt(Start(2021, 36), 1), Start(2022, 1));
    AbsoluteIndexInjective(SubInt(Start(2022, 1), 1), Start(2021, 36));
    AbsoluteIndexInjective(SubInt(Start(2022, 1), 38), Start(2020, 35));
  }

  /** The construction and conversion scenarios the package's tests check. */
  lemma ConversionExamples()
    ensures Start(2008, 32) == Date(2008, 11, 11)
    ensures Make(2022, -1) == Err(OutOfRange) && Make(2011, 37) == Err(OutOfRange)
    ensures FromDate(Date(2022, 1, 8)) == Ok(Start(2022, 1))
  {
  }

  /** The monthly-index scenarios the package's tests check. */
  lemma MonthlyExamples()
    ensures Monthly(Start(2022, 1)) == 1 && Monthly(AddInt(Start(2022, 1), 2)) == 3
  {
    var third := AddInt(Start(2022, 1), 2);
    assert third == Date(2022, 1, 21);
  }
}
