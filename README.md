# kalendar: dekads and pentads

A model of the two period types of the `kalendar` package. Both are
extensions of the Python date type, and a value is stored as the first day
of its period:

- a **dekad** is one of 36 ten-day periods of a year, three per month. The
  first two cover days 1-10 and 11-20, and the third covers the rest of the
  month. It starts on the 1st, 11th or 21st.
- a **pentad** is one of 73 five-day periods of a year. Pentad `p` starts on
  the month and day that day `1 + 5(p - 1)` has in the common year 2010, in
  every year. When a date is read back, a leap year counts the leap day into
  pentad 12, which then runs six days, from February 25 to March 1.

The model has four files:

- `gregorian.dfy` (module `Gregorian`): the parts of the proleptic Gregorian
  calendar the two types rely on. These are the leap rule, month lengths,
  day of the year and its inverse, and chronological order.
- `kalendar.dfy` (module `Kalendar`): what the two types share. These are the
  errors they raise, the operand kinds their `+` and `-` dispatch on, and
  what those operators return.
- `dekad.dfy` (module `Dekads`) and `pentad.dfy` (module `Pentads`):
  - construction, with the out-of-range error;
  - the index accessors;
  - conversion from and to plain dates;
  - the reduce hook;
  - the wrap-around adjuster;
  - integer `+` and `-`, and the period count between two values;
  - the operator dispatch on the right operand.

Both period types are subset types of `Gregorian.Date`. As in the source,
where they subclass the date type, equality and ordering of periods are
those of their first days. The main proof tool is the absolute index
`PerYear * year + index - 1`, which is shown to identify a period. Each
arithmetic operation is then proved to be an exact or an explicitly off
move on that index.

## Model

| member | source | states |
|---|---|---|
| `Gregorian.IsLeap` | src/kalendar/pentad.py:224 | The leap test behind `calendar.isleap`: years not divisible by 4 are common, other years not divisible by 100 are leap, centuries are leap only when divisible by 400. |
| `Gregorian.DayOfYear` | src/kalendar/pentad.py:223 | The day of the year `tm_yday` lies in 1..days in the year and inside the span of its month. |
| `Gregorian.DateOfDayOfYear` | src/kalendar/pentad.py:71-73 | January 1 moved on by `yday - 1` days is a valid date of the same year whose day of the year is `yday`. |
| `Gregorian.DateOfDayOfYearInverse` | src/kalendar/pentad.py:71-73 | Moving January 1 on by a date's day of the year minus one gives that date back. |
| `Gregorian.BeforeSameYear` | src/kalendar/dekad.py:22-23 | Within one year, date order is the order of the days of the year. |
| `Dekads.GetDekad` | src/kalendar/dekad.py:211-214 | For a month in 1..12 and a positive day, the yearly dekad is in 1..36. Days 1-10 of month `m` give dekad `3m - 2`, days 11-20 give `3m - 1`, and days 21 onward give `3m`. |
| `Dekads.Start` | src/kalendar/dekad.py:71-73 | The first day of dekad `k` is a valid date of the given year, and `GetDekad` of its month and day is `k`. |
| `Dekads.Make` | src/kalendar/dekad.py:67-73 | Construction fails with the out-of-range error exactly when the index is outside 1..36. Otherwise it keeps the year, and the `dekad` accessor returns the index. |
| `Dekads.Index` | src/kalendar/dekad.py:154-157 | The `dekad` accessor is in 1..36, and rebuilding from the year and it gives the same value. |
| `Dekads.Monthly` | src/kalendar/dekad.py:159-162 | `dekad_monthly` is in 1..3 and is the yearly dekad's position within its month. |
| `Dekads.FromDate` | src/kalendar/dekad.py:168-178 | Never fails on a valid date. The dekad has the date's year and month, starts on or before the date, and starts less than ten days before it unless it is the third dekad. |
| `Dekads.ToDate` | src/kalendar/dekad.py:164-166 | `todate` gives a valid plain date with the same year, month and day. |
| `Dekads.ToDateFromDate` | src/kalendar/dekad.py:164-172 | Converting a dekad to a date and back gives the same dekad. |
| `Dekads.Reduce` | src/kalendar/dekad.py:79-81 | The reduce arguments rebuild an equal dekad (the pickling round trip of tests/test_dekad.py:47). |
| `Dekads.Adjust` | src/kalendar/dekad.py:206-209 | The adjuster's result is in 1..36 and congruent to `d1 + d2` modulo 36, for every sign of `d2`. |
| `Dekads.AbsoluteIndexInjective` | src/kalendar/dekad.py:12-27 | Two dekads are equal exactly when their year and yearly index agree. |
| `Dekads.AddInt` | src/kalendar/dekad.py:108-111 | Integer `+` as written gives the wrapped index. It moves exactly `n` dekads, plus one extra year when `dekad + n` is a multiple of 36. |
| `Dekads.SubInt` | src/kalendar/dekad.py:145-148 | Integer `-` gives the wrapped index and moves back exactly `n` dekads, for every sign of `n`. |
| `Dekads.Difference` | src/kalendar/dekad.py:149-150 | The count between two dekads is the signed number of dekads from the second to the first. |
| `Dekads.DifferenceLaws` | src/kalendar/dekad.py:149-150 | The count is zero exactly when the dekads are equal, and subtracting it from the first gives the second. |
| `Dekads.SubIntAssociative` | src/kalendar/dekad.py:145-148 | Subtracting `a` and then `b` is subtracting `a + b`. |
| `Dekads.AddIntAgreesWithSubInt` | src/kalendar/dekad.py:108-111 | `x + n` equals `x - (-n)` exactly when `dekad + n` is not a multiple of 36. |
| `Dekads.AddIntOffByOneYear` | src/kalendar/dekad.py:109 | Concrete inputs on which `+` lands one year late: `Dekad(2022,1) + 35`, `Dekad(2021,36) + 0` and `Dekad(2022,1) + (-1)`. |
| `Dekads.AddIntIntended` | src/kalendar/dekad.py:108-111 | `+` with the carry `(dekad + n - 1) // 36` moves exactly `n` dekads. |
| `Dekads.AddIntIntendedLaws` | src/kalendar/dekad.py:108-111 | The corrected `+` is additive, has 0 as identity, agrees with `x - (-n)` and is undone by `-`. |
| `Dekads.StartOrder` | src/kalendar/dekad.py:19-24 | Dekads compare as dates in the order of their (year, index) pairs. |
| `Dekads.Add` | src/kalendar/dekad.py:108-113 | An integer gives a dekad, moved as `AddInt` moves it. A time delta goes to the date library on `todate()`. Any other operand raises the unsupported-operand error. |
| `Dekads.Sub` | src/kalendar/dekad.py:145-152 | An integer moves back exactly `n` dekads, and a dekad gives the signed count. A time delta or a date goes to the date library on `todate()`. Anything else raises the unsupported-operand error. |
| `Dekads.ArithmeticExamples` | tests/test_dekad.py:17-29 | The addition and subtraction results the tests expect. |
| `Dekads.ConversionExamples` | tests/test_dekad.py:50-74 | `Dekad(2008,32)` is November 11. Indices -1 and 37 are refused. January 8 2022 lies in dekad 1. |
| `Dekads.MonthlyExamples` | tests/test_dekad.py:84-87 | The monthly dekad of dekad 1 is 1, and of dekad 1 plus 2 it is 3. |
| `Pentads.GetPentad` | src/kalendar/pentad.py:220-227 | The pentad of any valid date is in 1..73. |
| `Pentads.TemplateDate` | src/kalendar/pentad.py:70-73 | The template date of pentad `p` is the date in 2010 whose day of the year is `1 + 5(p - 1)`. |
| `Pentads.Start` | src/kalendar/pentad.py:65-75 | The first day of a pentad is a valid date of the given year, with the template month and day. |
| `Pentads.StartDay` | src/kalendar/pentad.py:65-75 | In a leap year, the first day of pentad `p` falls one day of the year later from pentad 13 on. Reading its pentad back gives `p` in every year. |
| `Pentads.Make` | src/kalendar/pentad.py:65-75 | Construction fails with the out-of-range error exactly when the index is outside 1..73. Otherwise it keeps the year, and the `pentad` accessor returns the index. |
| `Pentads.Index` | src/kalendar/pentad.py:168-171 | The `pentad` accessor is in 1..73, and rebuilding from the year and it gives the same value. |
| `Pentads.IndexOfStart` | src/kalendar/pentad.py:65-75 | The accessor of a constructed pentad returns the index it was built from. |
| `Pentads.Span` | src/kalendar/pentad.py:220-227 | A date lies in pentad `p` exactly when it is among the 5 days (6 for pentad 12 of a leap year) that begin with `p`'s first day. |
| `Pentads.NextStart` | src/kalendar/pentad.py:220-227 | Consecutive pentads follow each other without gap or overlap. |
| `Pentads.LeapTwelfth` | src/kalendar/pentad.py:224-225 | In a leap year pentad 12 starts on February 25 and pentad 13 on March 2. February 29 and March 1 both lie in pentad 12. |
| `Pentads.LastPentad` | tests/test_pentad.py:91 | December 27 to 31 lie in pentad 73, in every year. |
| `Pentads.FromDate` | src/kalendar/pentad.py:177-187 | Never fails on a valid date. The pentad has the date's year and starts on or before the date, and the date comes before the next pentad's first day. |
| `Pentads.InPentad` | src/kalendar/pentad.py:220-227 | A date lies between the first day of its pentad and the first day of the next. |
| `Pentads.ToDate` | src/kalendar/pentad.py:173-175 | `todate` gives a valid plain date with the same year, month and day. |
| `Pentads.ToDateFromDate` | src/kalendar/pentad.py:173-181 | Converting a pentad to a date and back gives the same pentad. |
| `Pentads.Reduce` | src/kalendar/pentad.py:81-83 | The reduce arguments rebuild an equal pentad (the pickling round trip of tests/test_pentad.py:48). |
| `Pentads.Adjust` | src/kalendar/pentad.py:215-218 | The adjuster's result is in 1..73 and congruent to `p1 + p2` modulo 73, for every sign of `p2`. |
| `Pentads.AbsoluteIndexInjective` | src/kalendar/pentad.py:168-171 | Two pentads are equal exactly when their year and yearly index agree. |
| `Pentads.AddInt` | src/kalendar/pentad.py:110-113 | Integer `+` gives the wrapped index and moves on exactly `n` pentads, for every sign of `n`. |
| `Pentads.SubInt` | src/kalendar/pentad.py:152-155 | Integer `-` gives the wrapped index and moves back exactly `n` pentads, for every sign of `n`. |
| `Pentads.Difference` | src/kalendar/pentad.py:156-159 | The count between two pentads is the signed number of pentads from the second to the first. |
| `Pentads.DifferenceLaws` | src/kalendar/pentad.py:156-159 | The count is zero exactly when the pentads are equal, and adding it to the second gives the first. |
| `Pentads.AddIntLaws` | src/kalendar/pentad.py:110-113 | `+` is additive, has 0 as identity, is undone by `-` and agrees with `x - (-n)`. `-` composes by adding its arguments. |
| `Pentads.StartOrder` | src/kalendar/pentad.py:19-26 | Pentads compare as dates in the order of their (year, index) pairs. |
| `Pentads.Add` | src/kalendar/pentad.py:110-120 | An integer gives a pentad exactly `n` pentads on. A time delta goes to the date library on `todate()`. Anything else raises the unsupported-operand error. |
| `Pentads.Sub` | src/kalendar/pentad.py:152-166 | An integer moves back exactly `n` pentads, and a pentad gives the signed count. A time delta or a date goes to the date library on `todate()`. Anything else raises the unsupported-operand error. |
| `Pentads.AddOneExample` | tests/test_pentad.py:19 | Pentad 1 of 2022 plus one is pentad 2. |
| `Pentads.AddWithinYearExample` | tests/test_pentad.py:20 | Pentad 1 of 2022 plus 72 is pentad 73 of 2022. |
| `Pentads.AddAcrossYearExample` | tests/test_pentad.py:21 | Pentad 1 of 2022 plus 75 is pentad 3 of 2023. |
| `Pentads.SubOneExample` | tests/test_pentad.py:27 | Pentad 1 of 2022 minus one is pentad 73 of 2021. |
| `Pentads.SubAcrossYearsExample` | tests/test_pentad.py:28 | Pentad 1 of 2022 minus 75 is pentad 72 of 2020. |
| `Pentads.DifferenceExample` | tests/test_pentad.py:29 | Pentad 1 of 2022 is three pentads after pentad 71 of 2021. |
| `Pentads.ConversionExamples` | tests/test_pentad.py:51-91 | `Pentad(2008,32)` is June 5. Indices -1 and 75 are refused. February 29 2012 lies in pentad 12 of 2012, and that pentad plus one starts on March 2. |

## Left out

- The other named constructors (`fromisoformat`, `fromisocalendar`, `fromtimestamp`, `fromordinal`). Each parses or converts with the date library and then calls `fromdate`, which is modelled as `FromDate`. String parsing, ISO weeks, timestamps and ordinals are date-library behaviour.
- `fromdatetime` has no member of its own. It reads only the year, month and day, so `FromDate` models it as well.
- The results of date ± time delta and date − date. `ShiftedDate` and `DateDifference` name the computation the date library performs, but its arithmetic, including time deltas with fractional days, is not modelled.
- `__repr__`, `__str__` and the pickle machinery beyond the reduce hook. These are text formatting and serialisation.
- Python's runtime type tests are replaced by the `Operand` kind. These include `bool` counting as an integer and a pentad being passed to a dekad (or the reverse), which counts as a plain date. Reflected operators (`__radd__`, `__rsub__`) inherited from the date type are not modelled.
- The text of the error messages. Only the error kinds are modelled: out of range for the source's `ValueError`, and unsupported operand for its `TypeError`.
- The date type's year range 1..9999 and its overflow error. Years are unbounded integers here, so arithmetic that would leave that range is not refused.
- `Dekads.Add`: follows the code as written, so for dekads the integer branch of `+` is not additive. The corrected `Dekads.AddIntIntended` is proved separately.

## Findings

| source | as written | input that shows it | evidently intended | confidence | as-written member | corrected member |
|---|---|---|---|---|---|---|
| src/kalendar/dekad.py:109 | `new_year = self.year + (self.dekad + other) // 36` carries one year too many whenever `dekad + other` is a multiple of 36 | `Dekad(2022, 1) + 35` gives `Dekad(2023, 36)` instead of `Dekad(2022, 36)`. `Dekad(2021, 36) + 0` gives `Dekad(2022, 36)`. `Dekad(2022, 1) + (-1)` gives `Dekad(2022, 36)` instead of `Dekad(2021, 36)` | carry `(self.dekad + other - 1) // 36`, as pentad.py:111 does, so that `+ n` moves exactly `n` dekads and agrees with `- (-n)` | not executed | `Dekads.AddIntOffByOneYear` | `Dekads.AddIntIntended` |
