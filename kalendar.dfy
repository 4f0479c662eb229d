/** Scaffolding shared by the two period types: the errors they raise, the
    right operands their `+` and `-` dispatch on, and what those operators
    return. */
module Kalendar {
  import opened Gregorian

  datatype Error =
    | OutOfRange            // period index outside its range at construction (ValueError)
    | UnsupportedOperand    // operand the operator cannot combine with a period (TypeError)

  datatype Result<T> = Ok(value: T) | Err(error: Error)

  /** The right operand of `+` or `-`, by its runtime type. */
  datatype Operand<P> =
    | IntOperand(n: int)              // an integer number of periods
    | PeriodOperand(period: P)        // a value of the same period type
    | DurationOperand(days: int)      // a whole-day time delta
    | DateOperand(date: Date)         // any other date, the other period type included
    | OtherOperand                    // anything else

  /** What `+` or `-` returns. The two date-library results are kept abstract:
      they name the computation the date library carries out. */
  datatype Outcome<P> =
    | PeriodValue(period: P)                            // a new period value
    | PeriodCount(count: int)                           // signed number of periods between two values
    | ShiftedDate(base: Date, days: int)                // the date `days` days after `base`
    | DateDifference(minuend: Date, subtrahend: Date)   // the time delta `minuend - subtrahend`
    | Raised(error: Error)
}
