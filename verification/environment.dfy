/**
 * Calendar conventions and the `Period` newtype of the scheduling environment.
 *
 * A calendar date (chrono's `NaiveDate`) is an integer day number and a
 * date-time (chrono's `NaiveDateTime`) is an integer number of nanoseconds on
 * the same axis, chrono's own resolution, so that day `d` starts at
 * nanosecond `d * NanosPerDay`.
 */
module Environment {

  /** A calendar date as a day number. */
  type Date = int

  /** A date-time as a number of nanoseconds. */
  type Timestamp = int

  /** Nanoseconds in one calendar day. */
  const NanosPerDay: int := 86_400_000_000_000

  /** Number of consecutive days that make up one scheduling period. */
  const PeriodLength: nat := 14

  /** The calendar date a date-time falls on: division rounding toward minus infinity. */
  function DateOf(t: Timestamp): (d: Date)
    ensures d * NanosPerDay <= t < d * NanosPerDay + NanosPerDay
  {
    t / NanosPerDay
  }

  /** A scheduling period, identified by the date it starts on. */
  datatype Period = FromStartDate(startDate: Date)
}
