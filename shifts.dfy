/** Values shared by the duty-hour analyzer and the user schema: instants,
    shifts, the hour difference between two instants and the policy thresholds. */
module Shifts {

  /** An instant in milliseconds since the epoch. */
  type Instant = int

  /** A schedule item: `{ startDate, endDate }`. Nothing in the type forces
      `start < end`; the admission check is what rejects degenerate items. */
  datatype Shift = Shift(start: Instant, end: Instant)

  const MillisPerHour: int := 3600000

  /** `moment(later).diff(moment(earlier), 'hours', true)`: the signed, fractional
      number of hours from `earlier` to `later`, computed exactly. */
  function Hours(later: Instant, earlier: Instant): (h: real)
    ensures h > 0.0 <==> later > earlier
    ensures h == 0.0 <==> later == earlier
    ensures h * MillisPerHour as real == (later - earlier) as real
  {
    (later - earlier) as real / MillisPerHour as real
  }

  /** The thresholds of `invalidHours`, all in hours except `daysOffMonth`,
      which counts units of `daysOffLength`. */
  datatype Policy = Policy(
    timeOffBetween: real,
    hoursMonth: real,
    daysOffLength: real,
    daysOffMonth: real,
    shiftMaximumLength: real)

  /** The thresholds every environment of the configuration uses. */
  const ConfiguredPolicy: Policy := Policy(8.0, 320.0, 24.0, 4.0, 24.0)

  datatype Result<+T, +E> = Ok(value: T) | Err(error: E)

  datatype Outcome<+E> = Pass | Fail(error: E)
}
