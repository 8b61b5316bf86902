/** Instants and durations, in nanoseconds. */
module Clock {

  type Time = int

  const HOUR: Time := 3_600_000_000_000
  const DAY: Time := 24 * HOUR
}
