/** Nanoseconds, as Go counts time. */
module TimeUnits {
  const MICROSECOND: nat := 1_000
  const MILLISECOND: nat := 1_000_000
  const SECOND: nat := 1_000_000_000
}
