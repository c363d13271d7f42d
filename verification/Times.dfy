/** Points in time, and durations between them, as integers. */
module Times {
  type Time = int

  /** The time of an entry that was never set. */
  const ZERO_TIME: Time := 0
}
