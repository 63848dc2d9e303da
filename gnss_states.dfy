/** The three state variables the status manager publishes: engine status,
    ongoing fix and first fix (the sealed classes GnssStatusState, FixState and
    FirstFixState). */
module GnssStates {
  /** Kotlin `Int`. */
  type Int32 = x: int | -0x8000_0000 <= x < 0x8000_0000

  datatype GnssStatusState = Started | Stopped

  datatype FixState = Acquired | NotAcquired

  /** `ttffMillis` is the time from the start of GNSS to the first fix, in milliseconds. */
  datatype FirstFixState = Acquired(ttffMillis: Int32) | NotAcquired
}
