/** The fix-staleness rule `checkHaveFix`: a fix is considered lost once the last
    known location is older than two requested update intervals. The clock, the
    location and the configured interval are parameters. */
module FixTracker {
  import opened Wrappers
  import opened JvmLong
  import opened GnssStates

  /** The part of `android.location.Location` the rule reads. */
  datatype Location = Location(elapsedRealtimeNanos: Long)

  /** `checkHaveFix(location)` with `SystemClock.elapsedRealtimeNanos()` as `nowNanos`
      and `PreferenceUtil.minTimeMillis()` as `minTimeMillis`, in Long arithmetic.
      Whenever neither the age nor the threshold overflows, the fix is lost exactly
      when the age exceeds twice the interval. If `minTimeMillis * 2` is a Long
      whose nanosecond value exceeds Long.MAX_VALUE, the conversion saturates
      and every age keeps the fix. If `minTimeMillis * 2` itself overflows, the
      threshold wraps negative and every non-negative age loses the fix. */
  function CheckHaveFix(nowNanos: Long, location: Location, minTimeMillis: Long): (r: FixState)
    ensures InLongRange(nowNanos - location.elapsedRealtimeNanos) &&
            InLongRange(minTimeMillis * 2 * NANOS_PER_MILLI) ==>
              (r == FixState.NotAcquired <==>
               nowNanos - location.elapsedRealtimeNanos > minTimeMillis * 2 * NANOS_PER_MILLI)
    ensures InLongRange(nowNanos - location.elapsedRealtimeNanos) &&
            InLongRange(minTimeMillis * 2) &&
            minTimeMillis * 2 * NANOS_PER_MILLI > LONG_MAX ==>
              r == FixState.Acquired
    ensures InLongRange(nowNanos - location.elapsedRealtimeNanos) &&
            nowNanos >= location.elapsedRealtimeNanos &&
            minTimeMillis * 2 > LONG_MAX ==>
              r == FixState.NotAcquired
  {
    if Sub(nowNanos, location.elapsedRealtimeNanos) > MillisToNanos(Mul(minTimeMillis, 2))
    then FixState.NotAcquired
    else FixState.Acquired
  }

  /** The fix verdict of one satellite-status batch: without a last known location
      there is no fix; otherwise the staleness rule decides. */
  function FixForBatch(lastLocation: Option<Location>, nowNanos: Long, minTimeMillis: Long): FixState {
    match lastLocation
    case None => FixState.NotAcquired
    case Some(location) => CheckHaveFix(nowNanos, location, minTimeMillis)
  }

  /** The boundary of the rule: an age of exactly twice the interval still has a
      fix, one nanosecond more has lost it, and a location of this very instant
      has a fix for any non-negative interval. */
  lemma StalenessBoundary(nowNanos: Long, minTimeMillis: Long)
    requires 0 <= minTimeMillis
    requires InLongRange(minTimeMillis * 2 * NANOS_PER_MILLI + 1)
    requires InLongRange(nowNanos - minTimeMillis * 2 * NANOS_PER_MILLI - 1)
    ensures CheckHaveFix(nowNanos, Location(nowNanos - minTimeMillis * 2 * NANOS_PER_MILLI), minTimeMillis)
              == FixState.Acquired
    ensures CheckHaveFix(nowNanos, Location(nowNanos - minTimeMillis * 2 * NANOS_PER_MILLI - 1), minTimeMillis)
              == FixState.NotAcquired
    ensures CheckHaveFix(nowNanos, Location(nowNanos), minTimeMillis) == FixState.Acquired
  {
  }
}
