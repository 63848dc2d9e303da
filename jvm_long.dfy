/** Kotlin/JVM `Long` arithmetic as the fix-staleness rule uses it: 64-bit two's
    complement wrap-around for `-` and `*`, and the saturating millisecond to
    nanosecond conversion of `java.util.concurrent.TimeUnit`. */
module JvmLong {
  const LONG_MIN: int := -0x8000_0000_0000_0000
  const LONG_MAX: int := 0x7FFF_FFFF_FFFF_FFFF
  const TWO_TO_64: int := 0x1_0000_0000_0000_0000
  const NANOS_PER_MILLI: int := 1_000_000

  type Long = x: int | LONG_MIN <= x <= LONG_MAX

  predicate InLongRange(x: int) {
    LONG_MIN <= x <= LONG_MAX
  }

  /** The Long a JVM operation yields when the mathematical result is `x`. */
  function Wrap(x: int): (r: Long)
    ensures InLongRange(x) ==> r == x
    ensures InLongRange(x - TWO_TO_64) ==> r == x - TWO_TO_64
    ensures InLongRange(x + TWO_TO_64) ==> r == x + TWO_TO_64
  {
    (x - LONG_MIN) % TWO_TO_64 + LONG_MIN
  }

  /** `a - b` on Long. */
  function Sub(a: Long, b: Long): Long {
    Wrap(a - b)
  }

  /** `a * b` on Long. */
  function Mul(a: Long, b: Long): Long {
    Wrap(a * b)
  }

  /** `TimeUnit.MILLISECONDS.toNanos(d)`: the exact product when it is a Long,
      otherwise the bound on the side of the sign of `d`. */
  function MillisToNanos(d: Long): (r: Long)
    ensures InLongRange(d * NANOS_PER_MILLI) ==> r == d * NANOS_PER_MILLI
    ensures !InLongRange(d * NANOS_PER_MILLI) ==> r == if d > 0 then LONG_MAX else LONG_MIN
  {
    var over := LONG_MAX / NANOS_PER_MILLI;
    if d > over then LONG_MAX
    else if d < -over then LONG_MIN
    else d * NANOS_PER_MILLI
  }
}
