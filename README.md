# GPSTest GNSS status tracker, modelled in Dafny

This project models `SharedGnssStatusManager`, the component of the GPSTest
Android application that turns the platform's `GnssStatus.Callback` feed into
three observable state variables:

- the engine status: `Started` or `Stopped`;
- the ongoing fix: `Acquired` or `NotAcquired`;
- the first fix: `NotAcquired` or `Acquired(ttffMillis)`.

It also models the fix-staleness rule `checkHaveFix` and the decoder
`GnssStatus.toSatelliteStatus()`.

Files:

- `wrappers.dfy`: `Option`.
- `jvm_long.dfy`: Kotlin `Long` arithmetic. Subtraction and multiplication wrap
  around at 64 bits. `TimeUnit.MILLISECONDS.toNanos` saturates at the `Long` bounds.
- `gnss_states.dfy`: the sealed classes `GnssStatusState`, `FixState` and `FirstFixState`.
- `fix_tracker.dfy`: `checkHaveFix`. The clock reading, the location timestamp
  and `PreferenceUtil.minTimeMillis()` are parameters.
- `state_machine.dfy`: the three state machines as pure values. `Apply` takes
  one callback or teardown step and `Run` takes many. The lemmas here are about runs.
- `satellite_decoder.dfy`: `toSatelliteStatus` as a loop, proved against a
  per-index `Decode` function.
- `status_manager.dfy`: the class with its three state fields and one method per
  callback. `Open` covers lines 97-117, the producer start. `Close` and
  `AwaitCloseCleanup` cover the `awaitClose` block. Each callback method is
  proved to take the state to `Apply` of the old state and the matching event.

Inputs from outside the core are parameters of the model:

- `SystemClock.elapsedRealtimeNanos()` is `nowNanos`.
- `getLastKnownLocation` is an `Option<Location>`.
- The two permission checks are booleans.
- Whether `registerGnssStatusCallback` throws is a boolean.
- The `SatelliteUtils` functions are fields of a `Platform` value.

## Model

| member | source | states |
|---|---|---|
| JvmLong.Wrap | GPSTest/src/main/java/com/android/gpstest/data/SharedGnssStatusManager.kt:138-139 | A Long result equals the mathematical value when that value fits in 64 bits, and is off by exactly 2^64 after one overflow |
| JvmLong.MillisToNanos | GPSTest/src/main/java/com/android/gpstest/data/SharedGnssStatusManager.kt:139 | Milliseconds become nanoseconds exactly when the product fits in a Long; otherwise the result saturates at Long.MAX_VALUE or Long.MIN_VALUE, following the sign of the input |
| FixTracker.CheckHaveFix | GPSTest/src/main/java/com/android/gpstest/data/SharedGnssStatusManager.kt:137-147 | With no overflow, the fix is NotAcquired exactly when now - locationTime > minTimeMillis * 2 * 10^6 ns. If minTimeMillis * 2 fits in a Long and its nanosecond value exceeds Long.MAX_VALUE, every age keeps the fix. If minTimeMillis * 2 overflows a Long, the threshold wraps negative and every non-negative age loses the fix |
| FixTracker.StalenessBoundary | GPSTest/src/main/java/com/android/gpstest/data/SharedGnssStatusManager.kt:137-147 | An age of exactly twice the interval yields Acquired. One nanosecond more yields NotAcquired. An age of zero yields Acquired |
| StateMachine.Apply | GPSTest/src/main/java/com/android/gpstest/data/SharedGnssStatusManager.kt:70-94 | Engine signals change only the status. onFirstFix(t) sets the first fix to Acquired(t) and forces the fix to Acquired. Teardown resets both fixes. A batch with no location clears the fix, and a batch with a location sets the fix to checkHaveFix of it. Nothing else changes the status or the first fix |
| StateMachine.RunIsLatest | GPSTest/src/main/java/com/android/gpstest/data/SharedGnssStatusManager.kt:70-124 | After any sequence of callbacks and teardowns, each of the three variables holds what the latest event touching it wrote, or its old value if no event touched it |
| StateMachine.FirstFixSticky | GPSTest/src/main/java/com/android/gpstest/data/SharedGnssStatusManager.kt:70-94 | Engine signals and satellite batches never change the first fix |
| StateMachine.StatusOnlyFromEngineSignals | GPSTest/src/main/java/com/android/gpstest/data/SharedGnssStatusManager.kt:78-94 | First fixes, batches and teardowns leave the engine status as it was |
| StateMachine.NewSessionStartsFresh | GPSTest/src/main/java/com/android/gpstest/data/SharedGnssStatusManager.kt:119-124 | After a teardown, the first fix stays NotAcquired until the next onFirstFix, whatever happens in between |
| StateMachine.FirstFixComesFromCallback | GPSTest/src/main/java/com/android/gpstest/data/SharedGnssStatusManager.kt:78-82 | A run that starts without a first fix and ends with Acquired(t) contains onFirstFix(t) |
| StateMachine.FixAcquiredHasCause | GPSTest/src/main/java/com/android/gpstest/data/SharedGnssStatusManager.kt:78-90 | A run that starts without a fix and ends with one contains either onFirstFix or a batch whose location passed the staleness check |
| SatelliteDecoder.Decode | GPSTest/src/main/java/com/android/gpstest/data/SharedGnssStatusManager.kt:174-190 | A record carries its index's svid, constellation type, readings and flags. It has a carrier frequency, equal to the index's value, exactly when isCfSupported() holds and the index has one. It has an SBAS type, given by the svid, exactly when its type is SBAS |
| SatelliteDecoder.ToSatelliteStatus | GPSTest/src/main/java/com/android/gpstest/data/SharedGnssStatusManager.kt:170-194 | Returns exactly satelliteCount records in index order, where record i is index i decoded |
| StatusManager.SharedGnssStatusManager.constructor | GPSTest/src/main/java/com/android/gpstest/data/SharedGnssStatusManager.kt:54-62 | A fresh manager is Stopped, fix NotAcquired, first fix NotAcquired, with no session and nothing registered |
| StatusManager.SharedGnssStatusManager.OnStarted | GPSTest/src/main/java/com/android/gpstest/data/SharedGnssStatusManager.kt:70-72 | Sets the status to Started and changes no other field |
| StatusManager.SharedGnssStatusManager.OnStopped | GPSTest/src/main/java/com/android/gpstest/data/SharedGnssStatusManager.kt:74-76 | Sets the status to Stopped and changes no other field |
| StatusManager.SharedGnssStatusManager.OnFirstFix | GPSTest/src/main/java/com/android/gpstest/data/SharedGnssStatusManager.kt:78-82 | Sets the first fix to Acquired(ttffMillis) and the fix to Acquired; the status is unchanged |
| StatusManager.SharedGnssStatusManager.OnSatelliteStatusChanged | GPSTest/src/main/java/com/android/gpstest/data/SharedGnssStatusManager.kt:84-94 | With no last location the fix becomes NotAcquired; otherwise it becomes checkHaveFix. The status and first fix are unchanged. The snapshot is forwarded exactly once when the channel is open, and dropped otherwise |
| StatusManager.SharedGnssStatusManager.TrySend | GPSTest/src/main/java/com/android/gpstest/data/SharedGnssStatusManager.kt:93 | Appends the snapshot to the forwarded batches when the channel is open, and drops it otherwise |
| StatusManager.SharedGnssStatusManager.CloseChannel | GPSTest/src/main/java/com/android/gpstest/data/SharedGnssStatusManager.kt:97-117 | Closes an open channel with the given cause. A closed channel keeps its first cause |
| StatusManager.SharedGnssStatusManager.AwaitCloseCleanup | GPSTest/src/main/java/com/android/gpstest/data/SharedGnssStatusManager.kt:119-124 | Unregisters the callback exactly once and resets the fix and first fix to NotAcquired; the status keeps its value |
| StatusManager.SharedGnssStatusManager.Open | GPSTest/src/main/java/com/android/gpstest/data/SharedGnssStatusManager.kt:97-124 | Registration is always attempted. If both permissions hold and registration succeeds, the session is open and the state is untouched. Otherwise the channel is closed (with the exception only when the permissions held) and the cleanup has already unregistered and reset both fixes. At most one registration is live afterwards |
| StatusManager.SharedGnssStatusManager.Close | GPSTest/src/main/java/com/android/gpstest/data/SharedGnssStatusManager.kt:119-124 | Ending a live session closes its channel, unregisters once, and resets the fix and first fix while keeping the status. The at-most-one-registration invariant still holds |

## Left out

- The multicast layer is left out because it is coroutine-library behaviour whose code is not part of this model. This covers `shareIn(externalScope, replay = 0, WhileSubscribed())`, subscriber counting and delivery of forwarded snapshots to collectors. `trySend` is modelled as dropping a snapshot only when the channel is closed. A full channel buffer also makes `trySend` drop it, and that case is not modelled. A session is an explicit `Open`/`Close` pair, and `Open` requires that no session is live, which is what `shareIn` guarantees.
- The choice of executor or `Handler` by SDK version is left out, and so are the log calls. Registration is one step whose only modelled outcome is success or an exception.
- `SatelliteUtils.getGnssConstellationType`, `getSbasConstellationType` and `isCfSupported` are not part of this model, so their bodies are not modelled. The SBAS svid ranges are therefore not modelled. The decoder takes these functions as parameters.
- `PreferenceUtil` is not part of this model. `minTimeMillis()` is taken to return a Kotlin `Long`.
- `model.SatelliteStatus` is not part of this model. The record's constructor is taken to leave `hasCarrierFrequency` false. Where the decoder writes no carrier frequency or SBAS type, the model records `None`, not the class's default value.
- cn0, elevation, azimuth and carrier frequency are copied as opaque 32-bit payloads. No floating-point arithmetic is modelled.
- Platform callbacks may be delivered at any time, with or without a live session. The model places no requirement on when they arrive, so it does not capture callbacks that race with unregistration on the main thread.
- The rest of the application is out of scope: activities, Compose screens, fragments, map views, `IOUtils` intent parsing, `HelpActivity` and the unused `util.GnssType` enum.
