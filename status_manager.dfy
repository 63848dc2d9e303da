/** `SharedGnssStatusManager`: the three state fields, the GnssStatus callback
    that writes them, and one producer session of the callback flow (permission
    check, registration, and the awaitClose cleanup). The clock, the last known
    location, the permissions and the outcome of registration are parameters. */
module StatusManager {
  import opened Wrappers
  import opened JvmLong
  import opened GnssStates
  import opened FixTracker
  import opened SatelliteDecoder
  import opened StateMachine

  /** The channel of the current producer session: none yet, open, or closed,
      `failure` telling whether the first close carried an exception. */
  datatype Channel = NoChannel | ChannelOpen | ChannelClosed(failure: bool)

  class SharedGnssStatusManager {
    var status: GnssStatusState
    var fix: FixState
    var firstFix: FirstFixState
    var channel: Channel
    /** Whether the callback is registered with the LocationManager. */
    var registered: bool
    var registerCalls: nat
    var unregisterCalls: nat
    /** Every snapshot `trySend` delivered to the flow, oldest first. */
    var forwarded: seq<GnssStatus>

    function State(): Snapshot
      reads this
    {
      Snapshot(status, fix, firstFix)
    }

    /** The callback is registered exactly while a session's channel is open, and
        every registration attempt but the live one has been matched by an
        unregistration: at most one registration exists at any time. */
    ghost predicate Valid()
      reads this
    {
      (registered <==> channel == ChannelOpen) &&
      registerCalls == unregisterCalls + (if registered then 1 else 0)
    }

    constructor ()
      ensures Valid()
      ensures State() == Initial
      ensures channel == NoChannel && !registered && registerCalls == 0 && unregisterCalls == 0
      ensures forwarded == []
    {
      status, fix, firstFix := Stopped, FixState.NotAcquired, FirstFixState.NotAcquired;
      channel, registered := NoChannel, false;
      registerCalls, unregisterCalls := 0, 0;
      forwarded := [];
    }

    method OnStarted()
      modifies this`status
      ensures status == Started
      ensures State() == Apply(old(State()), EngineStarted)
    {
      status := Started;
    }

    method OnStopped()
      modifies this`status
      ensures status == Stopped
      ensures State() == Apply(old(State()), EngineStopped)
    {
      status := Stopped;
    }

    method OnFirstFix(ttffMillis: Int32)
      modifies this`firstFix, this`fix
      ensures firstFix == FirstFixState.Acquired(ttffMillis) && fix == FixState.Acquired
      ensures State() == Apply(old(State()), FirstFix(ttffMillis))
    {
      firstFix := FirstFixState.Acquired(ttffMillis);
      fix := FixState.Acquired;
    }

    /** A satellite batch re-derives the ongoing fix from the last known location
        and forwards the snapshot, once, to the flow if its channel is open. */
    method OnSatelliteStatusChanged(gnssStatus: GnssStatus, lastLocation: Option<Location>,
                                    nowNanos: Long, minTimeMillis: Long)
      modifies this`fix, this`forwarded
      ensures lastLocation.None? ==> fix == FixState.NotAcquired
      ensures lastLocation.Some? ==> fix == CheckHaveFix(nowNanos, lastLocation.value, minTimeMillis)
      ensures State() == Apply(old(State()), SatelliteBatch(lastLocation, nowNanos, minTimeMillis))
      ensures forwarded == old(forwarded) + (if channel == ChannelOpen then [gnssStatus] else [])
    {
      if lastLocation.Some? {
        fix := CheckHaveFix(nowNanos, lastLocation.value, minTimeMillis);
      } else {
        fix := FixState.NotAcquired;
      }
      TrySend(gnssStatus);
    }

    /** `trySend`: delivered when the channel is open, dropped otherwise (a full
        channel buffer, which also drops, is not modelled). */
    method TrySend(gnssStatus: GnssStatus)
      modifies this`forwarded
      ensures forwarded == old(forwarded) + (if channel == ChannelOpen then [gnssStatus] else [])
    {
      if channel == ChannelOpen {
        forwarded := forwarded + [gnssStatus];
      }
    }

    /** `close(cause)`: closing a closed channel has no effect, so the first
        cause is the one kept. */
    method CloseChannel(failure: bool)
      modifies this`channel
      ensures channel == if old(channel) == ChannelOpen then ChannelClosed(failure) else old(channel)
    {
      if channel == ChannelOpen {
        channel := ChannelClosed(failure);
      }
    }

    /** The awaitClose block: unregister the callback and reset both fix states;
        the engine status keeps its value. */
    method AwaitCloseCleanup()
      modifies this`registered, this`unregisterCalls, this`fix, this`firstFix
      ensures !registered && unregisterCalls == old(unregisterCalls) + 1
      ensures fix == FixState.NotAcquired && firstFix == FirstFixState.NotAcquired
      ensures State() == Apply(old(State()), SessionEnd)
    {
      registered := false;
      unregisterCalls := unregisterCalls + 1;
      fix := FixState.NotAcquired;
      firstFix := FirstFixState.NotAcquired;
    }

    /** A collector starts the producer. A missing permission closes the channel
        but does not return: registration is still attempted, and because the
        channel is then already closed, awaitClose runs its cleanup at once. A
        registration that throws closes the channel with that exception unless it
        was already closed. */
    method Open(hasFineLocation: bool, hasCoarseLocation: bool, registrationThrows: bool)
      requires Valid() && channel != ChannelOpen
      modifies this
      ensures Valid()
      ensures registerCalls == old(registerCalls) + 1
      ensures status == old(status) && forwarded == old(forwarded)
      ensures hasFineLocation && hasCoarseLocation && !registrationThrows ==>
                channel == ChannelOpen && registered && State() == old(State()) &&
                unregisterCalls == old(unregisterCalls)
      ensures !(hasFineLocation && hasCoarseLocation && !registrationThrows) ==>
                channel == ChannelClosed(hasFineLocation && hasCoarseLocation) && !registered &&
                State() == Apply(old(State()), SessionEnd) &&
                unregisterCalls == old(unregisterCalls) + 1
    {
      channel := ChannelOpen;
      if !hasFineLocation || !hasCoarseLocation {
        CloseChannel(false);
      }
      registerCalls := registerCalls + 1;
      if registrationThrows {
        CloseChannel(true);
      } else {
        registered := true;
      }
      if channel != ChannelOpen {
        AwaitCloseCleanup();
      }
    }

    /** The last collector leaves: the producer is cancelled, its channel closes
        and awaitClose cleans up. */
    method Close()
      requires Valid() && channel == ChannelOpen
      modifies this
      ensures Valid()
      ensures channel == ChannelClosed(false) && !registered
      ensures registerCalls == old(registerCalls) && unregisterCalls == old(unregisterCalls) + 1
      ensures forwarded == old(forwarded)
      ensures State() == Apply(old(State()), SessionEnd)
    {
      CloseChannel(false);
      AwaitCloseCleanup();
    }
  }

  /** A session walked through the contracts above: a fix and a first fix are
      recorded while the session is open, and the teardown resets both. */
  method SessionWalkthrough(snapshot: GnssStatus, nowNanos: Long)
  {
    var manager := new SharedGnssStatusManager();
    manager.Open(true, true, false);
    manager.OnStarted();
    manager.OnFirstFix(1200);
    assert manager.State() == Snapshot(Started, FixState.Acquired, FirstFixState.Acquired(1200));
    manager.OnSatelliteStatusChanged(snapshot, Some(Location(nowNanos)), nowNanos, 1000);
    assert manager.fix == FixState.Acquired && manager.forwarded == [snapshot];
    manager.OnSatelliteStatusChanged(snapshot, None, nowNanos, 1000);
    assert manager.fix == FixState.NotAcquired && manager.firstFix == FirstFixState.Acquired(1200);
    manager.Close();
    assert manager.State() == Snapshot(Started, FixState.NotAcquired, FirstFixState.NotAcquired);
    manager.Open(false, true, false);
    assert manager.registerCalls == 2 && !manager.registered;
    manager.OnSatelliteStatusChanged(snapshot, None, nowNanos, 1000);
    assert manager.forwarded == [snapshot, snapshot];
  }
}
