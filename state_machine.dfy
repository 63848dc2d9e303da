/** The three orthogonal state machines of the status manager as pure values:
    one step per platform callback or session teardown, and runs of many steps.
    The class in status_manager.dfy is proved to follow `Apply`. */
module StateMachine {
  import opened Wrappers
  import opened JvmLong
  import opened GnssStates
  import opened FixTracker

  datatype Snapshot = Snapshot(status: GnssStatusState, fix: FixState, firstFix: FirstFixState)

  /** The values the three state flows are created with. */
  const Initial: Snapshot := Snapshot(Stopped, FixState.NotAcquired, FirstFixState.NotAcquired)

  /** What drives the state: the four GnssStatus.Callback methods, with the
      platform inputs the batch callback reads, and the awaitClose cleanup. */
  datatype Event =
    | EngineStarted
    | EngineStopped
    | FirstFix(ttffMillis: Int32)
    | SatelliteBatch(lastLocation: Option<Location>, nowNanos: Long, minTimeMillis: Long)
    | SessionEnd

  predicate IsEngineSignal(e: Event) {
    e.EngineStarted? || e.EngineStopped?
  }

  predicate TouchesFirstFix(e: Event) {
    e.FirstFix? || e.SessionEnd?
  }

  /** One step. Engine signals touch only the status; the first-fix callback and
      the teardown touch only the two fix variables; a batch touches only the
      ongoing fix. */
  function Apply(s: Snapshot, e: Event): (r: Snapshot)
    ensures IsEngineSignal(e) ==>
              r.fix == s.fix && r.firstFix == s.firstFix && (r.status == Started <==> e.EngineStarted?)
    ensures !IsEngineSignal(e) ==> r.status == s.status
    ensures !TouchesFirstFix(e) ==> r.firstFix == s.firstFix
    ensures e.FirstFix? ==> r.fix == FixState.Acquired && r.firstFix == FirstFixState.Acquired(e.ttffMillis)
    ensures e.SessionEnd? ==> r.fix == FixState.NotAcquired && r.firstFix == FirstFixState.NotAcquired
    ensures e.SatelliteBatch? && e.lastLocation.None? ==> r.fix == FixState.NotAcquired
    ensures e.SatelliteBatch? && e.lastLocation.Some? ==>
              r.fix == CheckHaveFix(e.nowNanos, e.lastLocation.value, e.minTimeMillis)
  {
    match e
    case EngineStarted => s.(status := Started)
    case EngineStopped => s.(status := Stopped)
    case FirstFix(ttff) => s.(firstFix := FirstFixState.Acquired(ttff), fix := FixState.Acquired)
    case SatelliteBatch(location, now, minTime) => s.(fix := FixForBatch(location, now, minTime))
    case SessionEnd => s.(fix := FixState.NotAcquired, firstFix := FirstFixState.NotAcquired)
  }

  /** The state after the events `es`, in order, starting from `s`. */
  function Run(s: Snapshot, es: seq<Event>): Snapshot
    decreases |es|
  {
    if es == [] then s else Run(Apply(s, es[0]), es[1..])
  }

  lemma {:induction false} RunSnoc(s: Snapshot, es: seq<Event>, e: Event)
    ensures Run(s, es + [e]) == Apply(Run(s, es), e)
    decreases |es|
  {
    if es == [] {
      assert [e][1..] == [];
    } else {
      assert (es + [e])[1..] == es[1..] + [e];
      RunSnoc(Apply(s, es[0]), es[1..], e);
    }
  }

  /** Reference definitions, read from the most recent event backwards: each
      variable holds what the latest event that touches it wrote, or its value
      before the run when no event touched it. */
  function LatestStatus(before: GnssStatusState, es: seq<Event>): GnssStatusState
    decreases |es|
  {
    if es == [] then before
    else match es[|es| - 1]
      case EngineStarted => Started
      case EngineStopped => Stopped
      case _ => LatestStatus(before, es[..|es| - 1])
  }

  function LatestFix(before: FixState, es: seq<Event>): FixState
    decreases |es|
  {
    if es == [] then before
    else match es[|es| - 1]
      case FirstFix(_) => FixState.Acquired
      case SatelliteBatch(location, now, minTime) => FixForBatch(location, now, minTime)
      case SessionEnd => FixState.NotAcquired
      case _ => LatestFix(before, es[..|es| - 1])
  }

  function LatestFirstFix(before: FirstFixState, es: seq<Event>): FirstFixState
    decreases |es|
  {
    if es == [] then before
    else match es[|es| - 1]
      case FirstFix(ttff) => FirstFixState.Acquired(ttff)
      case SessionEnd => FirstFixState.NotAcquired
      case _ => LatestFirstFix(before, es[..|es| - 1])
  }

  /** The three machines are orthogonal: after any run, each variable is exactly
      what the latest event that touches it wrote. */
  lemma {:induction false} RunIsLatest(s: Snapshot, es: seq<Event>)
    ensures Run(s, es) ==
            Snapshot(LatestStatus(s.status, es), LatestFix(s.fix, es), LatestFirstFix(s.firstFix, es))
    decreases |es|
  {
    if es != [] {
      var init, last := es[..|es| - 1], es[|es| - 1];
      assert es == init + [last];
      RunSnoc(s, init, last);
      RunIsLatest(s, init);
    }
  }

  /** Within a session the first fix is sticky: engine signals and satellite
      batches never change it. */
  lemma {:induction false} FirstFixSticky(s: Snapshot, es: seq<Event>)
    requires forall i :: 0 <= i < |es| ==> !TouchesFirstFix(es[i])
    ensures Run(s, es).firstFix == s.firstFix
    decreases |es|
  {
    if es != [] {
      FirstFixSticky(Apply(s, es[0]), es[1..]);
    }
  }

  /** The engine status is changed by engine signals only: first fixes,
      batches and teardowns leave it as it was. */
  lemma {:induction false} StatusOnlyFromEngineSignals(s: Snapshot, es: seq<Event>)
    requires forall i :: 0 <= i < |es| ==> !IsEngineSignal(es[i])
    ensures Run(s, es).status == s.status
    decreases |es|
  {
    if es != [] {
      StatusOnlyFromEngineSignals(Apply(s, es[0]), es[1..]);
    }
  }

  /** A teardown starts a new session: until the platform reports a first fix
      again, the first fix stays NotAcquired, whatever it was before. */
  lemma NewSessionStartsFresh(s: Snapshot, es: seq<Event>)
    requires forall i :: 0 <= i < |es| ==> !es[i].FirstFix?
    ensures Run(s, [SessionEnd] + es).firstFix == FirstFixState.NotAcquired
  {
    var t := Apply(s, SessionEnd);
    assert ([SessionEnd] + es)[1..] == es;
    RunIsLatest(t, es);
    LatestFirstFixNotAcquired(t.firstFix, es);
  }

  lemma {:induction false} LatestFirstFixNotAcquired(before: FirstFixState, es: seq<Event>)
    requires before == FirstFixState.NotAcquired
    requires forall i :: 0 <= i < |es| ==> !es[i].FirstFix?
    ensures LatestFirstFix(before, es) == FirstFixState.NotAcquired
    decreases |es|
  {
    if es != [] {
      LatestFirstFixNotAcquired(before, es[..|es| - 1]);
    }
  }

  /** A recorded time to first fix always comes from the platform: a run that
      starts without a first fix and ends with Acquired(t) contains the callback
      `onFirstFix(t)`. */
  lemma {:induction false} FirstFixComesFromCallback(s: Snapshot, es: seq<Event>)
    requires s.firstFix == FirstFixState.NotAcquired
    requires Run(s, es).firstFix.Acquired?
    ensures exists i :: 0 <= i < |es| && es[i] == FirstFix(Run(s, es).firstFix.ttffMillis)
    decreases |es|
  {
    RunIsLatest(s, es);
    LatestFirstFixFromCallback(s.firstFix, es);
  }

  lemma {:induction false} LatestFirstFixFromCallback(before: FirstFixState, es: seq<Event>)
    requires before == FirstFixState.NotAcquired
    requires LatestFirstFix(before, es).Acquired?
    ensures exists i :: 0 <= i < |es| && es[i] == FirstFix(LatestFirstFix(before, es).ttffMillis)
    decreases |es|
  {
    var last := es[|es| - 1];
    if !last.FirstFix? {
      var init := es[..|es| - 1];
      LatestFirstFixFromCallback(before, init);
      var i :| 0 <= i < |init| && init[i] == FirstFix(LatestFirstFix(before, init).ttffMillis);
      assert es[i] == init[i];
    }
  }

  /** The events after which the ongoing fix is Acquired. */
  predicate GrantsFix(e: Event) {
    e.FirstFix? || (e.SatelliteBatch? && FixForBatch(e.lastLocation, e.nowNanos, e.minTimeMillis) == FixState.Acquired)
  }

  /** An ongoing fix has a cause: a run that starts without a fix and ends with
      one contains a first-fix callback or a batch whose staleness check passed. */
  lemma {:induction false} FixAcquiredHasCause(s: Snapshot, es: seq<Event>)
    requires s.fix == FixState.NotAcquired
    requires Run(s, es).fix == FixState.Acquired
    ensures exists i :: 0 <= i < |es| && GrantsFix(es[i])
  {
    RunIsLatest(s, es);
    LatestFixHasCause(s.fix, es);
  }

  lemma {:induction false} LatestFixHasCause(before: FixState, es: seq<Event>)
    requires before == FixState.NotAcquired
    requires LatestFix(before, es) == FixState.Acquired
    ensures exists i :: 0 <= i < |es| && GrantsFix(es[i])
    decreases |es|
  {
    var last := es[|es| - 1];
    if !(last.FirstFix? || last.SatelliteBatch?) {
      var init := es[..|es| - 1];
      LatestFixHasCause(before, init);
      var i :| 0 <= i < |init| && GrantsFix(init[i]);
      assert es[i] == init[i];
    }
  }
}
