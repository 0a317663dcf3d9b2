/** From interleaved statements to whole calls: when a schedule comes to rest, its outcome is that of some run of
    whole evaluations and whole events. */
module Serialisation {
  import opened SensorTypes
  import opened FaultDetector
  import opened DetectorTask
  import opened RecoveryTask
  import opened RecoveryRuns
  import opened Interleaving

  // ---- The condition ----

  /** Recovery has assigned `state` and is still finishing the event: clearing streaks, or about to look at
      `state` once more for its supervisor record. */
  predicate Finishing(rec: RecoveryPc) {
    Clearing(rec) || rec.RDone?
  }

  /** The detector keeps out while Recovery finishes an event. */
  ghost predicate Quiet(cfg: FdiConfig, moves: seq<Move>, k: nat)
    requires k <= |moves|
  {
    forall j :: 0 <= j < k && moves[j].DetectorMove? ==> !Finishing(Scheduled(cfg, moves, j).rec)
  }

  /** Each event Recovery takes up is stamped no earlier than the one before. */
  ghost predicate Timely(cfg: FdiConfig, moves: seq<Move>, k: nat)
    requires k <= |moves|
  {
    forall j :: 0 <= j < k && moves[j].RecoveryMove? && Scheduled(cfg, moves, j).rec.RIdle? ==>
                  moves[j].now >= Scheduled(cfg, moves, j).now
  }

  // ---- What a world stands for ----

  /** An evaluation counts from its verdict on, an event from the move after Recovery has read `state`; before
      that the thread is as good as idle. */
  function Counted(w: World): World {
    w.(det := if w.det.DBefore? then DIdle else w.det, rec := if w.rec.RSeen? then RIdle else w.rec)
  }

  /** The node a world stands for: what is left once the counted calls have been finished. */
  function Abstract(cfg: FdiConfig, w: World): Node {
    var end := FinishDetector(cfg, FinishRecovery(cfg, Counted(w), NoFault), NoFault);
    Node(end.ctx, end.sup)
  }

  function AfterMaybe(cfg: FdiConfig, n: Node, e: Option<Event>): Node {
    match e
    case Some(event) => StepNode(cfg, n, event)
    case None => n
  }

  // ---- Finishing one thread does not depend on the other ----

  lemma {:induction false} FinishRecoveryIgnoresDetector(cfg: FdiConfig, w: World, det: DetectorPc, detected: FaultType)
    ensures FinishRecovery(cfg, w.(det := det), detected) == FinishRecovery(cfg, w, detected).(det := det)
    ensures FinishRecovery(cfg, w, detected).det == w.det && FinishRecovery(cfg, w, detected).rec.RIdle?
    decreases RecoveryRank(w.rec)
  {
    if !w.rec.RIdle? {
      var next := RecoveryStep(cfg, w, detected, w.now);
      assert RecoveryStep(cfg, w.(det := det), detected, w.now) == next.(det := det);
      FinishRecoveryIgnoresDetector(cfg, next, det, detected);
    }
  }

  lemma {:induction false} FinishDetectorIgnoresClock(cfg: FdiConfig, w: World, now: uint64, detected: FaultType)
    ensures FinishDetector(cfg, w.(now := now), detected) == FinishDetector(cfg, w, detected).(now := now)
    decreases DetectorRank(w.det)
  {
    if !w.det.DIdle? {
      var next := DetectorStep(cfg, w, detected);
      assert DetectorStep(cfg, w.(now := now), detected) == next.(now := now);
      FinishDetectorIgnoresClock(cfg, next, now, detected);
    }
  }

  /** Once the verdict is in, the engine is not asked again. */
  lemma {:induction false} FinishDetectorIgnoresEngine(cfg: FdiConfig, w: World, d: FaultType, d': FaultType)
    requires !w.det.DBefore?
    ensures FinishDetector(cfg, w, d) == FinishDetector(cfg, w, d')
    decreases DetectorRank(w.det)
  {
    if !w.det.DIdle? {
      assert DetectorStep(cfg, w, d) == DetectorStep(cfg, w, d');
      FinishDetectorIgnoresEngine(cfg, DetectorStep(cfg, w, d), d, d');
    }
  }

  lemma {:induction false} FinishRecoveryIgnoresEngine(cfg: FdiConfig, w: World, d: FaultType, d': FaultType)
    requires !w.rec.RSeen?
    ensures FinishRecovery(cfg, w, d) == FinishRecovery(cfg, w, d')
    decreases RecoveryRank(w.rec)
  {
    if !w.rec.RIdle? {
      assert RecoveryStep(cfg, w, d, w.now) == RecoveryStep(cfg, w, d', w.now);
      FinishRecoveryIgnoresEngine(cfg, RecoveryStep(cfg, w, d, w.now), d, d');
    }
  }

  /** The detector's evaluation of a sensor it does not own leaves everything as it is. */
  predicate Idling(det: DetectorPc) {
    det.DIdle? || (det.DDetected? && RecoveryOwned(det.before))
  }

  lemma IdlingFinishes(cfg: FdiConfig, w: World)
    requires Idling(w.det)
    ensures FinishDetector(cfg, w, NoFault) == w.(det := DIdle)
  {
  }

  /** With the detector idling, a world stands for what Recovery will make of it. */
  lemma AbstractOfIdling(cfg: FdiConfig, w: World)
    requires Idling(Counted(w).det)
    ensures var end := FinishRecovery(cfg, Counted(w), NoFault); Abstract(cfg, w) == Node(end.ctx, end.sup)
  {
    FinishRecoveryIgnoresDetector(cfg, Counted(w), Counted(w).det, NoFault);
    IdlingFinishes(cfg, FinishRecovery(cfg, Counted(w), NoFault));
  }

  // ---- The detector's moves ----

  ghost predicate Owned(w: World) {
    DetectorKnows(w.ctx, w.det) && RecoveryKnows(w.ctx, w.rec)
  }

  /** Recovery is in the middle of an event that counts. */
  predicate Engaged(rec: RecoveryPc) {
    !rec.RIdle? && !rec.RSeen?
  }

  lemma EngagedMeansIdlingDetector(w: World)
    requires Owned(w) && Engaged(w.rec) && !Finishing(w.rec)
    ensures RecoveryOwned(w.ctx.state) && Idling(Counted(w).det)
  {
  }

  lemma DetectorMoveBesideRecovery(cfg: FdiConfig, w: World, detected: FaultType)
    requires Owned(w) && Engaged(w.rec) && !Finishing(w.rec)
    ensures Abstract(cfg, DetectorStep(cfg, w, detected)) == Abstract(cfg, w)
  {
    var w' := DetectorStep(cfg, w, detected);
    EngagedMeansIdlingDetector(w);
    assert Idling(Counted(w').det) && Counted(w') == Counted(w).(det := Counted(w').det);
    AbstractOfIdling(cfg, w);
    AbstractOfIdling(cfg, w');
    FinishRecoveryIgnoresDetector(cfg, Counted(w), Counted(w').det, NoFault);
  }

  lemma VerdictCounts(cfg: FdiConfig, w: World, detected: FaultType)
    requires Owned(w) && !Engaged(w.rec) && w.det.DBefore? && Usable(w.det.before)
    ensures Abstract(cfg, DetectorStep(cfg, w, detected)) == StepNode(cfg, Abstract(cfg, w), DetectorEval(detected))
  {
    var rest := Counted(w);
    var judged := rest.(det := DDetected(w.ctx.state, detected));
    DetectorFromSwitch(cfg, rest.(det := DSwitch(w.ctx.state, detected)), detected);
    assert FinishDetector(cfg, judged, detected) == rest.(ctx := Evaluated(cfg, w.ctx, detected));
    FinishDetectorIgnoresEngine(cfg, judged, detected, NoFault);
  }

  lemma DetectorMoveAlone(cfg: FdiConfig, w: World, detected: FaultType)
    requires Owned(w) && !Engaged(w.rec) && !(w.det.DBefore? && Usable(w.det.before))
    ensures Abstract(cfg, DetectorStep(cfg, w, detected)) == Abstract(cfg, w)
  {
    var w' := DetectorStep(cfg, w, detected);
    if w.det.DIdle? {
      assert Counted(w') == Counted(w);
    } else if w.det.DBefore? {
      IdlingFinishes(cfg, Counted(w'));
    } else {
      assert Counted(w') == DetectorStep(cfg, Counted(w), NoFault);
    }
  }

  lemma DetectorMoveIsSerial(cfg: FdiConfig, w: World, detected: FaultType) returns (e: Option<Event>)
    requires Owned(w) && !Finishing(w.rec)
    ensures Abstract(cfg, DetectorStep(cfg, w, detected)) == AfterMaybe(cfg, Abstract(cfg, w), e)
    ensures e.Some? ==> e.value.DetectorEval?
  {
    e := None;
    if Engaged(w.rec) {
      DetectorMoveBesideRecovery(cfg, w, detected);
    } else if w.det.DBefore? && Usable(w.det.before) {
      VerdictCounts(cfg, w, detected);
      e := Some(DetectorEval(detected));
    } else {
      DetectorMoveAlone(cfg, w, detected);
    }
  }

  // ---- Recovery's moves ----

  lemma ReceiveChangesNothing(cfg: FdiConfig, w: World, detected: FaultType, now: uint64)
    requires w.rec.RIdle?
    ensures Abstract(cfg, RecoveryStep(cfg, w, detected, now)) == Abstract(cfg, w)
  {
    assert Counted(RecoveryStep(cfg, w, detected, now)) == Counted(w).(now := now);
    FinishDetectorIgnoresClock(cfg, Counted(w), now, NoFault);
  }

  lemma DismissedEventChangesNothing(cfg: FdiConfig, w: World, detected: FaultType, now: uint64)
    requires w.rec.RSeen? && RecoveryStep(cfg, w, detected, now).rec.RIdle?
    ensures Abstract(cfg, RecoveryStep(cfg, w, detected, now)) == Abstract(cfg, w)
  {
    assert Counted(RecoveryStep(cfg, w, detected, now)) == Counted(w);
  }

  lemma EventCounts(cfg: FdiConfig, w: World, detected: FaultType, now: uint64)
    requires Owned(w) && w.rec.RSeen? && Engaged(RecoveryStep(cfg, w, detected, now).rec)
    ensures Abstract(cfg, RecoveryStep(cfg, w, detected, now))
            == StepNode(cfg, Abstract(cfg, w), RecoveryEvent(w.now, detected))
  {
    var w' := RecoveryStep(cfg, w, detected, now);
    var taken := Counted(w');
    assert Idling(taken.det) && Counted(w) == taken.(rec := RIdle);
    AbstractOfIdling(cfg, w);
    AbstractOfIdling(cfg, w');
    EventFinishes(cfg, taken, detected);
  }

  lemma EventFinishes(cfg: FdiConfig, taken: World, detected: FaultType)
    requires taken.ctx.state.Excluded? ==> taken.rec.RStart? && !taken.sup.permanentFail && taken.now >= taken.sup.nextProbeUs
    requires OnTrial(taken.ctx.state) ==>
               taken.rec == if TimedOut(taken.sup, taken.now) then RTimeout else RFirst(detected)
    requires RecoveryOwned(taken.ctx.state)
    ensures var end := FinishRecovery(cfg, taken, NoFault);
            Node(end.ctx, end.sup) == Recovered(cfg, Node(taken.ctx, taken.sup), taken.now, detected)
  {
    FinishRecoveryIgnoresEngine(cfg, taken, detected, NoFault);
    if taken.ctx.state.Excluded? {
      RecoveryFromStart(cfg, taken, detected);
    } else if TimedOut(taken.sup, taken.now) {
      RecoveryFromTimeout(cfg, taken, detected);
    } else {
      RecoveryFromTrial(cfg, taken, detected);
    }
  }

  lemma EngagedMoveChangesNothing(cfg: FdiConfig, w: World, detected: FaultType, now: uint64)
    requires Engaged(w.rec)
    ensures Abstract(cfg, RecoveryStep(cfg, w, detected, now)) == Abstract(cfg, w)
  {
    assert Counted(RecoveryStep(cfg, w, detected, now)) == RecoveryStep(cfg, Counted(w), NoFault, w.now);
  }

  lemma RecoveryMoveIsSerial(cfg: FdiConfig, w: World, detected: FaultType, now: uint64) returns (e: Option<Event>)
    requires Owned(w)
    ensures Abstract(cfg, RecoveryStep(cfg, w, detected, now)) == AfterMaybe(cfg, Abstract(cfg, w), e)
    ensures e.Some? ==> e.value.RecoveryEvent? && e.value.now == w.now
  {
    e := None;
    if w.rec.RIdle? {
      ReceiveChangesNothing(cfg, w, detected, now);
    } else if Engaged(w.rec) {
      EngagedMoveChangesNothing(cfg, w, detected, now);
    } else if RecoveryStep(cfg, w, detected, now).rec.RIdle? {
      DismissedEventChangesNothing(cfg, w, detected, now);
    } else {
      EventCounts(cfg, w, detected, now);
      e := Some(RecoveryEvent(w.now, detected));
    }
  }

  // ---- Whole schedules ----

  lemma {:induction false} AfterPrefix(cfg: FdiConfig, es: seq<Event>, e: Event, k: nat)
    requires k <= |es|
    ensures After(cfg, es + [e], k) == After(cfg, es, k)
    decreases k
  {
    if k > 0 {
      AfterPrefix(cfg, es, e, k - 1);
    }
  }

  /** The run of whole calls a schedule amounts to. */
  ghost predicate Serialises(cfg: FdiConfig, es: seq<Event>, w: World) {
    After(cfg, es, |es|) == Abstract(cfg, w)
  }

  /** A clocked run none of whose events is later than the one in hand. */
  ghost predicate ClockedUntil(es: seq<Event>, now: uint64) {
    Clocked(es) && forall i :: 0 <= i < |es| && es[i].RecoveryEvent? ==> es[i].now <= now
  }

  lemma MoveCounts(cfg: FdiConfig, w: World, m: Move) returns (e: Option<Event>)
    requires Owned(w) && (m.DetectorMove? ==> !Finishing(w.rec))
    ensures Abstract(cfg, StepWorld(cfg, w, m)) == AfterMaybe(cfg, Abstract(cfg, w), e)
    ensures e.Some? && e.value.RecoveryEvent? ==> e.value.now == w.now
  {
    match m {
      case DetectorMove(detected) => e := DetectorMoveIsSerial(cfg, w, detected);
      case RecoveryMove(detected, now) => e := RecoveryMoveIsSerial(cfg, w, detected, now);
    }
  }

  lemma OnlyReceivingMovesTheClock(cfg: FdiConfig, w: World, m: Move)
    ensures StepWorld(cfg, w, m).now == if m.RecoveryMove? && w.rec.RIdle? then m.now else w.now
  {
  }

  lemma MoveIsSerial(cfg: FdiConfig, w: World, m: Move, es: seq<Event>) returns (es': seq<Event>)
    requires Owned(w) && (m.DetectorMove? ==> !Finishing(w.rec)) && Serialises(cfg, es, w)
    ensures Serialises(cfg, es', StepWorld(cfg, w, m))
    ensures ClockedUntil(es, w.now) ==> ClockedUntil(es', w.now)
  {
    var e := MoveCounts(cfg, w, m);
    es' := es;
    if e.Some? {
      AfterPrefix(cfg, es, e.value, |es|);
      es' := es + [e.value];
    }
  }

  lemma {:induction false} ScheduleSerialises(cfg: FdiConfig, moves: seq<Move>, k: nat) returns (es: seq<Event>)
    requires k <= |moves| && Quiet(cfg, moves, k)
    ensures Serialises(cfg, es, Scheduled(cfg, moves, k))
    ensures Timely(cfg, moves, k) ==> ClockedUntil(es, Scheduled(cfg, moves, k).now)
    decreases k
  {
    if k == 0 {
      es := [];
    } else {
      es := ScheduleSerialises(cfg, moves, k - 1);
      ScheduleKeepsOwnership(cfg, moves, k - 1);
      es := MoveIsSerial(cfg, Scheduled(cfg, moves, k - 1), moves[k - 1], es);
      OnlyReceivingMovesTheClock(cfg, Scheduled(cfg, moves, k - 1), moves[k - 1]);
    }
  }

  /** Serialisation: if the detector keeps out while Recovery finishes an event, then whenever both threads are at
      rest the context and the supervisor record are exactly those that some run of whole evaluations and whole
      events leaves behind; with timely events it is a clocked run, so that everything proved of such runs holds
      of the interleaved threads. */
  lemma QuietSchedulesSerialise(cfg: FdiConfig, moves: seq<Move>, k: nat)
    requires k <= |moves| && Quiet(cfg, moves, k)
    requires Scheduled(cfg, moves, k).det.DIdle? && Scheduled(cfg, moves, k).rec.RIdle?
    ensures exists es :: After(cfg, es, |es|) == Node(Scheduled(cfg, moves, k).ctx, Scheduled(cfg, moves, k).sup)
                         && (Timely(cfg, moves, k) ==> Clocked(es))
  {
    var es := ScheduleSerialises(cfg, moves, k);
  }

  /** The condition is needed: what the race of `EveryConfigurationCanRace` comes to rest in is the outcome of no
      run of whole calls, for any limits. */
  lemma RaceDoesNotSerialise(cfg: FdiConfig)
    ensures ReachableWorld(cfg, Rest(Fsm(Suspect, 0, 0, 0)))
    ensures forall es :: After(cfg, es, |es|).fsm != Fsm(Suspect, 0, 0, 0)
  {
    EveryConfigurationCanRace(cfg);
    forall es
      ensures After(cfg, es, |es|).fsm != Fsm(Suspect, 0, 0, 0)
    {
      RecoveryRuns.RunKeepsCounters(cfg, es, |es|);
    }
  }
}
