/** The Fault Detector and Recovery threads stepping one context with no lock: every read of `state`, every
    write of `state` and every counter statement is a step of its own, and the steps interleave freely. */
module Interleaving {
  import opened SensorTypes
  import opened FaultDetector
  import opened DetectorTask
  import opened RecoveryTask

  // ---- Program points ----

  /** Where the Fault Detector stands in `evaluate_sensor` and the calls it makes. */
  datatype DetectorPc =
    | DIdle
    | DBefore(before: SensorState)                       // has read `before`
    | DDetected(before: SensorState, detected: FaultType)
    | DSwitch(current: SensorState, detected: FaultType) // fdi_update_state has read `state`
    | DFaultCounted                                      // fault_streak++ done
    | DFaultTest                                         // recovery_streak = 0 done
    | DCleanTest                                         // recovery_streak++ done
    | DWrite(next: SensorState)                          // about to assign `state`
    | DClearFault                                        // about to assign fault_streak = 0
    | DClearRecovery                                     // about to assign recovery_streak = 0
    | DCheck                                             // about to test for FAULTED
    | DIsolate                                           // about to test inside fdi_isolate

  /** Where Recovery stands in handling one event. */
  datatype RecoveryPc =
    | RIdle
    | RSeen(seen: SensorState)                           // the switch has read `state`
    | RStart                                             // about to test inside fdi_start_probe
    | RStarted                                           // about to record the probe's start
    | RTimeout                                           // about to test inside fdi_isolate
    | RWriteTimeout                                      // about to assign `state` inside fdi_isolate
    | RPunish                                            // about to record the timeout
    | RFirst(detected: FaultType)                        // about to test for PROBING
    | RSecond(detected: FaultType)                       // about to test for VALIDATING
    | RValidationTest                                    // validation_streak++ done
    | RWrite(next: SensorState)                          // about to assign `state`
    | RClearProbe                                        // about to assign validation_streak = 0
    | RSetOne                                            // about to assign validation_streak = 1
    | RClearFault
    | RClearRecovery
    | RClearValidation
    | RDone                                              // about to test for HEALTHY

  /** The shared context, the two threads, and what belongs to Recovery alone: its supervisor record for the
      sensor and the timestamp of the event in hand. */
  datatype World = World(ctx: Fsm, det: DetectorPc, rec: RecoveryPc, sup: Sup, now: uint64)

  /** The scheduler picks a thread. `detected` stands for whatever the detection engine answers at that point;
      an idle Recovery receives an event stamped `now`, which may come at any time and be stale. */
  datatype Move = DetectorMove(detected: FaultType) | RecoveryMove(detected: FaultType, now: uint64)

  const START_WORLD := World(INIT, DIdle, RIdle, NO_SUP, 0)

  function DetectorStep(cfg: FdiConfig, w: World, detected: FaultType): World {
    var c := w.ctx;
    match w.det
    case DIdle => w.(det := DBefore(c.state))
    case DBefore(before) => w.(det := DDetected(before, detected))
    case DDetected(before, d) =>
      if Usable(before) then w.(det := DSwitch(c.state, d))
      else if before.Faulted? then w.(det := DIsolate)
      else w.(det := DIdle)
    case DSwitch(current, d) =>
      if current.Healthy? && !d.NoFault? then w.(ctx := c.(faultStreak := 1), det := DWrite(Suspect))
      else if current.Suspect? && d.NoFault? then w.(ctx := c.(recoveryStreak := Inc8(c.recoveryStreak)), det := DCleanTest)
      else if current.Suspect? && d.Contradictory? then w.(ctx := c.(recoveryStreak := 0), det := DCheck)
      else if current.Suspect? then w.(ctx := c.(faultStreak := Inc8(c.faultStreak)), det := DFaultCounted)
      else w.(det := DCheck)
    case DFaultCounted => w.(ctx := c.(recoveryStreak := 0), det := DFaultTest)
    case DFaultTest => w.(det := if c.faultStreak >= cfg.faultConfirmLimit then DWrite(Faulted) else DCheck)
    case DCleanTest => w.(det := if c.recoveryStreak >= cfg.recoveryConfirmLimit then DWrite(Healthy) else DCheck)
    case DWrite(next) =>
      w.(ctx := c.(state := next),
         det := if next.Healthy? then DClearFault else if next.Excluded? then DIdle else DCheck)
    case DClearFault => w.(ctx := c.(faultStreak := 0), det := DClearRecovery)
    case DClearRecovery => w.(ctx := c.(recoveryStreak := 0), det := DCheck)
    case DCheck => w.(det := if c.state.Faulted? then DIsolate else DIdle)
    case DIsolate => w.(det := if c.state.Faulted? then DWrite(Excluded) else DIdle)
  }

  function RecoveryStep(cfg: FdiConfig, w: World, detected: FaultType, now: uint64): World {
    var c := w.ctx;
    match w.rec
    case RIdle => w.(rec := RSeen(c.state), now := now)
    case RSeen(seen) =>
      if seen.Excluded? then
        w.(rec := if w.sup.permanentFail || w.now < w.sup.nextProbeUs then RIdle else RStart)
      else if OnTrial(seen) then w.(rec := if TimedOut(w.sup, w.now) then RTimeout else RFirst(detected))
      else w.(rec := RIdle)
    case RStart => w.(rec := if c.state.Excluded? then RWrite(Probing) else RStarted)
    case RStarted => w.(sup := w.sup.(probeStartedUs := w.now), rec := RIdle)
    case RTimeout => w.(rec := if c.state.Faulted? then RWriteTimeout else RPunish)
    case RWriteTimeout => w.(ctx := c.(state := Excluded), rec := RPunish)
    case RPunish => w.(sup := Punished(w.sup, w.now), rec := RIdle)
    case RFirst(d) =>
      w.(rec := if !c.state.Probing? then RSecond(d) else if d.NoFault? then RWrite(Validating) else RWrite(Excluded))
    case RSecond(d) =>
      if !c.state.Validating? then w.(rec := RDone)
      else if d.NoFault? then w.(ctx := c.(validationStreak := Inc8(c.validationStreak)), rec := RValidationTest)
      else w.(rec := RWrite(Excluded))
    case RValidationTest => w.(rec := if c.validationStreak >= cfg.recoveryConfirmLimit then RWrite(Healthy) else RDone)
    case RWrite(next) =>
      w.(ctx := c.(state := next),
         rec := match next
                case Probing => RClearProbe
                case Validating => RSetOne
                case Healthy => RClearFault
                case _ => RDone)
    case RClearProbe => w.(ctx := c.(validationStreak := 0), rec := RStarted)
    case RSetOne => w.(ctx := c.(validationStreak := 1), rec := RDone)
    case RClearFault => w.(ctx := c.(faultStreak := 0), rec := RClearRecovery)
    case RClearRecovery => w.(ctx := c.(recoveryStreak := 0), rec := RClearValidation)
    case RClearValidation => w.(ctx := c.(validationStreak := 0), rec := RDone)
    case RDone => w.(rec := RIdle, sup := if c.state.Healthy? then Pardoned(w.sup) else w.sup)
  }

  function StepWorld(cfg: FdiConfig, w: World, m: Move): World {
    match m
    case DetectorMove(detected) => DetectorStep(cfg, w, detected)
    case RecoveryMove(detected, now) => RecoveryStep(cfg, w, detected, now)
  }

  /** The world `k` moves after `w`. */
  function Continued(cfg: FdiConfig, w: World, moves: seq<Move>, k: nat): World
    requires k <= |moves|
  {
    if k == 0 then w else StepWorld(cfg, Continued(cfg, w, moves, k - 1), moves[k - 1])
  }

  /** The world after the first `k` moves of a schedule. */
  function Scheduled(cfg: FdiConfig, moves: seq<Move>, k: nat): World
    requires k <= |moves|
  {
    Continued(cfg, START_WORLD, moves, k)
  }

  // ---- Uninterrupted, the statements add up to the calls ----

  /** The detector's remaining statements up to the end of its evaluation, with no move of Recovery in between. */
  function FinishDetector(cfg: FdiConfig, w: World, detected: FaultType): World
    decreases DetectorRank(w.det)
  {
    if w.det.DIdle? then w else FinishDetector(cfg, DetectorStep(cfg, w, detected), detected)
  }

  function DetectorRank(det: DetectorPc): nat {
    match det
    case DIdle => 0
    case DWrite(next) => if next.Excluded? then 1 else 6
    case DIsolate => 2
    case DCheck => 3
    case DClearRecovery => 4
    case DClearFault => 5
    case DFaultTest | DCleanTest => 7
    case DFaultCounted => 8
    case DSwitch(_, _) => 9
    case DDetected(_, _) => 10
    case DBefore(_) => 11
  }

  /** Recovery's remaining statements up to the end of its event, with no move of the detector in between. */
  function FinishRecovery(cfg: FdiConfig, w: World, detected: FaultType): World
    decreases RecoveryRank(w.rec)
  {
    if w.rec.RIdle? then w else FinishRecovery(cfg, RecoveryStep(cfg, w, detected, w.now), detected)
  }

  function RecoveryRank(rec: RecoveryPc): nat {
    match rec
    case RIdle => 0
    case RDone | RPunish | RStarted => 1
    case RSetOne | RClearValidation | RWriteTimeout | RClearProbe => 2
    case RClearRecovery | RTimeout => 3
    case RClearFault => 4
    case RWrite(_) => 5
    case RValidationTest | RStart => 6
    case RSecond(_) => 7
    case RFirst(_) => 8
    case RSeen(_) => 9
  }

  lemma DetectorFromCheck(cfg: FdiConfig, w: World, detected: FaultType)
    requires w.det.DIsolate? || w.det.DCheck?
    ensures FinishDetector(cfg, w, detected) == w.(ctx := Isolated(w.ctx), det := DIdle)
  {
    if w.ctx.state.Faulted? {
      assert FinishDetector(cfg, w.(det := DWrite(Excluded)), detected) == w.(ctx := Isolated(w.ctx), det := DIdle);
      assert DetectorStep(cfg, w.(det := DIsolate), detected) == w.(det := DWrite(Excluded));
      assert FinishDetector(cfg, w.(det := DIsolate), detected) == w.(ctx := Isolated(w.ctx), det := DIdle);
    } else {
      assert w.(det := DIdle) == w.(ctx := Isolated(w.ctx), det := DIdle);
    }
  }

  /** The detector ends with the test for FAULTED, having left the context as `c`. */
  ghost predicate DetectorLeaves(cfg: FdiConfig, w: World, detected: FaultType, c: Fsm) {
    FinishDetector(cfg, w, detected) == w.(ctx := Isolated(c), det := DIdle)
  }

  lemma DetectorFromWrite(cfg: FdiConfig, w: World, detected: FaultType)
    requires w.det == DWrite(Suspect) || w.det == DWrite(Faulted)
    ensures DetectorLeaves(cfg, w, detected, w.ctx.(state := w.det.next))
  {
    DetectorFromCheck(cfg, w.(ctx := w.ctx.(state := w.det.next), det := DCheck), detected);
  }

  lemma DetectorFromFaultTest(cfg: FdiConfig, w: World, detected: FaultType)
    requires w.det.DFaultTest?
    ensures DetectorLeaves(cfg, w, detected,
                           if w.ctx.faultStreak >= cfg.faultConfirmLimit then w.ctx.(state := Faulted) else w.ctx)
  {
    DetectorFromWrite(cfg, w.(det := DWrite(Faulted)), detected);
    DetectorFromCheck(cfg, w.(det := DCheck), detected);
  }

  lemma DetectorFromClear(cfg: FdiConfig, w: World, detected: FaultType)
    requires w.det == DWrite(Healthy)
    ensures DetectorLeaves(cfg, w, detected, w.ctx.(state := Healthy, faultStreak := 0, recoveryStreak := 0))
  {
    var c1 := w.ctx.(state := Healthy);
    var c2 := c1.(faultStreak := 0);
    var c3 := c2.(recoveryStreak := 0);
    DetectorFromCheck(cfg, w.(ctx := c3, det := DCheck), detected);
    assert DetectorLeaves(cfg, w.(ctx := c2, det := DClearRecovery), detected, c3);
    assert DetectorLeaves(cfg, w.(ctx := c1, det := DClearFault), detected, c3);
  }

  lemma DetectorFromCleanTest(cfg: FdiConfig, w: World, detected: FaultType)
    requires w.det.DCleanTest?
    ensures DetectorLeaves(cfg, w, detected,
                           if w.ctx.recoveryStreak >= cfg.recoveryConfirmLimit
                           then w.ctx.(state := Healthy, faultStreak := 0, recoveryStreak := 0) else w.ctx)
  {
    DetectorFromClear(cfg, w.(det := DWrite(Healthy)), detected);
    DetectorFromCheck(cfg, w.(det := DCheck), detected);
  }

  lemma DetectorFromSwitch(cfg: FdiConfig, w: World, detected: FaultType)
    requires Usable(w.ctx.state) && w.det == DSwitch(w.ctx.state, detected)
    ensures DetectorLeaves(cfg, w, detected, Update(cfg, w.ctx, detected))
  {
    var c := w.ctx;
    if c.state.Healthy? {
      DetectorFromCheck(cfg, w.(det := DCheck), detected);
      DetectorFromWrite(cfg, w.(ctx := c.(faultStreak := 1), det := DWrite(Suspect)), detected);
    } else if detected.NoFault? {
      DetectorFromCleanTest(cfg, w.(ctx := c.(recoveryStreak := Inc8(c.recoveryStreak)), det := DCleanTest), detected);
    } else if detected.Contradictory? {
      DetectorFromCheck(cfg, w.(ctx := c.(recoveryStreak := 0), det := DCheck), detected);
    } else {
      var counted := c.(faultStreak := Inc8(c.faultStreak));
      var reset := counted.(recoveryStreak := 0);
      DetectorFromFaultTest(cfg, w.(ctx := reset, det := DFaultTest), detected);
      assert DetectorLeaves(cfg, w.(ctx := counted, det := DFaultCounted), detected, Update(cfg, c, detected));
    }
  }

  /** Uninterrupted, the detector's statements compute exactly one whole evaluation, and nothing of Recovery's. */
  lemma SoloDetectorIsOneEvaluation(cfg: FdiConfig, w: World, detected: FaultType)
    requires w.det.DIdle?
    ensures FinishDetector(cfg, DetectorStep(cfg, w, detected), detected) == w.(ctx := Evaluated(cfg, w.ctx, detected))
  {
    var c := w.ctx;
    assert DetectorStep(cfg, w.(det := DBefore(c.state)), detected) == w.(det := DDetected(c.state, detected));
    if Usable(c.state) {
      DetectorFromSwitch(cfg, w.(det := DSwitch(c.state, detected)), detected);
    } else {
      DetectorFromCheck(cfg, w.(det := DIsolate), detected);
    }
  }

  lemma RecoveryFromWrite(cfg: FdiConfig, w: World, detected: FaultType)
    requires w.rec == RWrite(Excluded) || w.rec == RWrite(Validating)
    ensures FinishRecovery(cfg, w, detected)
            == if w.rec.next.Excluded? then w.(ctx := w.ctx.(state := Excluded), rec := RIdle)
               else w.(ctx := w.ctx.(state := Validating, validationStreak := 1), rec := RIdle)
  {
    if w.rec.next.Excluded? {
      var out := w.(ctx := w.ctx.(state := Excluded), rec := RDone);
      assert FinishRecovery(cfg, out, detected) == out.(rec := RIdle);
    } else {
      var one := w.(ctx := w.ctx.(state := Validating, validationStreak := 1), rec := RDone);
      assert FinishRecovery(cfg, one, detected) == one.(rec := RIdle);
      assert FinishRecovery(cfg, w.(ctx := w.ctx.(state := Validating), rec := RSetOne), detected) == one.(rec := RIdle);
    }
  }

  lemma RecoveryFromStart(cfg: FdiConfig, w: World, detected: FaultType)
    requires w.rec.RStart? && w.ctx.state.Excluded?
    ensures FinishRecovery(cfg, w, detected)
            == w.(ctx := ProbeStarted(w.ctx), rec := RIdle, sup := w.sup.(probeStartedUs := w.now))
  {
    var end := w.(ctx := ProbeStarted(w.ctx), rec := RIdle, sup := w.sup.(probeStartedUs := w.now));
    assert FinishRecovery(cfg, w.(ctx := ProbeStarted(w.ctx), rec := RStarted), detected) == end;
    assert FinishRecovery(cfg, w.(ctx := w.ctx.(state := Probing), rec := RClearProbe), detected) == end;
    assert FinishRecovery(cfg, w.(rec := RWrite(Probing)), detected) == end;
  }

  lemma RecoveryFromHealthy(cfg: FdiConfig, w: World, detected: FaultType)
    requires w.rec == RWrite(Healthy)
    ensures FinishRecovery(cfg, w, detected) == w.(ctx := INIT, rec := RIdle, sup := Pardoned(w.sup))
  {
    var c1 := w.ctx.(state := Healthy);
    var c2 := c1.(faultStreak := 0);
    var c3 := c2.(recoveryStreak := 0);
    var end := w.(ctx := INIT, rec := RIdle, sup := Pardoned(w.sup));
    assert FinishRecovery(cfg, w.(ctx := INIT, rec := RDone), detected) == end;
    assert FinishRecovery(cfg, w.(ctx := c3, rec := RClearValidation), detected) == end;
    assert FinishRecovery(cfg, w.(ctx := c2, rec := RClearRecovery), detected) == end;
    assert FinishRecovery(cfg, w.(ctx := c1, rec := RClearFault), detected) == end;
  }

  lemma RecoveryFromValidating(cfg: FdiConfig, w: World, detected: FaultType)
    requires w.ctx.state.Validating? && w.rec == RSecond(detected)
    ensures var c := ProbeEvaluated(cfg, w.ctx, detected);
            FinishRecovery(cfg, w, detected)
            == w.(ctx := c, rec := RIdle, sup := if c.state.Healthy? then Pardoned(w.sup) else w.sup)
  {
    if detected.NoFault? {
      var counted := w.(ctx := w.ctx.(validationStreak := Inc8(w.ctx.validationStreak)), rec := RValidationTest);
      RecoveryFromHealthy(cfg, counted.(rec := RWrite(Healthy)), detected);
      assert FinishRecovery(cfg, counted.(rec := RDone), detected) == counted.(rec := RIdle);
    } else {
      RecoveryFromWrite(cfg, w.(rec := RWrite(Excluded)), detected);
    }
  }

  lemma RecoveryFromTrial(cfg: FdiConfig, w: World, detected: FaultType)
    requires OnTrial(w.ctx.state) && w.rec == RFirst(detected)
    ensures var c := ProbeEvaluated(cfg, w.ctx, detected);
            FinishRecovery(cfg, w, detected)
            == w.(ctx := c, rec := RIdle, sup := if c.state.Healthy? then Pardoned(w.sup) else w.sup)
  {
    if w.ctx.state.Validating? {
      RecoveryFromValidating(cfg, w.(rec := RSecond(detected)), detected);
    } else {
      RecoveryFromWrite(cfg, w.(rec := if detected.NoFault? then RWrite(Validating) else RWrite(Excluded)), detected);
    }
  }

  lemma RecoveryFromTimeout(cfg: FdiConfig, w: World, detected: FaultType)
    requires w.rec.RTimeout? && OnTrial(w.ctx.state)
    ensures FinishRecovery(cfg, w, detected) == w.(rec := RIdle, sup := Punished(w.sup, w.now))
  {
    assert FinishRecovery(cfg, w.(rec := RPunish), detected) == w.(rec := RIdle, sup := Punished(w.sup, w.now));
  }

  /** Uninterrupted, Recovery's statements have exactly the effect of one whole event on the state machine and
      on the supervisor. */
  lemma SoloRecoveryIsOneEvent(cfg: FdiConfig, w: World, now: uint64, detected: FaultType)
    requires w.rec.RIdle?
    ensures var n := Recovered(cfg, Node(w.ctx, w.sup), now, detected);
            FinishRecovery(cfg, RecoveryStep(cfg, w, detected, now), detected) == w.(ctx := n.fsm, sup := n.sup, now := now)
  {
    var seen := w.(rec := RSeen(w.ctx.state), now := now);
    if w.ctx.state.Excluded? {
      RecoveryFromStart(cfg, seen.(rec := RStart), detected);
    } else if OnTrial(w.ctx.state) {
      RecoveryFromTrial(cfg, seen.(rec := RFirst(detected)), detected);
      RecoveryFromTimeout(cfg, seen.(rec := RTimeout), detected);
    }
  }

  // ---- Ownership of `state` ----

  /** What the detector may rely on at each of its program points, whatever Recovery does meanwhile. */
  ghost predicate DetectorKnows(ctx: Fsm, det: DetectorPc) {
    match det
    case DIdle => !ctx.state.Faulted?
    case DBefore(before) => !before.Faulted? && (if Usable(before) then ctx.state == before else !ctx.state.Faulted?)
    case DDetected(before, _) => !before.Faulted? && (if Usable(before) then ctx.state == before else !ctx.state.Faulted?)
    case DSwitch(current, _) => ctx.state == current && Usable(current)
    case DFaultCounted | DFaultTest | DCleanTest => ctx.state.Suspect?
    case DWrite(next) => !RecoveryOwned(ctx.state) && LegalEdge(ctx.state, next)
    case DClearFault | DClearRecovery => ctx.state.Healthy?
    case DCheck | DIsolate => !RecoveryOwned(ctx.state)
  }

  /** What Recovery may rely on at each of its program points. */
  ghost predicate RecoveryKnows(ctx: Fsm, rec: RecoveryPc) {
    match rec
    case RSeen(seen) => RecoveryOwned(seen) ==> ctx.state == seen
    case RStart => ctx.state.Excluded?
    case RTimeout | RPunish => OnTrial(ctx.state)
    case RWriteTimeout => false
    case RFirst(_) => OnTrial(ctx.state)
    case RSecond(_) | RValidationTest | RSetOne => ctx.state.Validating?
    case RWrite(next) => RecoveryOwned(ctx.state) && LegalEdge(ctx.state, next)
    case RClearProbe | RStarted => ctx.state.Probing?
    case _ => true
  }

  lemma DetectorStepKeepsOwnership(cfg: FdiConfig, w: World, detected: FaultType)
    requires DetectorKnows(w.ctx, w.det) && RecoveryKnows(w.ctx, w.rec)
    ensures var w' := DetectorStep(cfg, w, detected);
            DetectorKnows(w'.ctx, w'.det) && RecoveryKnows(w'.ctx, w'.rec)
  {
  }

  lemma RecoveryStepKeepsOwnership(cfg: FdiConfig, w: World, detected: FaultType, now: uint64)
    requires DetectorKnows(w.ctx, w.det) && RecoveryKnows(w.ctx, w.rec)
    ensures var w' := RecoveryStep(cfg, w, detected, now);
            DetectorKnows(w'.ctx, w'.det) && RecoveryKnows(w'.ctx, w'.rec)
  {
  }

  lemma {:induction false} ScheduleKeepsOwnership(cfg: FdiConfig, moves: seq<Move>, k: nat)
    requires k <= |moves|
    ensures var w := Scheduled(cfg, moves, k); DetectorKnows(w.ctx, w.det) && RecoveryKnows(w.ctx, w.rec)
  {
    if k > 0 {
      ScheduleKeepsOwnership(cfg, moves, k - 1);
      match moves[k - 1] {
        case DetectorMove(detected) => DetectorStepKeepsOwnership(cfg, Scheduled(cfg, moves, k - 1), detected);
        case RecoveryMove(detected, now) =>
          RecoveryStepKeepsOwnership(cfg, Scheduled(cfg, moves, k - 1), detected, now);
      }
    }
  }

  /** The thread and the value of a move that assigns `state`. */
  ghost predicate Assigns(w: World, m: Move, value: SensorState) {
    match m
    case DetectorMove(_) => w.det == DWrite(value)
    case RecoveryMove(_, _) => w.rec == RWrite(value) || (w.rec.RWriteTimeout? && value.Excluded?)
  }

  /** Ownership without a lock: in every schedule, each assignment of `state` is an edge of the state diagram
      from the very value it overwrites, made by the thread that owns that value; no other move changes `state`. */
  lemma EveryWriteIsALegalEdge(cfg: FdiConfig, moves: seq<Move>, k: nat)
    requires k < |moves|
    ensures var w, w', m := Scheduled(cfg, moves, k), Scheduled(cfg, moves, k + 1), moves[k];
            && (w'.ctx.state != w.ctx.state ==> Assigns(w, m, w'.ctx.state))
            && (forall v :: Assigns(w, m, v) ==>
                  LegalEdge(w.ctx.state, v) && w'.ctx.state == v
                  && (m.RecoveryMove? <==> RecoveryOwned(w.ctx.state)))
  {
    ScheduleKeepsOwnership(cfg, moves, k);
  }

  /** FAULTED is only ever visible while the detector is in the middle of an evaluation. */
  lemma FaultedOnlyMidEvaluation(cfg: FdiConfig, moves: seq<Move>, k: nat)
    requires k <= |moves|
    ensures Scheduled(cfg, moves, k).det.DIdle? ==> !Scheduled(cfg, moves, k).ctx.state.Faulted?
  {
    ScheduleKeepsOwnership(cfg, moves, k);
  }

  /** The detector's moves among lo, ..., hi-1, made from `w` with no Recovery in sight. */
  function DetectorOnly(cfg: FdiConfig, w: World, moves: seq<Move>, lo: nat, hi: nat): World
    requires hi <= |moves|
  {
    if hi <= lo then w else DetectorStep(cfg, DetectorOnly(cfg, w, moves, lo, hi - 1), moves[hi - 1].detected)
  }

  /** Move i makes an idle Recovery take up an event, move j is its next one, and only the detector moves in between. */
  ghost predicate OneEvent(cfg: FdiConfig, moves: seq<Move>, i: nat, j: nat) {
    && i < j < |moves| && Scheduled(cfg, moves, i).rec.RIdle?
    && moves[i].RecoveryMove? && moves[j].RecoveryMove?
    && forall t :: i < t < j ==> moves[t].DetectorMove?
  }

  lemma DetectorIgnoresRecovery(cfg: FdiConfig, w: World, rec: RecoveryPc, now: uint64, detected: FaultType)
    ensures DetectorStep(cfg, w.(rec := rec, now := now), detected)
            == DetectorStep(cfg, w, detected).(rec := rec, now := now)
  {
  }

  lemma {:induction false} StaleEventWaits(cfg: FdiConfig, moves: seq<Move>, i: nat, t: nat)
    requires i < t <= |moves| && Scheduled(cfg, moves, i).rec.RIdle? && moves[i].RecoveryMove?
    requires forall u :: i < u < t ==> moves[u].DetectorMove?
    ensures Scheduled(cfg, moves, t)
            == DetectorOnly(cfg, Scheduled(cfg, moves, i), moves, i + 1, t)
               .(rec := RSeen(Scheduled(cfg, moves, i).ctx.state), now := moves[i].now)
    decreases t
  {
    if t > i + 1 {
      StaleEventWaits(cfg, moves, i, t - 1);
      assert moves[t - 1].DetectorMove?;
      DetectorIgnoresRecovery(cfg, DetectorOnly(cfg, Scheduled(cfg, moves, i), moves, i + 1, t - 1),
                              RSeen(Scheduled(cfg, moves, i).ctx.state), moves[i].now, moves[t - 1].detected);
      assert Scheduled(cfg, moves, t) == DetectorStep(cfg, Scheduled(cfg, moves, t - 1), moves[t - 1].detected);
    }
  }

  /** A stale event: when Recovery takes up an event for a sensor it does not own, its next move already ends the
      event, and whatever the detector does meanwhile comes out as if the event had never arrived: the context
      and the supervisor record are those of the detector's moves alone. */
  lemma StaleEventsAreHarmless(cfg: FdiConfig, moves: seq<Move>, i: nat, j: nat)
    requires OneEvent(cfg, moves, i, j) && !RecoveryOwned(Scheduled(cfg, moves, i).ctx.state)
    ensures Scheduled(cfg, moves, j + 1)
            == DetectorOnly(cfg, Scheduled(cfg, moves, i), moves, i + 1, j).(rec := RIdle, now := moves[i].now)
    ensures Scheduled(cfg, moves, j + 1).sup == Scheduled(cfg, moves, i).sup
  {
    StaleEventWaits(cfg, moves, i, j);
    DetectorLeavesRecoveryAlone(cfg, Scheduled(cfg, moves, i), moves, i + 1, j);
  }

  lemma {:induction false} DetectorLeavesRecoveryAlone(cfg: FdiConfig, w: World, moves: seq<Move>, lo: nat, hi: nat)
    requires hi <= |moves|
    ensures DetectorOnly(cfg, w, moves, lo, hi).sup == w.sup && DetectorOnly(cfg, w, moves, lo, hi).rec == w.rec
    decreases hi
  {
    if hi > lo {
      DetectorLeavesRecoveryAlone(cfg, w, moves, lo, hi - 1);
    }
  }

  // ---- The counters ----

  /** Upper bounds that survive any interleaving of the counter statements. */
  ghost predicate CountersBounded(cfg: FdiConfig, w: World) {
    var c := w.ctx;
    && (c.state.Suspect? ==> c.faultStreak <= FaultsToCondemn(cfg)
                             || w.det.DFaultCounted? || w.det.DFaultTest? || w.det == DWrite(Faulted))
    && (c.state.Suspect? ==> c.recoveryStreak < CleansToClear(cfg) || w.det.DCleanTest? || w.det == DWrite(Healthy))
    && (!c.state.Suspect? ==> c.recoveryStreak == 0 || w.det.DClearFault? || w.det.DClearRecovery?)
    && (w.det == DWrite(Faulted) || w.det.DFaultTest? ==> c.recoveryStreak == 0)
    && (w.det == DWrite(Suspect) ==> c.faultStreak <= 1)
    && (c.state.Validating? ==> c.validationStreak < CleansToReintegrate(cfg)
                                || w.rec.RSetOne? || w.rec.RValidationTest? || w.rec == RWrite(Healthy))
  }

  lemma DetectorStepKeepsBounds(cfg: FdiConfig, w: World, detected: FaultType)
    requires DetectorKnows(w.ctx, w.det) && RecoveryKnows(w.ctx, w.rec) && CountersBounded(cfg, w)
    ensures CountersBounded(cfg, DetectorStep(cfg, w, detected))
  {
  }

  lemma RecoveryStepKeepsBounds(cfg: FdiConfig, w: World, detected: FaultType, now: uint64)
    requires DetectorKnows(w.ctx, w.det) && RecoveryKnows(w.ctx, w.rec) && CountersBounded(cfg, w)
    ensures CountersBounded(cfg, RecoveryStep(cfg, w, detected, now))
  {
  }

  lemma MoveKeepsBounds(cfg: FdiConfig, w: World, m: Move)
    requires DetectorKnows(w.ctx, w.det) && RecoveryKnows(w.ctx, w.rec) && CountersBounded(cfg, w)
    ensures CountersBounded(cfg, StepWorld(cfg, w, m))
  {
    match m {
      case DetectorMove(detected) => DetectorStepKeepsBounds(cfg, w, detected);
      case RecoveryMove(detected, now) => RecoveryStepKeepsBounds(cfg, w, detected, now);
    }
  }

  lemma ScheduledMoveKeepsBounds(cfg: FdiConfig, moves: seq<Move>, k: nat)
    requires k < |moves| && CountersBounded(cfg, Scheduled(cfg, moves, k))
    ensures CountersBounded(cfg, Scheduled(cfg, moves, k + 1))
  {
    ScheduleKeepsOwnership(cfg, moves, k);
    MoveKeepsBounds(cfg, Scheduled(cfg, moves, k), moves[k]);
  }

  lemma {:induction false} ScheduleKeepsBounds(cfg: FdiConfig, moves: seq<Move>, k: nat)
    requires k <= |moves|
    ensures CountersBounded(cfg, Scheduled(cfg, moves, k))
  {
    if k > 0 {
      ScheduleKeepsBounds(cfg, moves, k - 1);
      ScheduledMoveKeepsBounds(cfg, moves, k - 1);
    }
  }

  lemma DetectorIncrementIsExact(cfg: FdiConfig, w: World, detected: FaultType)
    requires DetectorKnows(w.ctx, w.det) && CountersBounded(cfg, w)
    ensures var w' := DetectorStep(cfg, w, detected);
            && (w'.det.DFaultCounted? ==> w'.ctx.faultStreak == w.ctx.faultStreak + 1)
            && (w'.det.DCleanTest? ==> w'.ctx.recoveryStreak == w.ctx.recoveryStreak + 1)
  {
  }

  lemma RecoveryIncrementIsExact(cfg: FdiConfig, w: World, detected: FaultType, now: uint64)
    requires RecoveryKnows(w.ctx, w.rec) && CountersBounded(cfg, w)
    ensures var w' := RecoveryStep(cfg, w, detected, now);
            w'.rec.RValidationTest? ==> w'.ctx.validationStreak == w.ctx.validationStreak + 1
  {
  }

  /** Even with the counter statements racing, no increment ever wraps, for any limits. */
  lemma NoIncrementWraps(cfg: FdiConfig, moves: seq<Move>, k: nat)
    requires k < |moves|
    ensures var w, w' := Scheduled(cfg, moves, k), StepWorld(cfg, Scheduled(cfg, moves, k), moves[k]);
            && (w'.det.DFaultCounted? && moves[k].DetectorMove? ==> w'.ctx.faultStreak == w.ctx.faultStreak + 1)
            && (w'.det.DCleanTest? && moves[k].DetectorMove? ==> w'.ctx.recoveryStreak == w.ctx.recoveryStreak + 1)
            && (w'.rec.RValidationTest? && moves[k].RecoveryMove? ==>
                  w'.ctx.validationStreak == w.ctx.validationStreak + 1)
  {
    ScheduleKeepsOwnership(cfg, moves, k);
    ScheduleKeepsBounds(cfg, moves, k);
    var w := Scheduled(cfg, moves, k);
    if moves[k].DetectorMove? {
      DetectorIncrementIsExact(cfg, w, moves[k].detected);
    } else {
      RecoveryIncrementIsExact(cfg, w, moves[k].detected, moves[k].now);
    }
  }

  // ---- When the call-level invariant survives ----

  /** The detector charges a first fault to a HEALTHY sensor while Recovery, having just made it HEALTHY, is yet
      to clear the old fault streak. */
  ghost predicate Races(w: World, m: Move) {
    m.DetectorMove? && w.rec.RClearFault? && w.det.DSwitch? && w.det.current.Healthy? && !w.det.detected.NoFault?
  }

  ghost predicate RaceFree(cfg: FdiConfig, moves: seq<Move>, k: nat)
    requires k <= |moves|
  {
    forall j :: 0 <= j < k ==> !Races(Scheduled(cfg, moves, j), moves[j])
  }

  /** The three clearing statements after a reintegration. */
  predicate Clearing(rec: RecoveryPc) {
    rec.RClearFault? || rec.RClearRecovery? || rec.RClearValidation?
  }

  ghost predicate FaultStreakSound(cfg: FdiConfig, w: World) {
    var c := w.ctx;
    && (w.rec.RClearFault? ==>
          c.state.Healthy? && (w.det.DIdle? || w.det.DBefore? || w.det.DDetected? || w.det.DSwitch? || w.det.DCheck?))
    && match c.state
       case Healthy => w.rec.RClearFault? || w.det.DClearFault? || c.faultStreak == if w.det.DWrite? then 1 else 0
       case Suspect =>
         if w.det.DFaultCounted? || w.det.DFaultTest? then 2 <= c.faultStreak <= FaultsToCondemn(cfg) + 1
         else if w.det == DWrite(Faulted) then c.faultStreak == FaultsToCondemn(cfg) + 1
         else 1 <= c.faultStreak <= FaultsToCondemn(cfg)
       case _ => c.faultStreak == FaultsToCondemn(cfg) + 1
  }

  ghost predicate RecoveryStreakSound(cfg: FdiConfig, w: World) {
    var c := w.ctx;
    if !c.state.Suspect? then c.recoveryStreak == 0 || w.det.DClearFault? || w.det.DClearRecovery?
    else if w.det.DFaultTest? || w.det == DWrite(Faulted) then c.recoveryStreak == 0
    else w.det.DCleanTest? || w.det == DWrite(Healthy) || c.recoveryStreak < CleansToClear(cfg)
  }

  ghost predicate ValidationStreakSound(cfg: FdiConfig, w: World) {
    var c := w.ctx;
    && (Clearing(w.rec) ==> !OnTrial(c.state))
    && match c.state
       case Probing => w.rec.RClearProbe? || c.validationStreak == 0
       case Validating =>
         || w.rec.RSetOne?
         || (1 <= c.validationStreak <= CleansToReintegrate(cfg)
             && (c.validationStreak < CleansToReintegrate(cfg) || w.rec.RValidationTest? || w.rec == RWrite(Healthy)))
       case Excluded => Clearing(w.rec) || c.validationStreak < CleansToReintegrate(cfg)
       case _ => Clearing(w.rec) || c.validationStreak == 0
  }

  ghost predicate Sound(cfg: FdiConfig, w: World) {
    && DetectorKnows(w.ctx, w.det) && RecoveryKnows(w.ctx, w.rec)
    && FaultStreakSound(cfg, w) && RecoveryStreakSound(cfg, w) && ValidationStreakSound(cfg, w)
  }

  /** When both threads are at rest, soundness is the invariant of whole calls. */
  lemma SoundAtRest(cfg: FdiConfig, w: World)
    requires Sound(cfg, w) && w.det.DIdle? && w.rec.RIdle?
    ensures CounterInvariant(cfg, w.ctx)
  {
  }

  lemma DetectorKeepsFaultStreak(cfg: FdiConfig, w: World, detected: FaultType)
    requires Sound(cfg, w) && !Races(w, DetectorMove(detected))
    ensures FaultStreakSound(cfg, DetectorStep(cfg, w, detected))
  {
  }

  lemma DetectorKeepsOtherStreaks(cfg: FdiConfig, w: World, detected: FaultType)
    requires Sound(cfg, w)
    ensures RecoveryStreakSound(cfg, DetectorStep(cfg, w, detected))
    ensures ValidationStreakSound(cfg, DetectorStep(cfg, w, detected))
  {
  }

  lemma RecoveryKeepsFaultStreak(cfg: FdiConfig, w: World, detected: FaultType, now: uint64)
    requires Sound(cfg, w)
    ensures FaultStreakSound(cfg, RecoveryStep(cfg, w, detected, now))
  {
  }

  lemma RecoveryKeepsOtherStreaks(cfg: FdiConfig, w: World, detected: FaultType, now: uint64)
    requires Sound(cfg, w)
    ensures RecoveryStreakSound(cfg, RecoveryStep(cfg, w, detected, now))
    ensures ValidationStreakSound(cfg, RecoveryStep(cfg, w, detected, now))
  {
  }

  lemma MoveKeepsSound(cfg: FdiConfig, w: World, m: Move)
    requires Sound(cfg, w) && !Races(w, m)
    ensures Sound(cfg, StepWorld(cfg, w, m))
  {
    match m {
      case DetectorMove(detected) =>
        DetectorStepKeepsOwnership(cfg, w, detected);
        DetectorKeepsFaultStreak(cfg, w, detected);
        DetectorKeepsOtherStreaks(cfg, w, detected);
      case RecoveryMove(detected, now) =>
        RecoveryStepKeepsOwnership(cfg, w, detected, now);
        RecoveryKeepsFaultStreak(cfg, w, detected, now);
        RecoveryKeepsOtherStreaks(cfg, w, detected, now);
    }
  }

  lemma ScheduledMoveKeepsSound(cfg: FdiConfig, moves: seq<Move>, k: nat)
    requires k < |moves| && !Races(Scheduled(cfg, moves, k), moves[k])
    ensures Sound(cfg, Scheduled(cfg, moves, k)) ==> Sound(cfg, Scheduled(cfg, moves, k + 1))
  {
    var w := Scheduled(cfg, moves, k);
    if Sound(cfg, w) {
      MoveKeepsSound(cfg, w, moves[k]);
    }
  }

  function Worlds(cfg: FdiConfig, moves: seq<Move>): (ws: seq<World>)
    ensures |ws| == |moves| + 1
    ensures forall k :: 0 <= k <= |moves| ==> ws[k] == Scheduled(cfg, moves, k)
  {
    seq(|moves| + 1, k requires 0 <= k <= |moves| => Scheduled(cfg, moves, k))
  }

  lemma {:induction false} SoundChain(cfg: FdiConfig, ws: seq<World>, k: nat)
    requires k < |ws| && Sound(cfg, ws[0])
    requires forall j :: 0 <= j < k && Sound(cfg, ws[j]) ==> Sound(cfg, ws[j + 1])
    ensures Sound(cfg, ws[k])
    decreases k
  {
    if k > 0 {
      SoundChain(cfg, ws, k - 1);
      var j := k - 1;
      assert Sound(cfg, ws[j]);
    }
  }

  lemma RaceFreeIsSound(cfg: FdiConfig, moves: seq<Move>, k: nat)
    requires k <= |moves| && RaceFree(cfg, moves, k)
    ensures Sound(cfg, Scheduled(cfg, moves, k))
  {
    var ws := Worlds(cfg, moves);
    forall j | 0 <= j < k && Sound(cfg, ws[j])
      ensures Sound(cfg, ws[j + 1])
    {
      ScheduledMoveKeepsSound(cfg, moves, j);
    }
    SoundChain(cfg, ws, k);
  }

  /** In every schedule without that race, whenever both threads are at rest the counters satisfy the invariant
      of whole calls, for all limits. */
  lemma InvariantSurvivesWithoutRace(cfg: FdiConfig, moves: seq<Move>, k: nat)
    requires k <= |moves| && RaceFree(cfg, moves, k)
    ensures var w := Scheduled(cfg, moves, k); w.det.DIdle? && w.rec.RIdle? ==> CounterInvariant(cfg, w.ctx)
  {
    RaceFreeIsSound(cfg, moves, k);
    if Scheduled(cfg, moves, k).det.DIdle? && Scheduled(cfg, moves, k).rec.RIdle? {
      SoundAtRest(cfg, Scheduled(cfg, moves, k));
    }
  }

  /** In particular it suffices that the detector stays away from the three clearing statements. */
  lemma InvariantSurvivesQuietClearing(cfg: FdiConfig, moves: seq<Move>, k: nat)
    requires k <= |moves|
    requires forall j :: 0 <= j < k && moves[j].DetectorMove? ==> !Clearing(Scheduled(cfg, moves, j).rec)
    ensures var w := Scheduled(cfg, moves, k); w.det.DIdle? && w.rec.RIdle? ==> CounterInvariant(cfg, w.ctx)
  {
    InvariantSurvivesWithoutRace(cfg, moves, k);
  }

  // ---- When it does not ----

  /** Both threads brought to rest, Recovery first. */
  function Settled(cfg: FdiConfig, w: World, detected: FaultType): World {
    FinishDetector(cfg, FinishRecovery(cfg, w, detected), detected)
  }

  lemma RecoveryStepKeepsSound(cfg: FdiConfig, w: World, detected: FaultType)
    requires Sound(cfg, w)
    ensures Sound(cfg, RecoveryStep(cfg, w, detected, w.now))
  {
    MoveKeepsSound(cfg, w, RecoveryMove(detected, w.now));
  }

  lemma {:induction false} FinishRecoveryKeepsSound(cfg: FdiConfig, w: World, detected: FaultType)
    requires Sound(cfg, w)
    ensures Sound(cfg, FinishRecovery(cfg, w, detected)) && FinishRecovery(cfg, w, detected).rec.RIdle?
    decreases RecoveryRank(w.rec)
  {
    if !w.rec.RIdle? {
      RecoveryStepKeepsSound(cfg, w, detected);
      FinishRecoveryKeepsSound(cfg, RecoveryStep(cfg, w, detected, w.now), detected);
    }
  }

  lemma {:induction false} FinishDetectorKeepsSound(cfg: FdiConfig, w: World, detected: FaultType)
    requires Sound(cfg, w) && w.rec.RIdle?
    ensures var w' := FinishDetector(cfg, w, detected); Sound(cfg, w') && w'.det.DIdle? && w'.rec.RIdle?
    decreases DetectorRank(w.det)
  {
    if !w.det.DIdle? {
      MoveKeepsSound(cfg, w, DetectorMove(detected));
      FinishDetectorKeepsSound(cfg, DetectorStep(cfg, w, detected), detected);
    }
  }

  /** After the race Recovery's late clearing erases the fault just charged. */
  lemma RaceSettlesWithoutItsFault(cfg: FdiConfig, w: World, m: Move, detected: FaultType)
    requires Sound(cfg, w) && Races(w, m)
    ensures Settled(cfg, StepWorld(cfg, w, m), detected).ctx == Fsm(Suspect, 0, 0, 0)
  {
    var raced := StepWorld(cfg, w, m);
    ClearingFinishes(cfg, raced, detected);
    var cleared := FinishRecovery(cfg, raced, detected);
    DetectorFromWrite(cfg, cleared, detected);
  }

  lemma ClearingFinishes(cfg: FdiConfig, w: World, detected: FaultType)
    requires w.rec.RClearFault?
    ensures var w' := FinishRecovery(cfg, w, detected);
            w'.ctx == Fsm(w.ctx.state, 0, 0, 0) && w'.det == w.det
  {
    var c2 := w.ctx.(faultStreak := 0);
    var c3 := c2.(recoveryStreak := 0);
    var c4 := c3.(validationStreak := 0);
    var end := w.(ctx := c4, rec := RIdle, sup := if c4.state.Healthy? then Pardoned(w.sup) else w.sup);
    assert FinishRecovery(cfg, w.(ctx := c4, rec := RDone), detected) == end;
    assert FinishRecovery(cfg, w.(ctx := c3, rec := RClearValidation), detected) == end;
    assert FinishRecovery(cfg, w.(ctx := c2, rec := RClearRecovery), detected) == end;
  }

  /** The race is exactly what breaks the invariant. Whatever the first `k` race-free moves were, bring both
      threads to rest after move k: the counters satisfy the invariant of whole calls if and only if move k was
      not the race. */
  lemma InvariantBreaksIffRace(cfg: FdiConfig, moves: seq<Move>, k: nat, detected: FaultType)
    requires k < |moves| && RaceFree(cfg, moves, k)
    ensures CounterInvariant(cfg, Settled(cfg, Scheduled(cfg, moves, k + 1), detected).ctx)
            <==> !Races(Scheduled(cfg, moves, k), moves[k])
  {
    var w := Scheduled(cfg, moves, k);
    RaceFreeIsSound(cfg, moves, k);
    if Races(w, moves[k]) {
      RaceSettlesWithoutItsFault(cfg, w, moves[k], detected);
    } else {
      var w' := StepWorld(cfg, w, moves[k]);
      MoveKeepsSound(cfg, w, moves[k]);
      FinishRecoveryKeepsSound(cfg, w', detected);
      FinishDetectorKeepsSound(cfg, FinishRecovery(cfg, w', detected), detected);
      SoundAtRest(cfg, Settled(cfg, w', detected));
    }
  }

  // ---- No configuration rules the race out ----

  ghost predicate ReachableWorld(cfg: FdiConfig, w: World) {
    exists moves, k: nat :: k <= |moves| && Scheduled(cfg, moves, k) == w
  }

  lemma {:induction false} SamePrefix(cfg: FdiConfig, moves: seq<Move>, moves': seq<Move>, k: nat)
    requires k <= |moves| && k <= |moves'| && moves[..k] == moves'[..k]
    ensures Scheduled(cfg, moves', k) == Scheduled(cfg, moves, k)
    decreases k
  {
    if k > 0 {
      assert moves[..k - 1] == moves[..k][..k - 1] == moves'[..k - 1];
      assert moves[k - 1] == moves[..k][k - 1] == moves'[k - 1];
      SamePrefix(cfg, moves, moves', k - 1);
    }
  }

  lemma ReachableNext(cfg: FdiConfig, w: World, m: Move)
    requires ReachableWorld(cfg, w)
    ensures ReachableWorld(cfg, StepWorld(cfg, w, m))
  {
    var moves, k: nat :| k <= |moves| && Scheduled(cfg, moves, k) == w;
    var extended := moves[..k] + [m];
    assert extended[..k] == moves[..k];
    SamePrefix(cfg, moves, extended, k);
    assert Scheduled(cfg, extended, k + 1) == StepWorld(cfg, w, m);
  }

  lemma {:induction false} FinishDetectorReachable(cfg: FdiConfig, w: World, detected: FaultType)
    requires ReachableWorld(cfg, w)
    ensures ReachableWorld(cfg, FinishDetector(cfg, w, detected))
    decreases DetectorRank(w.det)
  {
    if !w.det.DIdle? {
      ReachableNext(cfg, w, DetectorMove(detected));
      FinishDetectorReachable(cfg, DetectorStep(cfg, w, detected), detected);
    }
  }

  lemma {:induction false} FinishRecoveryReachable(cfg: FdiConfig, w: World, detected: FaultType)
    requires ReachableWorld(cfg, w)
    ensures ReachableWorld(cfg, FinishRecovery(cfg, w, detected))
    decreases RecoveryRank(w.rec)
  {
    if !w.rec.RIdle? {
      ReachableNext(cfg, w, RecoveryMove(detected, w.now));
      FinishRecoveryReachable(cfg, RecoveryStep(cfg, w, detected, w.now), detected);
    }
  }

  /** Both threads at rest with this context, at time 0 and with a clean supervisor record. */
  function Rest(c: Fsm): World {
    World(c, DIdle, RIdle, NO_SUP, 0)
  }

  lemma RestEvaluates(cfg: FdiConfig, c: Fsm, detected: FaultType)
    requires ReachableWorld(cfg, Rest(c))
    ensures ReachableWorld(cfg, Rest(Evaluated(cfg, c, detected)))
  {
    SoloDetectorIsOneEvaluation(cfg, Rest(c), detected);
    ReachableNext(cfg, Rest(c), DetectorMove(detected));
    FinishDetectorReachable(cfg, DetectorStep(cfg, Rest(c), detected), detected);
  }

  lemma RestHandles(cfg: FdiConfig, c: Fsm, detected: FaultType)
    requires ReachableWorld(cfg, Rest(c))
    ensures ReachableWorld(cfg, Rest(Recovered(cfg, Node(c, NO_SUP), 0, detected).fsm))
  {
    SoloRecoveryIsOneEvent(cfg, Rest(c), 0, detected);
    ReachableNext(cfg, Rest(c), RecoveryMove(detected, 0));
    FinishRecoveryReachable(cfg, RecoveryStep(cfg, Rest(c), detected, 0), detected);
  }

  lemma SuspectIsCharged(cfg: FdiConfig, faults: uint8)
    requires 1 <= faults <= FaultsToCondemn(cfg)
    ensures Evaluated(cfg, Fsm(Suspect, faults, 0, 0), Stuck)
            == Fsm(if faults < FaultsToCondemn(cfg) then Suspect else Excluded, faults + 1, 0, 0)
    ensures Evaluated(cfg, INIT, Stuck) == Fsm(Suspect, 1, 0, 0)
  {
  }

  lemma {:induction false} RestReachesSuspect(cfg: FdiConfig, faults: uint8)
    requires 1 <= faults <= FaultsToCondemn(cfg)
    ensures ReachableWorld(cfg, Rest(Fsm(Suspect, faults, 0, 0)))
    decreases faults
  {
    if faults == 1 {
      assert Scheduled(cfg, [], 0) == Rest(INIT);
      RestEvaluates(cfg, INIT, Stuck);
      SuspectIsCharged(cfg, 1);
    } else {
      RestReachesSuspect(cfg, faults - 1);
      RestEvaluates(cfg, Fsm(Suspect, faults - 1, 0, 0), Stuck);
      SuspectIsCharged(cfg, faults - 1);
    }
  }

  /** A sensor on trial after the given number of clean results. */
  function Trial(cfg: FdiConfig, cleans: uint8): Fsm
    requires cleans < CleansToReintegrate(cfg)
  {
    Fsm(if cleans == 0 then Probing else Validating, FaultsToCondemn(cfg) + 1, 0, cleans)
  }

  lemma TrialAdvances(cfg: FdiConfig, cleans: uint8)
    requires cleans + 1 < CleansToReintegrate(cfg)
    ensures Recovered(cfg, Node(Trial(cfg, cleans), NO_SUP), 0, NoFault).fsm == Trial(cfg, cleans + 1)
  {
  }

  lemma ExcludedIsProbed(cfg: FdiConfig)
    ensures Recovered(cfg, Node(Fsm(Excluded, FaultsToCondemn(cfg) + 1, 0, 0), NO_SUP), 0, NoFault).fsm == Trial(cfg, 0)
  {
  }

  lemma RestReachesProbing(cfg: FdiConfig)
    ensures ReachableWorld(cfg, Rest(Trial(cfg, 0)))
  {
    var faults := FaultsToCondemn(cfg);
    RestReachesSuspect(cfg, faults);
    RestEvaluates(cfg, Fsm(Suspect, faults, 0, 0), Stuck);
    SuspectIsCharged(cfg, faults);
    RestHandles(cfg, Fsm(Excluded, faults + 1, 0, 0), NoFault);
    ExcludedIsProbed(cfg);
  }

  lemma {:induction false} RestReachesTrial(cfg: FdiConfig, cleans: uint8)
    requires cleans < CleansToReintegrate(cfg)
    ensures ReachableWorld(cfg, Rest(Trial(cfg, cleans)))
    decreases cleans
  {
    if cleans == 0 {
      RestReachesProbing(cfg);
    } else {
      RestReachesTrial(cfg, cleans - 1);
      RestHandles(cfg, Trial(cfg, cleans - 1), NoFault);
      TrialAdvances(cfg, cleans - 1);
    }
  }

  /** The last clean result has made the sensor HEALTHY; the streaks are still those of the trial. */
  function JustReintegrated(cfg: FdiConfig): World {
    Rest(Fsm(Healthy, FaultsToCondemn(cfg) + 1, 0, CleansToReintegrate(cfg))).(rec := RClearFault)
  }

  lemma LastCleanResultReachable(cfg: FdiConfig)
    ensures ReachableWorld(cfg, Rest(LastTrial(cfg)).(rec := RSecond(NoFault)))
  {
    var w, m := Rest(LastTrial(cfg)), RecoveryMove(NoFault, 0);
    RestReachesTrial(cfg, LastTrial(cfg).validationStreak);
    ReachableNext(cfg, w, m);
    ReachableNext(cfg, w.(rec := RSeen(Validating)), m);
    ReachableNext(cfg, w.(rec := RFirst(NoFault)), m);
  }

  /** A trial one clean result short of reintegration. */
  function LastTrial(cfg: FdiConfig): Fsm {
    Trial(cfg, CleansToReintegrate(cfg) - 1)
  }

  lemma LastCleanResultSteps(cfg: FdiConfig)
    ensures var m, last := RecoveryMove(NoFault, 0), Rest(LastTrial(cfg));
            var counted := last.(ctx := LastTrial(cfg).(validationStreak := CleansToReintegrate(cfg)));
            && StepWorld(cfg, last.(rec := RSecond(NoFault)), m) == counted.(rec := RValidationTest)
            && StepWorld(cfg, counted.(rec := RValidationTest), m) == counted.(rec := RWrite(Healthy))
            && StepWorld(cfg, counted.(rec := RWrite(Healthy)), m) == JustReintegrated(cfg)
  {
  }

  lemma ReintegrationReachable(cfg: FdiConfig)
    ensures ReachableWorld(cfg, JustReintegrated(cfg))
  {
    var m := RecoveryMove(NoFault, 0);
    var last := Rest(LastTrial(cfg));
    var counted := last.(ctx := LastTrial(cfg).(validationStreak := CleansToReintegrate(cfg)));
    LastCleanResultReachable(cfg);
    LastCleanResultSteps(cfg);
    ReachableNext(cfg, last.(rec := RSecond(NoFault)), m);
    ReachableNext(cfg, counted.(rec := RValidationTest), m);
    ReachableNext(cfg, counted.(rec := RWrite(Healthy)), m);
  }

  /** Reintegration assigns `state` before it clears the streaks, and no choice of limits keeps an evaluation out
      of the gap: for every configuration a schedule leads up to the race, and from there to rest with a SUSPECT
      sensor whose first fault has been forgotten, a state that whole calls never reach. */
  lemma EveryConfigurationCanRace(cfg: FdiConfig)
    ensures var w := JustReintegrated(cfg).(det := DSwitch(Healthy, Stuck));
            ReachableWorld(cfg, w) && Races(w, DetectorMove(Stuck))
    ensures ReachableWorld(cfg, Rest(Fsm(Suspect, 0, 0, 0))) && !Reachable(cfg, Fsm(Suspect, 0, 0, 0))
  {
    var start := JustReintegrated(cfg);
    var m := DetectorMove(Stuck);
    ReintegrationReachable(cfg);
    ReachableNext(cfg, start, m);
    ReachableNext(cfg, start.(det := DBefore(Healthy)), m);
    ReachableNext(cfg, start.(det := DDetected(Healthy, Stuck)), m);
    var w := start.(det := DSwitch(Healthy, Stuck));
    ReachableNext(cfg, w, m);
    FinishRecoveryReachable(cfg, StepWorld(cfg, w, m), Stuck);
    FinishDetectorReachable(cfg, FinishRecovery(cfg, StepWorld(cfg, w, m), Stuck), Stuck);
    RaceRests(cfg);
    ReachableIffCounters(cfg, Fsm(Suspect, 0, 0, 0));
  }

  lemma RaceRests(cfg: FdiConfig)
    ensures Settled(cfg, StepWorld(cfg, JustReintegrated(cfg).(det := DSwitch(Healthy, Stuck)), DetectorMove(Stuck)), Stuck)
            == Rest(Fsm(Suspect, 0, 0, 0))
  {
    var raced := StepWorld(cfg, JustReintegrated(cfg).(det := DSwitch(Healthy, Stuck)), DetectorMove(Stuck));
    var c2 := raced.ctx.(faultStreak := 0);
    var end := raced.(ctx := Fsm(Healthy, 0, 0, 0), rec := RIdle);
    assert FinishRecovery(cfg, end.(rec := RDone), Stuck) == end;
    assert FinishRecovery(cfg, raced.(ctx := c2, rec := RClearValidation), Stuck) == end;
    assert FinishRecovery(cfg, raced.(ctx := c2, rec := RClearRecovery), Stuck) == end;
    DetectorFromWrite(cfg, end, Stuck);
  }
}
