/** A dead sensor under the interleaved threads: how many DELAYED verdicts it can survive. */
module SilentSensor {
  import opened SensorTypes
  import opened SensorBuffers
  import opened Detection
  import opened FaultDetector
  import opened DetectorTask
  import opened RecoveryTask
  import opened Interleaving

  // ---- Counting ----

  /** Every verdict from here on, of either thread, is DELAYED. */
  ghost predicate AllDelayed(moves: seq<Move>, k: nat)
    requires k <= |moves|
  {
    forall j :: 0 <= j < k ==> moves[j].detected.Delayed?
  }

  /** The verdicts the detector has taken among the first `k` moves from `w`. */
  function Verdicts(cfg: FdiConfig, w: World, moves: seq<Move>, k: nat): nat
    requires k <= |moves|
  {
    if k == 0 then 0
    else Verdicts(cfg, w, moves, k - 1)
         + if moves[k - 1].DetectorMove? && Continued(cfg, w, moves, k - 1).det.DBefore? then 1 else 0
  }

  /** The verdicts among them that have been charged to the sensor. */
  function Charges(cfg: FdiConfig, w: World, moves: seq<Move>, k: nat): nat
    requires k <= |moves|
  {
    if k == 0 then 0
    else Charges(cfg, w, moves, k - 1) + if Charging(Continued(cfg, w, moves, k - 1), moves[k - 1]) then 1 else 0
  }

  /** The charges among them that Recovery is about to erase. */
  function Exposed(cfg: FdiConfig, w: World, moves: seq<Move>, k: nat): nat
    requires k <= |moves|
  {
    if k == 0 then 0
    else
      var before := Continued(cfg, w, moves, k - 1);
      Exposed(cfg, w, moves, k - 1) + if Charging(before, moves[k - 1]) && before.rec.RClearFault? then 1 else 0
  }

  predicate Charging(w: World, m: Move) {
    m.DetectorMove? && w.det.DSwitch?
  }

  /** Definitive faults that take a HEALTHY sensor to isolation: L, two if L is less. */
  function FaultsToIsolate(cfg: FdiConfig): int {
    Max(cfg.faultConfirmLimit, 2)
  }

  // ---- What the charges amount to ----

  /** Recovery holds a clean result that may still reintegrate the sensor. */
  predicate CleanAhead(rec: RecoveryPc) {
    rec == RFirst(NoFault) || rec == RSecond(NoFault) || rec.RValidationTest? || rec == RWrite(Healthy)
  }

  /** The detector holds no verdict but DELAYED. */
  predicate HoldsOnlyDelays(det: DetectorPc) {
    match det
    case DDetected(_, d) => d.Delayed?
    case DSwitch(_, d) => d.Delayed?
    case DCleanTest | DClearFault | DClearRecovery => false
    case DWrite(next) => !next.Healthy?
    case _ => true
  }

  /** The fault streak has been compared with the limit since it was last counted up. */
  predicate Compared(det: DetectorPc) {
    !det.DFaultCounted? && !det.DFaultTest? && det != DWrite(Faulted)
  }

  ghost predicate Known(cfg: FdiConfig, w: World) {
    DetectorKnows(w.ctx, w.det) && RecoveryKnows(w.ctx, w.rec) && CountersBounded(cfg, w)
  }

  /** `c` charges have been made, `e` of them exposed: a usable sensor's streak holds all the others. */
  ghost predicate Tally(cfg: FdiConfig, w: World, c: nat, e: nat) {
    var fs := w.ctx.faultStreak;
    && HoldsOnlyDelays(w.det)
    && e <= c && e <= FaultsToIsolate(cfg)
    && (CleanAhead(w.rec) ==> c == 0)
    && (w.rec.RClearFault? ==> e == c && (Usable(w.ctx.state) && c > 0 ==> c <= fs))
    && (w.ctx.state.Healthy? ==> c == 0 || (w.det == DWrite(Suspect) && c == 1 && c <= fs + e))
    && (w.ctx.state.Suspect? ==>
          && c <= fs + e && fs <= FaultsToIsolate(cfg)
          && (Compared(w.det) ==> c <= 1 || fs < cfg.faultConfirmLimit))
  }

  lemma DetectorKeepsTally(cfg: FdiConfig, w: World, c: nat, e: nat)
    requires Known(cfg, w) && Tally(cfg, w, c, e)
    ensures var m := DetectorMove(Delayed);
            Tally(cfg, DetectorStep(cfg, w, Delayed),
                  c + (if Charging(w, m) then 1 else 0),
                  e + (if Charging(w, m) && w.rec.RClearFault? then 1 else 0))
  {
  }

  lemma RecoveryKeepsTally(cfg: FdiConfig, w: World, now: uint64, c: nat, e: nat)
    requires Known(cfg, w) && Tally(cfg, w, c, e)
    ensures Tally(cfg, RecoveryStep(cfg, w, Delayed, now), c, e)
  {
  }

  lemma ReachableIsKnown(cfg: FdiConfig, w: World)
    requires ReachableWorld(cfg, w)
    ensures Known(cfg, w)
  {
    var moves, k: nat :| k <= |moves| && Scheduled(cfg, moves, k) == w;
    ScheduleKeepsOwnership(cfg, moves, k);
    ScheduleKeepsBounds(cfg, moves, k);
  }

  lemma {:induction false} ContinuedReachable(cfg: FdiConfig, w: World, moves: seq<Move>, k: nat)
    requires k <= |moves| && ReachableWorld(cfg, w)
    ensures ReachableWorld(cfg, Continued(cfg, w, moves, k))
  {
    if k > 0 {
      ContinuedReachable(cfg, w, moves, k - 1);
      ReachableNext(cfg, Continued(cfg, w, moves, k - 1), moves[k - 1]);
    }
  }

  lemma MoveKeepsTally(cfg: FdiConfig, w: World, m: Move, c: nat, e: nat)
    requires ReachableWorld(cfg, w) && Tally(cfg, w, c, e) && m.detected.Delayed?
    ensures Tally(cfg, StepWorld(cfg, w, m),
                  c + (if Charging(w, m) then 1 else 0),
                  e + (if Charging(w, m) && w.rec.RClearFault? then 1 else 0))
  {
    ReachableIsKnown(cfg, w);
    match m {
      case DetectorMove(_) => DetectorKeepsTally(cfg, w, c, e);
      case RecoveryMove(_, now) => RecoveryKeepsTally(cfg, w, now, c, e);
    }
  }

  /** The tally of a continuation after its first `k` moves. */
  ghost predicate TallyAt(cfg: FdiConfig, w: World, moves: seq<Move>, k: nat)
    requires k <= |moves|
  {
    Tally(cfg, Continued(cfg, w, moves, k), Charges(cfg, w, moves, k), Exposed(cfg, w, moves, k))
  }

  lemma TallyStep(cfg: FdiConfig, w: World, moves: seq<Move>, k: nat)
    requires k < |moves| && ReachableWorld(cfg, w) && moves[k].detected.Delayed? && TallyAt(cfg, w, moves, k)
    ensures TallyAt(cfg, w, moves, k + 1)
  {
    ContinuedReachable(cfg, w, moves, k);
    MoveKeepsTally(cfg, Continued(cfg, w, moves, k), moves[k], Charges(cfg, w, moves, k), Exposed(cfg, w, moves, k));
  }

  lemma TallyStarts(cfg: FdiConfig, w: World, moves: seq<Move>)
    requires ReachableWorld(cfg, w) && w.det.DIdle?
    ensures TallyAt(cfg, w, moves, 0)
  {
    ReachableIsKnown(cfg, w);
  }

  lemma {:induction false} TallyHolds(cfg: FdiConfig, w: World, moves: seq<Move>, k: nat)
    requires k <= |moves| && ReachableWorld(cfg, w) && w.det.DIdle? && AllDelayed(moves, k)
    ensures TallyAt(cfg, w, moves, k)
    decreases k
  {
    if k == 0 {
      TallyStarts(cfg, w, moves);
    } else {
      TallyHolds(cfg, w, moves, k - 1);
      TallyStep(cfg, w, moves, k - 1);
    }
  }

  // ---- Every verdict on a usable sensor is charged ----

  ghost predicate AllCharged(w: World, v: nat, c: nat) {
    && HoldsOnlyDelays(w.det) && !CleanAhead(w.rec)
    && (Usable(w.ctx.state) ==>
          && v == c + (if w.det.DDetected? || w.det.DSwitch? then 1 else 0)
          && (w.det.DBefore? || w.det.DDetected? ==> Usable(w.det.before)))
  }

  lemma MoveKeepsCharged(cfg: FdiConfig, w: World, m: Move, v: nat, c: nat)
    requires Known(cfg, w) && AllCharged(w, v, c) && m.detected.Delayed?
    ensures AllCharged(StepWorld(cfg, w, m),
                       v + (if m.DetectorMove? && w.det.DBefore? then 1 else 0),
                       c + (if Charging(w, m) then 1 else 0))
    ensures !Usable(w.ctx.state) ==> !Usable(StepWorld(cfg, w, m).ctx.state)
  {
  }

  lemma {:induction false} ChargedHolds(cfg: FdiConfig, w: World, moves: seq<Move>, k: nat)
    requires k <= |moves| && ReachableWorld(cfg, w) && w.det.DIdle? && !CleanAhead(w.rec) && AllDelayed(moves, k)
    ensures AllCharged(Continued(cfg, w, moves, k), Verdicts(cfg, w, moves, k), Charges(cfg, w, moves, k))
    ensures !Usable(w.ctx.state) ==> !Usable(Continued(cfg, w, moves, k).ctx.state)
  {
    if k > 0 {
      ChargedHolds(cfg, w, moves, k - 1);
      ContinuedReachable(cfg, w, moves, k - 1);
      ReachableIsKnown(cfg, Continued(cfg, w, moves, k - 1));
      MoveKeepsCharged(cfg, Continued(cfg, w, moves, k - 1), moves[k - 1],
                       Verdicts(cfg, w, moves, k - 1), Charges(cfg, w, moves, k - 1));
    }
  }

  // ---- The bounds ----

  /** The detector does not move at step j if Recovery is about to clear the fault streak. */
  ghost predicate KeepsOut(cfg: FdiConfig, w: World, moves: seq<Move>, j: nat)
    requires j < |moves|
  {
    moves[j].DetectorMove? ==> !Continued(cfg, w, moves, j).rec.RClearFault?
  }

  lemma NotExposedAt(cfg: FdiConfig, w: World, moves: seq<Move>, k: nat)
    requires k < |moves| && KeepsOut(cfg, w, moves, k)
    ensures Exposed(cfg, w, moves, k + 1) == Exposed(cfg, w, moves, k)
  {
  }

  function ExposedCounts(cfg: FdiConfig, w: World, moves: seq<Move>): (xs: seq<nat>)
    ensures |xs| == |moves| + 1
    ensures forall k :: 0 <= k <= |moves| ==> xs[k] == Exposed(cfg, w, moves, k)
  {
    seq(|moves| + 1, k requires 0 <= k <= |moves| => Exposed(cfg, w, moves, k))
  }

  lemma {:induction false} ConstantChain(xs: seq<nat>, k: nat)
    requires k < |xs| && forall j :: 0 <= j < k ==> xs[j + 1] == xs[j]
    ensures xs[k] == xs[0]
    decreases k
  {
    if k > 0 {
      ConstantChain(xs, k - 1);
      var j := k - 1;
      assert xs[j + 1] == xs[j];
    }
  }

  lemma NothingExposed(cfg: FdiConfig, w: World, moves: seq<Move>, k: nat)
    requires k <= |moves| && forall j :: 0 <= j < k ==> KeepsOut(cfg, w, moves, j)
    ensures Exposed(cfg, w, moves, k) == 0
  {
    var xs := ExposedCounts(cfg, w, moves);
    forall j | 0 <= j < k
      ensures xs[j + 1] == xs[j]
    {
      NotExposedAt(cfg, w, moves, j);
    }
    ConstantChain(xs, k);
  }

  /** `v` verdicts can be survived with `e` exposed charges: no more than the larger of one and L-1+e, of which e
      is at most max(L, 2). */
  ghost predicate Survivable(cfg: FdiConfig, v: nat, e: nat) {
    v <= Max(1, cfg.faultConfirmLimit - 1 + e) && e <= FaultsToIsolate(cfg)
  }

  lemma Survival(cfg: FdiConfig, end: World, v: nat, c: nat, e: nat)
    requires Tally(cfg, end, c, e) && AllCharged(end, v, c) && end.det.DIdle? && Usable(end.ctx.state)
    ensures Survivable(cfg, v, e)
  {
  }

  lemma SurvivalBounds(cfg: FdiConfig, v: nat, e: nat)
    requires Survivable(cfg, v, e)
    ensures v < FaultsToIsolate(cfg) + cfg.faultConfirmLimit
    ensures e == 0 ==> v < FaultsToIsolate(cfg)
  {
  }

  lemma SurvivalAt(cfg: FdiConfig, w: World, moves: seq<Move>, k: nat)
    requires k <= |moves| && TallyAt(cfg, w, moves, k)
    requires AllCharged(Continued(cfg, w, moves, k), Verdicts(cfg, w, moves, k), Charges(cfg, w, moves, k))
    requires Continued(cfg, w, moves, k).det.DIdle? && Usable(Continued(cfg, w, moves, k).ctx.state)
    ensures Survivable(cfg, Verdicts(cfg, w, moves, k), Exposed(cfg, w, moves, k))
  {
    Survival(cfg, Continued(cfg, w, moves, k), Verdicts(cfg, w, moves, k), Charges(cfg, w, moves, k),
             Exposed(cfg, w, moves, k));
  }

  /** In every schedule: a sensor that the detector leaves usable at the end of an evaluation has survived no more
      verdicts than that. */
  lemma SurvivedVerdicts(cfg: FdiConfig, w: World, moves: seq<Move>, k: nat)
    requires k <= |moves| && ReachableWorld(cfg, w) && w.det.DIdle? && !CleanAhead(w.rec) && AllDelayed(moves, k)
    requires Continued(cfg, w, moves, k).det.DIdle? && Usable(Continued(cfg, w, moves, k).ctx.state)
    ensures Survivable(cfg, Verdicts(cfg, w, moves, k), Exposed(cfg, w, moves, k))
  {
    TallyHolds(cfg, w, moves, k);
    ChargedHolds(cfg, w, moves, k);
    SurvivalAt(cfg, w, moves, k);
  }

  /** The verdicts on an unchanging history, each taken later than t0 plus the delay timeout. */
  ghost predicate VerdictsOnSilence(cfg: FdiConfig, moves: seq<Move>, k: nat, log: Log, reds: seq<Option<Log>>,
                                    times: seq<uint64>, t0: uint64)
    requires k <= |moves|
  {
    && |reds| == |times| == |moves| && (log == [] || log[|log| - 1].timestampUs <= t0)
    && forall j :: 0 <= j < k ==>
                     times[j] > t0 + cfg.delayTimeoutUs && moves[j].detected == Detect(cfg, log, reds[j], times[j])
  }

  /** Dead sensor under the interleaved threads. Let a history be silent from a moment on at which the detector is
      idle and Recovery holds no earlier clean result. In every schedule the sensor is out of HEALTHY/SUSPECT once
      max(L, 2) + L verdicts have been taken, and once max(L, 2) have if the detector never moves while Recovery
      is about to clear the fault streak; and a sensor that is out stays out. */
  lemma DeadSensorInEverySchedule(cfg: FdiConfig, w: World, moves: seq<Move>, k: nat, log: Log,
                                  reds: seq<Option<Log>>, times: seq<uint64>, t0: uint64)
    requires k <= |moves| && ReachableWorld(cfg, w) && w.det.DIdle? && !CleanAhead(w.rec)
    requires VerdictsOnSilence(cfg, moves, k, log, reds, times, t0)
    ensures OutAfter(cfg, w, moves, k, FaultsToIsolate(cfg) + cfg.faultConfirmLimit)
    ensures (forall j :: 0 <= j < k ==> KeepsOut(cfg, w, moves, j)) ==> OutAfter(cfg, w, moves, k, FaultsToIsolate(cfg))
    ensures !Usable(w.ctx.state) ==> !Usable(Continued(cfg, w, moves, k).ctx.state)
  {
    AllVerdictsDelayed(cfg, moves, k, log, reds, times, t0);
    ChargedHolds(cfg, w, moves, k);
    OutInEverySchedule(cfg, w, moves, k);
    if forall j :: 0 <= j < k ==> KeepsOut(cfg, w, moves, j) {
      OutInQuietSchedule(cfg, w, moves, k);
    }
  }

  /** If the detector is idle after `k` moves and has taken at least `n` verdicts, the sensor is out. */
  ghost predicate OutAfter(cfg: FdiConfig, w: World, moves: seq<Move>, k: nat, n: int)
    requires k <= |moves|
  {
    Continued(cfg, w, moves, k).det.DIdle? && Verdicts(cfg, w, moves, k) >= n ==>
      !Usable(Continued(cfg, w, moves, k).ctx.state)
  }

  lemma OutInEverySchedule(cfg: FdiConfig, w: World, moves: seq<Move>, k: nat)
    requires k <= |moves| && ReachableWorld(cfg, w) && w.det.DIdle? && !CleanAhead(w.rec) && AllDelayed(moves, k)
    ensures OutAfter(cfg, w, moves, k, FaultsToIsolate(cfg) + cfg.faultConfirmLimit)
  {
    if Continued(cfg, w, moves, k).det.DIdle? && Usable(Continued(cfg, w, moves, k).ctx.state) {
      SurvivedVerdicts(cfg, w, moves, k);
      SurvivalBounds(cfg, Verdicts(cfg, w, moves, k), Exposed(cfg, w, moves, k));
    }
  }

  lemma OutInQuietSchedule(cfg: FdiConfig, w: World, moves: seq<Move>, k: nat)
    requires k <= |moves| && ReachableWorld(cfg, w) && w.det.DIdle? && !CleanAhead(w.rec) && AllDelayed(moves, k)
    requires forall j :: 0 <= j < k ==> KeepsOut(cfg, w, moves, j)
    ensures OutAfter(cfg, w, moves, k, FaultsToIsolate(cfg))
  {
    NothingExposed(cfg, w, moves, k);
    if Continued(cfg, w, moves, k).det.DIdle? && Usable(Continued(cfg, w, moves, k).ctx.state) {
      SurvivedVerdicts(cfg, w, moves, k);
      SurvivalBounds(cfg, Verdicts(cfg, w, moves, k), Exposed(cfg, w, moves, k));
    }
  }

  lemma AllVerdictsDelayed(cfg: FdiConfig, moves: seq<Move>, k: nat, log: Log, reds: seq<Option<Log>>,
                           times: seq<uint64>, t0: uint64)
    requires k <= |moves| && VerdictsOnSilence(cfg, moves, k, log, reds, times, t0)
    ensures AllDelayed(moves, k)
  {
  }

  // ---- The general bound is attained ----

  /** From `w`, moves with DELAYED verdicts only lead to `end`, the detector taking `v` verdicts on the way. */
  ghost predicate Leads(cfg: FdiConfig, w: World, end: World, v: nat) {
    exists moves :: Route(cfg, w, end, v, moves)
  }

  ghost predicate Route(cfg: FdiConfig, w: World, end: World, v: nat, moves: seq<Move>) {
    && AllDelayed(moves, |moves|)
    && Continued(cfg, w, moves, |moves|) == end
    && Verdicts(cfg, w, moves, |moves|) == v
  }

  lemma {:induction false} LongerRoute(cfg: FdiConfig, w: World, moves: seq<Move>, m: Move, k: nat)
    requires k <= |moves|
    ensures Continued(cfg, w, moves + [m], k) == Continued(cfg, w, moves, k)
    ensures Verdicts(cfg, w, moves + [m], k) == Verdicts(cfg, w, moves, k)
  {
    if k > 0 {
      LongerRoute(cfg, w, moves, m, k - 1);
    }
  }

  lemma LeadsNext(cfg: FdiConfig, w: World, end: World, v: nat, m: Move)
    requires Leads(cfg, w, end, v) && m.detected.Delayed?
    ensures Leads(cfg, w, StepWorld(cfg, end, m), v + if m.DetectorMove? && end.det.DBefore? then 1 else 0)
  {
    var moves :| Route(cfg, w, end, v, moves);
    LongerRoute(cfg, w, moves, m, |moves|);
    assert Route(cfg, w, StepWorld(cfg, end, m), v + (if m.DetectorMove? && end.det.DBefore? then 1 else 0), moves + [m]);
  }

  lemma {:induction false} LeadsToDetectorEnd(cfg: FdiConfig, w: World, end: World, v: nat)
    requires Leads(cfg, w, end, v) && !end.det.DBefore?
    ensures Leads(cfg, w, FinishDetector(cfg, end, Delayed), v)
    decreases DetectorRank(end.det)
  {
    if !end.det.DIdle? {
      LeadsNext(cfg, w, end, v, DetectorMove(Delayed));
      LeadsToDetectorEnd(cfg, w, DetectorStep(cfg, end, Delayed), v);
    }
  }

  lemma {:induction false} LeadsToRecoveryEnd(cfg: FdiConfig, w: World, end: World, v: nat)
    requires Leads(cfg, w, end, v)
    ensures Leads(cfg, w, FinishRecovery(cfg, end, Delayed), v)
    decreases RecoveryRank(end.rec)
  {
    if !end.rec.RIdle? {
      LeadsNext(cfg, w, end, v, RecoveryMove(Delayed, end.now));
      LeadsToRecoveryEnd(cfg, w, RecoveryStep(cfg, end, Delayed, end.now), v);
    }
  }

  /** Up to and including the verdict of the next evaluation. */
  lemma LeadsToVerdict(cfg: FdiConfig, w: World, end: World, v: nat)
    requires Leads(cfg, w, end, v) && end.det.DIdle?
    ensures Leads(cfg, w, end.(det := DDetected(end.ctx.state, Delayed)), v + 1)
  {
    LeadsNext(cfg, w, end, v, DetectorMove(Delayed));
    LeadsNext(cfg, w, end.(det := DBefore(end.ctx.state)), v, DetectorMove(Delayed));
  }

  lemma LeadsToNextEvaluation(cfg: FdiConfig, w: World, end: World, v: nat)
    requires Leads(cfg, w, end, v) && end.det.DIdle?
    ensures Leads(cfg, w, end.(ctx := Evaluated(cfg, end.ctx, Delayed)), v + 1)
  {
    var judged := end.(det := DDetected(end.ctx.state, Delayed));
    LeadsToVerdict(cfg, w, end, v);
    LeadsToDetectorEnd(cfg, w, judged, v + 1);
    SoloDetectorIsOneEvaluation(cfg, end, Delayed);
    assert DetectorStep(cfg, end.(det := DBefore(end.ctx.state)), Delayed) == judged;
    assert FinishDetector(cfg, end.(det := DBefore(end.ctx.state)), Delayed) == FinishDetector(cfg, judged, Delayed);
  }

  /** Recovery stands before the clearing of the fault streak while the detector charges `faults` faults. */
  function Stalled(cfg: FdiConfig, faults: uint8): World {
    JustReintegrated(cfg).(ctx := Fsm(Suspect, faults, 0, CleansToReintegrate(cfg)))
  }

  lemma StalledIsCharged(cfg: FdiConfig, faults: uint8)
    requires faults < FaultsToCondemn(cfg)
    ensures faults == 0 ==> Evaluated(cfg, JustReintegrated(cfg).ctx, Delayed) == Stalled(cfg, 1).ctx
    ensures faults > 0 ==> Evaluated(cfg, Stalled(cfg, faults).ctx, Delayed) == Stalled(cfg, faults + 1).ctx
  {
  }

  lemma LeadsToFirstStalled(cfg: FdiConfig)
    ensures Leads(cfg, JustReintegrated(cfg), Stalled(cfg, 1), 1)
  {
    var start := JustReintegrated(cfg);
    assert Route(cfg, start, start, 0, []);
    StalledIsCharged(cfg, 0);
    LeadsToNextEvaluation(cfg, start, start, 0);
  }

  lemma {:induction false} LeadsToStalled(cfg: FdiConfig, faults: uint8)
    requires 1 <= faults <= FaultsToCondemn(cfg)
    ensures Leads(cfg, JustReintegrated(cfg), Stalled(cfg, faults), faults)
    decreases faults
  {
    if faults == 1 {
      LeadsToFirstStalled(cfg);
    } else {
      LeadsToStalled(cfg, faults - 1);
      StalledIsCharged(cfg, faults - 1);
      LeadsToNextEvaluation(cfg, JustReintegrated(cfg), Stalled(cfg, faults - 1), faults - 1);
    }
  }

  /** A SUSPECT sensor with one more verdict counted but not yet compared with the limit. */
  function CountedOnce(w: World): World {
    w.(ctx := w.ctx.(faultStreak := Inc8(w.ctx.faultStreak)), det := DFaultCounted)
  }

  lemma CountingSteps(cfg: FdiConfig, w: World)
    requires w.ctx.state.Suspect?
    ensures StepWorld(cfg, w.(det := DDetected(Suspect, Delayed)), DetectorMove(Delayed)) == w.(det := DSwitch(Suspect, Delayed))
    ensures StepWorld(cfg, w.(det := DSwitch(Suspect, Delayed)), DetectorMove(Delayed)) == CountedOnce(w)
  {
  }

  lemma LeadsToNextCount(cfg: FdiConfig, start: World, w: World, v: nat)
    requires Leads(cfg, start, w, v) && w.det.DIdle? && w.ctx.state.Suspect?
    ensures Leads(cfg, start, CountedOnce(w), v + 1)
  {
    LeadsToVerdict(cfg, start, w, v);
    LeadsToCountedOnce(cfg, start, w, v + 1);
  }

  lemma LeadsToCountedOnce(cfg: FdiConfig, start: World, w: World, v: nat)
    requires Leads(cfg, start, w.(det := DDetected(Suspect, Delayed)), v) && w.ctx.state.Suspect?
    ensures Leads(cfg, start, CountedOnce(w), v)
  {
    CountingSteps(cfg, w);
    LeadsNext(cfg, start, w.(det := DDetected(Suspect, Delayed)), v, DetectorMove(Delayed));
    LeadsNext(cfg, start, w.(det := DSwitch(Suspect, Delayed)), v, DetectorMove(Delayed));
  }

  lemma LeadsToCounted(cfg: FdiConfig)
    ensures Leads(cfg, JustReintegrated(cfg), CountedOnce(Stalled(cfg, FaultsToCondemn(cfg))), FaultsToIsolate(cfg))
  {
    LeadsToStalled(cfg, FaultsToCondemn(cfg));
    LeadsToNextCount(cfg, JustReintegrated(cfg), Stalled(cfg, FaultsToCondemn(cfg)), FaultsToCondemn(cfg));
  }

  /** The clearing then erases everything that has been charged. */
  lemma ClearingErases(cfg: FdiConfig)
    ensures FinishRecovery(cfg, CountedOnce(Stalled(cfg, FaultsToCondemn(cfg))), Delayed)
            == Rest(Fsm(Suspect, 0, 0, 0)).(det := DFaultCounted)
  {
    var w := CountedOnce(Stalled(cfg, FaultsToCondemn(cfg)));
    var c2 := w.ctx.(faultStreak := 0);
    var end := Rest(Fsm(Suspect, 0, 0, 0)).(det := DFaultCounted);
    assert FinishRecovery(cfg, end.(rec := RDone), Delayed) == end;
    assert FinishRecovery(cfg, w.(ctx := c2, rec := RClearValidation), Delayed) == end;
    assert FinishRecovery(cfg, w.(ctx := c2, rec := RClearRecovery), Delayed) == end;
  }

  lemma CountedButErased(cfg: FdiConfig)
    requires cfg.faultConfirmLimit >= 1
    ensures FinishDetector(cfg, Rest(Fsm(Suspect, 0, 0, 0)).(det := DFaultCounted), Delayed) == Rest(Fsm(Suspect, 0, 0, 0))
  {
    var w := Rest(Fsm(Suspect, 0, 0, 0));
    DetectorFromFaultTest(cfg, w.(det := DFaultTest), Delayed);
    assert DetectorStep(cfg, w.(det := DFaultCounted), Delayed) == w.(det := DFaultTest);
  }

  lemma LeadsToBothEnds(cfg: FdiConfig, start: World, one: World, two: World, three: World, v: nat)
    requires Leads(cfg, start, one, v) && !two.det.DBefore?
    requires FinishRecovery(cfg, one, Delayed) == two && FinishDetector(cfg, two, Delayed) == three
    ensures Leads(cfg, start, three, v)
  {
    LeadsToRecoveryEnd(cfg, start, one, v);
    LeadsToDetectorEnd(cfg, start, two, v);
  }

  lemma LeadsToErasure(cfg: FdiConfig)
    requires cfg.faultConfirmLimit >= 1
    ensures Leads(cfg, JustReintegrated(cfg), Rest(Fsm(Suspect, 0, 0, 0)), FaultsToIsolate(cfg))
  {
    LeadsToCounted(cfg);
    ClearingErases(cfg);
    CountedButErased(cfg);
    LeadsToBothEnds(cfg, JustReintegrated(cfg), CountedOnce(Stalled(cfg, FaultsToCondemn(cfg))),
                    Rest(Fsm(Suspect, 0, 0, 0)).(det := DFaultCounted), Rest(Fsm(Suspect, 0, 0, 0)), FaultsToIsolate(cfg));
  }

  lemma {:induction false} LeadsToErased(cfg: FdiConfig, faults: uint8)
    requires faults < cfg.faultConfirmLimit
    ensures Leads(cfg, JustReintegrated(cfg), Rest(Fsm(Suspect, faults, 0, 0)), FaultsToIsolate(cfg) + faults)
    decreases faults
  {
    if faults == 0 {
      LeadsToErasure(cfg);
    } else {
      LeadsToErased(cfg, faults - 1);
      ErasedIsCharged(cfg, faults - 1);
      LeadsToNextEvaluation(cfg, JustReintegrated(cfg), Rest(Fsm(Suspect, faults - 1, 0, 0)),
                            FaultsToIsolate(cfg) + faults - 1);
    }
  }

  lemma ErasedIsCharged(cfg: FdiConfig, faults: uint8)
    requires faults + 1 < cfg.faultConfirmLimit
    ensures Evaluated(cfg, Fsm(Suspect, faults, 0, 0), Delayed) == Fsm(Suspect, faults + 1, 0, 0)
  {
  }

  /** The general bound cannot be improved for any L of at least one, and the bound of whole calls, max(L, 2), does
      not hold: right after a reintegration a dead sensor can survive max(L, 2) + L - 1 DELAYED verdicts and be
      SUSPECT with both threads at rest. */
  lemma SilenceBoundIsAttained(cfg: FdiConfig)
    requires cfg.faultConfirmLimit >= 1
    ensures var w := JustReintegrated(cfg); ReachableWorld(cfg, w) && w.det.DIdle? && !CleanAhead(w.rec)
    ensures Leads(cfg, JustReintegrated(cfg), Rest(Fsm(Suspect, cfg.faultConfirmLimit - 1, 0, 0)),
                  FaultsToIsolate(cfg) + cfg.faultConfirmLimit - 1)
  {
    ReintegrationReachable(cfg);
    LeadsToErased(cfg, cfg.faultConfirmLimit - 1);
  }
}
