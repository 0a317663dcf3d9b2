/** The per-sensor debounced state machine: its calls, and exactly which states they can reach. */
module FaultDetector {
  import opened SensorTypes

  // ---- Specification: the calls as functions on a state and its three counters ----

  datatype Fsm = Fsm(state: SensorState, faultStreak: uint8, recoveryStreak: uint8, validationStreak: uint8)

  const INIT := Fsm(Healthy, 0, 0, 0)

  function Update(cfg: FdiConfig, s: Fsm, detected: FaultType): Fsm {
    match s.state
    case Healthy =>
      if detected.NoFault? then s else s.(state := Suspect, faultStreak := 1)
    case Suspect =>
      if detected.NoFault? then
        var clean := Inc8(s.recoveryStreak);
        if clean >= cfg.recoveryConfirmLimit then s.(state := Healthy, faultStreak := 0, recoveryStreak := 0)
        else s.(recoveryStreak := clean)
      else if detected.Contradictory? then
        s.(recoveryStreak := 0)
      else
        var faults := Inc8(s.faultStreak);
        s.(state := if faults >= cfg.faultConfirmLimit then Faulted else Suspect,
           faultStreak := faults, recoveryStreak := 0)
    case _ => s
  }

  function Isolated(s: Fsm): Fsm {
    if s.state.Faulted? then s.(state := Excluded) else s
  }

  function ProbeStarted(s: Fsm): Fsm {
    if s.state.Excluded? then s.(state := Probing, validationStreak := 0) else s
  }

  function ProbeEvaluated(cfg: FdiConfig, s: Fsm, detected: FaultType): Fsm {
    match s.state
    case Probing =>
      if detected.NoFault? then s.(state := Validating, validationStreak := 1) else s.(state := Excluded)
    case Validating =>
      if detected.NoFault? then
        var clean := Inc8(s.validationStreak);
        if clean >= cfg.recoveryConfirmLimit then INIT else s.(validationStreak := clean)
      else s.(state := Excluded)
    case _ => s
  }

  // ---- The context and its calls ----

  class FdiContext {
    const id: SensorId
    const redundantId: SensorId
    const cfg: FdiConfig
    var state: SensorState
    var lastFault: FaultType
    var faultStreak: uint8
    var recoveryStreak: uint8
    var validationStreak: uint8

    ghost function Core(): Fsm
      reads this
    {
      Fsm(state, faultStreak, recoveryStreak, validationStreak)
    }

    constructor (id: SensorId, cfg: FdiConfig)
      ensures this.id == id && redundantId == RedundantPair(id) && this.cfg == cfg
      ensures Core() == INIT && lastFault == NoFault
    {
      this.id := id;
      redundantId := RedundantPair(id);
      this.cfg := cfg;
      state := Healthy;
      lastFault := NoFault;
      faultStreak, recoveryStreak, validationStreak := 0, 0, 0;
    }

    method UpdateState(detected: FaultType) returns (next: SensorState)
      modifies this
      ensures Core() == Update(cfg, old(Core()), detected)
      ensures lastFault == detected && next == state
    {
      lastFault := detected;
      match state {
        case Healthy =>
          if detected != NoFault {
            faultStreak := 1;
            state := Suspect;
          }
        case Suspect =>
          if detected != NoFault {
            if detected == Contradictory {
              recoveryStreak := 0;
            } else {
              faultStreak := Inc8(faultStreak);
              recoveryStreak := 0;
              if faultStreak >= cfg.faultConfirmLimit {
                state := Faulted;
              }
            }
          } else {
            recoveryStreak := Inc8(recoveryStreak);
            if recoveryStreak >= cfg.recoveryConfirmLimit {
              state := Healthy;
              faultStreak := 0;
              recoveryStreak := 0;
            }
          }
        case _ =>
      }
      return state;
    }

    method Isolate()
      modifies this
      ensures Core() == Isolated(old(Core())) && lastFault == old(lastFault)
    {
      if state == Faulted {
        state := Excluded;
      }
    }

    method StartProbe()
      modifies this
      ensures Core() == ProbeStarted(old(Core())) && lastFault == old(lastFault)
    {
      if state == Excluded {
        state := Probing;
        validationStreak := 0;
      }
    }

    method ProbeEvaluate(detected: FaultType) returns (next: SensorState)
      modifies this
      ensures Core() == ProbeEvaluated(cfg, old(Core()), detected)
      ensures lastFault == detected && next == state
    {
      lastFault := detected;
      if state == Probing {
        if detected == NoFault {
          state := Validating;
          validationStreak := 1;
        } else {
          state := Excluded;
        }
      } else if state == Validating {
        if detected == NoFault {
          validationStreak := Inc8(validationStreak);
          if validationStreak >= cfg.recoveryConfirmLimit {
            state := Healthy;
            faultStreak := 0;
            recoveryStreak := 0;
            validationStreak := 0;
          }
        } else {
          state := Excluded;
        }
      }
      return state;
    }
  }

  // ---- Arbitrary sequences of calls ----

  datatype ApiCall = CallUpdate(detected: FaultType) | CallIsolate | CallStartProbe | CallProbeEvaluate(detected: FaultType)

  function Apply(cfg: FdiConfig, s: Fsm, call: ApiCall): Fsm {
    match call
    case CallUpdate(detected) => Update(cfg, s, detected)
    case CallIsolate => Isolated(s)
    case CallStartProbe => ProbeStarted(s)
    case CallProbeEvaluate(detected) => ProbeEvaluated(cfg, s, detected)
  }

  function RunCalls(cfg: FdiConfig, calls: seq<ApiCall>): Fsm {
    if calls == [] then INIT
    else Apply(cfg, RunCalls(cfg, calls[..|calls| - 1]), calls[|calls| - 1])
  }

  ghost predicate Reachable(cfg: FdiConfig, s: Fsm) {
    exists calls :: RunCalls(cfg, calls) == s
  }

  /** The edges of the documented state diagram. */
  predicate LegalEdge(from: SensorState, to: SensorState) {
    match from
    case Healthy => to.Suspect?
    case Suspect => to.Healthy? || to.Faulted?
    case Faulted => to.Excluded?
    case Excluded => to.Probing?
    case Probing => to.Validating? || to.Excluded?
    case Validating => to.Healthy? || to.Excluded?
  }

  /** No call, in any state, leaves the documented diagram. */
  lemma CallsFollowTheDiagram(cfg: FdiConfig, s: Fsm, call: ApiCall)
    ensures Apply(cfg, s, call).state == s.state || LegalEdge(s.state, Apply(cfg, s, call).state)
    ensures call.CallUpdate? || call.CallIsolate? ==>
              RecoveryOwned(s.state) ==> Apply(cfg, s, call) == s
    ensures call.CallStartProbe? || call.CallProbeEvaluate? ==>
              !RecoveryOwned(s.state) ==> Apply(cfg, s, call) == s
  {
  }

  // ---- The counter invariant ----

  /** Definitive faults after the first that condemn a SUSPECT sensor. */
  function FaultsToCondemn(cfg: FdiConfig): int {
    Max(cfg.faultConfirmLimit - 1, 1)
  }

  /** Consecutive clean results that clear a SUSPECT sensor. */
  function CleansToClear(cfg: FdiConfig): int {
    Max(cfg.recoveryConfirmLimit, 1)
  }

  /** Consecutive clean results that carry a sensor from PROBING to HEALTHY. */
  function CleansToReintegrate(cfg: FdiConfig): int {
    Max(cfg.recoveryConfirmLimit, 2)
  }

  ghost predicate CounterInvariant(cfg: FdiConfig, s: Fsm) {
    match s.state
    case Healthy => s.faultStreak == 0 && s.recoveryStreak == 0 && s.validationStreak == 0
    case Suspect =>
      && 1 <= s.faultStreak <= FaultsToCondemn(cfg)
      && s.recoveryStreak < CleansToClear(cfg)
      && s.validationStreak == 0
    case Faulted => s.faultStreak == FaultsToCondemn(cfg) + 1 && s.recoveryStreak == 0 && s.validationStreak == 0
    case Excluded =>
      && s.faultStreak == FaultsToCondemn(cfg) + 1 && s.recoveryStreak == 0
      && s.validationStreak < CleansToReintegrate(cfg)
    case Probing => s.faultStreak == FaultsToCondemn(cfg) + 1 && s.recoveryStreak == 0 && s.validationStreak == 0
    case Validating =>
      && s.faultStreak == FaultsToCondemn(cfg) + 1 && s.recoveryStreak == 0
      && 1 <= s.validationStreak < CleansToReintegrate(cfg)
  }

  lemma CallKeepsCounters(cfg: FdiConfig, s: Fsm, call: ApiCall)
    requires CounterInvariant(cfg, s)
    ensures CounterInvariant(cfg, Apply(cfg, s, call))
  {
  }

  lemma {:induction false} RunKeepsCounters(cfg: FdiConfig, calls: seq<ApiCall>)
    ensures CounterInvariant(cfg, RunCalls(cfg, calls))
  {
    if calls != [] {
      RunKeepsCounters(cfg, calls[..|calls| - 1]);
      CallKeepsCounters(cfg, RunCalls(cfg, calls[..|calls| - 1]), calls[|calls| - 1]);
    }
  }

  /** For every configuration the invariant is exact: the calls reach every state it admits and no other. */
  lemma ReachableIffCounters(cfg: FdiConfig, s: Fsm)
    ensures Reachable(cfg, s) <==> CounterInvariant(cfg, s)
  {
    if Reachable(cfg, s) {
      var calls :| RunCalls(cfg, calls) == s;
      RunKeepsCounters(cfg, calls);
    }
    if CounterInvariant(cfg, s) {
      Reach(cfg, s);
    }
  }

  lemma ReachStep(cfg: FdiConfig, s: Fsm, call: ApiCall)
    requires Reachable(cfg, s)
    ensures Reachable(cfg, Apply(cfg, s, call))
  {
    var calls :| RunCalls(cfg, calls) == s;
    assert (calls + [call])[..|calls|] == calls;
    assert RunCalls(cfg, calls + [call]) == Apply(cfg, s, call);
  }

  lemma ReachSuspect(cfg: FdiConfig, faults: uint8, cleans: uint8)
    requires 1 <= faults <= FaultsToCondemn(cfg) && cleans < CleansToClear(cfg)
    ensures Reachable(cfg, Fsm(Suspect, faults, cleans, 0))
    decreases faults, cleans
  {
    if cleans > 0 {
      ReachSuspect(cfg, faults, cleans - 1);
      ReachStep(cfg, Fsm(Suspect, faults, cleans - 1, 0), CallUpdate(NoFault));
    } else if faults > 1 {
      ReachSuspect(cfg, faults - 1, 0);
      ReachStep(cfg, Fsm(Suspect, faults - 1, 0, 0), CallUpdate(Stuck));
    } else {
      assert RunCalls(cfg, []) == INIT;
      ReachStep(cfg, INIT, CallUpdate(Stuck));
    }
  }

  lemma ReachCondemned(cfg: FdiConfig)
    ensures Reachable(cfg, Fsm(Faulted, FaultsToCondemn(cfg) + 1, 0, 0))
    ensures Reachable(cfg, Fsm(Excluded, FaultsToCondemn(cfg) + 1, 0, 0))
  {
    ReachSuspect(cfg, FaultsToCondemn(cfg), 0);
    ReachStep(cfg, Fsm(Suspect, FaultsToCondemn(cfg), 0, 0), CallUpdate(Stuck));
    ReachStep(cfg, Fsm(Faulted, FaultsToCondemn(cfg) + 1, 0, 0), CallIsolate);
  }

  lemma {:induction false} ReachTrial(cfg: FdiConfig, cleans: uint8)
    requires cleans < CleansToReintegrate(cfg)
    ensures Reachable(cfg, Fsm(if cleans == 0 then Probing else Validating, FaultsToCondemn(cfg) + 1, 0, cleans))
    decreases cleans
  {
    var faults := FaultsToCondemn(cfg) + 1;
    if cleans == 0 {
      ReachCondemned(cfg);
      ReachStep(cfg, Fsm(Excluded, faults, 0, 0), CallStartProbe);
    } else {
      ReachTrial(cfg, cleans - 1);
      var before := Fsm(if cleans == 1 then Probing else Validating, faults, 0, cleans - 1);
      ReachStep(cfg, before, CallProbeEvaluate(NoFault));
    }
  }

  lemma Reach(cfg: FdiConfig, s: Fsm)
    requires CounterInvariant(cfg, s)
    ensures Reachable(cfg, s)
  {
    match s.state {
      case Healthy => assert RunCalls(cfg, []) == s;
      case Suspect => ReachSuspect(cfg, s.faultStreak, s.recoveryStreak);
      case Faulted => ReachCondemned(cfg);
      case Excluded =>
        ReachCondemned(cfg);
        if s.validationStreak > 0 {
          ReachTrial(cfg, s.validationStreak);
          ReachStep(cfg, s.(state := Validating), CallProbeEvaluate(Stuck));
        }
      case _ => ReachTrial(cfg, s.validationStreak);
    }
  }

  /** No `uint8_t` increment ever wraps, whatever the limits: the counter that a call is about to
      increment is below 255 in every reachable state. */
  lemma IncrementsNeverWrap(cfg: FdiConfig, calls: seq<ApiCall>)
    ensures var s := RunCalls(cfg, calls);
            && (s.state.Suspect? ==> Inc8(s.faultStreak) == s.faultStreak + 1
                                     && Inc8(s.recoveryStreak) == s.recoveryStreak + 1)
            && (s.state.Validating? ==> Inc8(s.validationStreak) == s.validationStreak + 1)
  {
    RunKeepsCounters(cfg, calls);
  }
}
