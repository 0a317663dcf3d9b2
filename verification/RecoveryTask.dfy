/** The Recovery task: the supervisor's bookkeeping and the handling of one event. */
module RecoveryTask {
  import opened SensorTypes
  import opened SensorBuffers
  import opened Detection
  import opened FaultDetector

  const RECOVERY_TIMEOUT_US := 2_000_000
  const RECOVERY_MAX_ATTEMPTS := 5
  const RECOVERY_BACKOFF_BASE_US := 1_000_000
  const RECOVERY_BACKOFF_MAX_US := 30_000_000

  // ---- Specification ----

  datatype Sup = Sup(probeStartedUs: uint64, nextProbeUs: uint64, attempts: nat, permanentFail: bool)

  const NO_SUP := Sup(0, 0, 0, false)

  /** One sensor: its state machine and its supervisor record. */
  datatype Node = Node(fsm: Fsm, sup: Sup)

  function Pow2(k: nat): nat {
    if k == 0 then 1 else 2 * Pow2(k - 1)
  }

  predicate TimedOut(sup: Sup, now: uint64) {
    Sub64(now, sup.probeStartedUs) > RECOVERY_TIMEOUT_US
  }

  function Backoff(attempts: nat): (us: uint64)
    requires 1 <= attempts < RECOVERY_MAX_ATTEMPTS
  {
    Pow2Small(attempts - 1);
    Min(RECOVERY_BACKOFF_BASE_US * Pow2(attempts - 1), RECOVERY_BACKOFF_MAX_US)
  }

  lemma Pow2Small(k: nat)
    requires k < RECOVERY_MAX_ATTEMPTS - 1
    ensures 1 <= Pow2(k) <= 8
  {
    if k > 0 {
      Pow2Small(k - 1);
      if k == 3 {
        assert Pow2(3) == 2 * Pow2(2) == 4 * Pow2(1) == 8 * Pow2(0);
      } else if k == 2 {
        assert Pow2(2) == 2 * Pow2(1) == 4 * Pow2(0);
      }
    }
  }

  /** The cap on the backoff never binds: each backoff is exactly 2^(attempts-1) seconds, at most eight. */
  lemma BackoffCapNeverBinds(attempts: nat)
    requires 1 <= attempts < RECOVERY_MAX_ATTEMPTS
    ensures Backoff(attempts) == RECOVERY_BACKOFF_BASE_US * Pow2(attempts - 1) <= 8_000_000 < RECOVERY_BACKOFF_MAX_US
  {
    Pow2Small(attempts - 1);
  }

  function Punished(sup: Sup, now: uint64): Sup {
    var attempts := sup.attempts + 1;
    if attempts >= RECOVERY_MAX_ATTEMPTS then sup.(attempts := attempts, permanentFail := true)
    else sup.(attempts := attempts, nextProbeUs := Add64(now, Backoff(attempts)))
  }

  /** The record of a reintegrated sensor: its bookkeeping starts afresh. */
  function Pardoned(sup: Sup): Sup {
    sup.(attempts := 0, nextProbeUs := 0, permanentFail := false)
  }

  /** What one event does, given what the detector would report at that moment. */
  function Recovered(cfg: FdiConfig, n: Node, now: uint64, detected: FaultType): Node {
    match n.fsm.state
    case Excluded =>
      if n.sup.permanentFail || now < n.sup.nextProbeUs then n
      else Node(ProbeStarted(n.fsm), n.sup.(probeStartedUs := now))
    case Probing | Validating =>
      if TimedOut(n.sup, now) then Node(Isolated(n.fsm), Punished(n.sup, now))
      else
        var fsm := ProbeEvaluated(cfg, n.fsm, detected);
        Node(fsm, if fsm.state.Healthy? then Pardoned(n.sup) else n.sup)
    case _ => n
  }

  /** The synthetic lines one event sends to the Logger: none unless the trial timed out, then one for the
      timeout and a second one when the sensor is given up. */
  function SyntheticLines(id: SensorId, lastFault: FaultType, n: Node, now: uint64): seq<FaultEvent> {
    if OnTrial(n.fsm.state) && TimedOut(n.sup, now) then
      var attempts := n.sup.attempts + 1;
      [FaultEvent(id, n.fsm.state, lastFault, now, 1, attempts)]
      + if attempts >= RECOVERY_MAX_ATTEMPTS then [FaultEvent(id, n.fsm.state, lastFault, now, 2, attempts)] else []
    else []
  }

  /** The latch is only ever set together with the fifth attempt. */
  ghost predicate LatchCountsAttempts(sup: Sup) {
    sup.permanentFail <==> sup.attempts >= 5
  }

  /** The lines sent, told by what happens to the supervisor: a timeout line exactly when the attempts grow, and a
      permanent-failure line after it exactly from the fifth attempt on, which is when the sensor is given up. Each
      carries the sensor's id, its state, which does not change, its last fault, the event's stamp and the new
      number of attempts. */
  ghost predicate TellsTheStep(lines: seq<FaultEvent>, id: SensorId, lastFault: FaultType, n: Node, n': Node,
                               now: uint64) {
    var grew := n'.sup.attempts > n.sup.attempts;
    && |lines| == (if !grew then 0 else if n'.sup.attempts >= 5 then 2 else 1)
    && (LatchCountsAttempts(n.sup) ==>
          LatchCountsAttempts(n'.sup) && (|lines| == 2 <==> grew && n'.sup.permanentFail))
    && (grew ==> n'.fsm == n.fsm && n'.sup.attempts == n.sup.attempts + 1)
    && forall j :: 0 <= j < |lines| ==>
                     && lines[j].id == id && lines[j].state == n'.fsm.state && lines[j].fault == lastFault
                     && lines[j].timestampUs == now && lines[j].syntheticReason == j + 1
                     && lines[j].probeAttempts == n'.sup.attempts
  }

  /** A timeout gives the sensor up from the fifth attempt on and until then schedules the next probe 1, 2, 4 or
      8 seconds ahead. */
  ghost predicate SchedulesRetry(n: Node, n': Node, now: uint64) {
    n'.sup.attempts > n.sup.attempts ==>
      if n'.sup.attempts >= 5 then n'.sup.permanentFail && n'.sup.nextProbeUs == n.sup.nextProbeUs
      else n'.sup.nextProbeUs == Add64(now, [1_000_000, 2_000_000, 4_000_000, 8_000_000][n'.sup.attempts - 1])
  }

  lemma BackoffValues()
    ensures Backoff(1) == 1_000_000 && Backoff(2) == 2_000_000 && Backoff(3) == 4_000_000 && Backoff(4) == 8_000_000
  {
    BackoffCapNeverBinds(1);
    BackoffCapNeverBinds(2);
    BackoffCapNeverBinds(3);
    BackoffCapNeverBinds(4);
    assert Pow2(1) == 2 * Pow2(0) == 2;
    assert Pow2(2) == 2 * Pow2(1);
    assert Pow2(3) == 2 * Pow2(2);
  }

  lemma LinesTellTheStep(cfg: FdiConfig, id: SensorId, lastFault: FaultType, n: Node, now: uint64, detected: FaultType)
    ensures var n' := Recovered(cfg, n, now, detected);
            && TellsTheStep(SyntheticLines(id, lastFault, n, now), id, lastFault, n, n', now)
            && SchedulesRetry(n, n', now)
  {
    BackoffValues();
  }

  /** An excluded sensor is probed exactly when it is not given up and its backoff has passed; otherwise the event
      changes nothing. */
  lemma ProbeGate(cfg: FdiConfig, n: Node, now: uint64, detected: FaultType)
    requires n.fsm.state.Excluded?
    ensures var n' := Recovered(cfg, n, now, detected);
            && (n'.fsm.state.Probing? <==> !n.sup.permanentFail && n.sup.nextProbeUs <= now)
            && (n'.fsm.state.Probing? ==> n'.fsm.validationStreak == 0 && n'.sup.probeStartedUs == now)
            && (!n'.fsm.state.Probing? ==> n' == n)
  {
  }

  /** The attempts grow exactly when an event finds the sensor on a trial begun more than two seconds earlier. An
      event that finds it on a younger trial touches the record only if the sensor becomes HEALTHY, and then
      clears it. */
  lemma TrialAndRecord(cfg: FdiConfig, n: Node, now: uint64, detected: FaultType)
    ensures var n' := Recovered(cfg, n, now, detected);
            && (n'.sup.attempts > n.sup.attempts
                <==> OnTrial(n.fsm.state) && Sub64(now, n.sup.probeStartedUs) > 2_000_000)
            && (OnTrial(n.fsm.state) && Sub64(now, n.sup.probeStartedUs) <= 2_000_000 ==>
                  n'.sup == if n'.fsm.state.Healthy? then Sup(n.sup.probeStartedUs, 0, 0, false) else n.sup)
  {
  }

  // ---- The task ----

  class RecoverySup {
    var probeStartedUs: uint64
    var nextProbeUs: uint64
    var attempts: nat
    var permanentFail: bool

    ghost function Record(): Sup
      reads this
    {
      Sup(probeStartedUs, nextProbeUs, attempts, permanentFail)
    }

    constructor ()
      ensures Record() == NO_SUP
    {
      probeStartedUs, nextProbeUs, attempts, permanentFail := 0, 0, 0, false;
    }
  }

  /** The body of the Recovery loop for one received event. */
  method HandleEvent(ctx: FdiContext, sup: RecoverySup, self: SensorBuffer, red: SensorBuffer?,
                     now: uint64, sqrt: real -> real)
    returns (logged: seq<FaultEvent>)
    requires ValidRedundant(self, red) && IsSqrt(sqrt)
    modifies ctx, sup
    ensures Node(ctx.Core(), sup.Record())
            == Recovered(ctx.cfg, old(Node(ctx.Core(), sup.Record())), now, Detect(ctx.cfg, self.log, LogOf(red), now))
    ensures logged == SyntheticLines(ctx.id, old(ctx.lastFault), old(Node(ctx.Core(), sup.Record())), now)
    ensures TellsTheStep(logged, ctx.id, old(ctx.lastFault), old(Node(ctx.Core(), sup.Record())),
                         Node(ctx.Core(), sup.Record()), now)
    ensures SchedulesRetry(old(Node(ctx.Core(), sup.Record())), Node(ctx.Core(), sup.Record()), now)
    ensures ctx.lastFault == if old(OnTrial(ctx.state) && !TimedOut(sup.Record(), now))
                             then Detect(ctx.cfg, self.log, LogOf(red), now) else old(ctx.lastFault)
  {
    LinesTellTheStep(ctx.cfg, ctx.id, ctx.lastFault, Node(ctx.Core(), sup.Record()), now,
                     Detect(ctx.cfg, self.log, LogOf(red), now));
    logged := [];
    if ctx.state == Excluded {
      if sup.permanentFail {
        return;
      }
      if now < sup.nextProbeUs {
        return;
      }
      ctx.StartProbe();
      sup.probeStartedUs := now;
    } else if ctx.state == Probing || ctx.state == Validating {
      var elapsed := Sub64(now, sup.probeStartedUs);
      if elapsed > RECOVERY_TIMEOUT_US {
        ctx.Isolate();
        sup.attempts := sup.attempts + 1;
        logged := logged + [FaultEvent(ctx.id, ctx.state, ctx.lastFault, now, 1, sup.attempts)];
        if sup.attempts >= RECOVERY_MAX_ATTEMPTS {
          sup.permanentFail := true;
          logged := logged + [FaultEvent(ctx.id, ctx.state, ctx.lastFault, now, 2, sup.attempts)];
        } else {
          sup.nextProbeUs := Add64(now, Backoff(sup.attempts));
        }
        return;
      }
      var detected := FdiDetect(ctx.cfg, self, red, now, sqrt);
      var next := ctx.ProbeEvaluate(detected);
      if ctx.state == Healthy {
        sup.attempts := 0;
        sup.nextProbeUs := 0;
        sup.permanentFail := false;
      }
    }
  }
}
