/** The Fault Detector task: one evaluation of a sensor and its report. */
module DetectorTask {
  import opened SensorTypes
  import opened SensorBuffers
  import opened Detection
  import opened FaultDetector

  // ---- Specification ----

  function Evaluated(cfg: FdiConfig, s: Fsm, detected: FaultType): Fsm {
    if Usable(s.state) then Isolated(Update(cfg, s, detected)) else Isolated(s)
  }

  /** FAULTED is never visible after an evaluation, and a sensor Recovery owns is left alone. */
  lemma FaultedIsNeverVisible(cfg: FdiConfig, s: Fsm, detected: FaultType)
    ensures !Evaluated(cfg, s, detected).state.Faulted?
    ensures RecoveryOwned(s.state) ==> Evaluated(cfg, s, detected) == s
    ensures CounterInvariant(cfg, s) ==> CounterInvariant(cfg, Evaluated(cfg, s, detected))
  {
    if CounterInvariant(cfg, s) {
      CallKeepsCounters(cfg, s, CallUpdate(detected));
      CallKeepsCounters(cfg, Update(cfg, s, detected), CallIsolate);
    }
  }

  // ---- The task ----

  method EvaluateSensor(ctx: FdiContext, self: SensorBuffer, red: SensorBuffer?, now: uint64, sqrt: real -> real)
    requires ValidRedundant(self, red) && IsSqrt(sqrt)
    modifies ctx
    ensures ctx.lastFault == Detect(ctx.cfg, self.log, LogOf(red), now)
    ensures ctx.Core() == Evaluated(ctx.cfg, old(ctx.Core()), ctx.lastFault)
  {
    var before := ctx.state;
    var detected := FdiDetect(ctx.cfg, self, red, now, sqrt);
    match before {
      case Healthy | Suspect =>
        var next := ctx.UpdateState(detected);
        if ctx.state == Faulted {
          ctx.Isolate();
        }
      case Faulted =>
        ctx.Isolate();
      case _ =>
    }
    ctx.lastFault := detected;
  }

  /** The body of the cycle's loop: evaluate one sensor, report it to the Logger, and wake Recovery for it
      exactly when Recovery owns it. */
  method EvaluateAndReport(ctx: FdiContext, self: SensorBuffer, red: SensorBuffer?, now: uint64, sqrt: real -> real)
    returns (ev: FaultEvent, wakeRecovery: bool)
    requires ValidRedundant(self, red) && IsSqrt(sqrt)
    modifies ctx
    ensures ctx.lastFault == Detect(ctx.cfg, self.log, LogOf(red), now)
    ensures ctx.Core() == Evaluated(ctx.cfg, old(ctx.Core()), ctx.lastFault)
    ensures ev == FaultEvent(ctx.id, ctx.state, ctx.lastFault, now, 0, 0)
    ensures wakeRecovery <==> RecoveryOwned(ctx.state)
  {
    EvaluateSensor(ctx, self, red, now, sqrt);
    ev := FaultEvent(ctx.id, ctx.state, ctx.lastFault, now, 0, 0);
    wakeRecovery := ev.state == Excluded || ev.state == Probing || ev.state == Validating;
  }
}
