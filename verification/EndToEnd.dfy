/** Statements that cross the layers: from what a buffer holds to what fusion reports. */
module EndToEnd {
  import opened SensorTypes
  import opened SensorBuffers
  import opened Detection
  import opened FaultDetector
  import opened RecoveryTask
  import RecoveryRuns
  import opened Fusion
  import FusionRuns

  // ---- A written reading ----

  /** What a write is for: from the moment a reading is stored, stamped t, the sensor is not DELAYED until the timeout
      after t has passed, and while it is usable fusion hears exactly that reading, with its age, up to 300 ms
      after t. */
  lemma WriteIsHeard(cfg: FdiConfig, state: SensorState, log: Log, red: Option<Log>, id: SensorId, t: uint64,
                     values: seq<real>, residue: seq<real>, now: uint64)
    requires 1 <= |values| <= |residue| == MAX_VALUES && NewestIs(log, id, t, values, residue)
    ensures Detect(cfg, log, red, now).Delayed? <==> t + cfg.delayTimeoutUs < now
    ensures Contribution(SensorView(state, log), now)
            == if Usable(state) && now <= t + 300_000
               then Some(Contrib(values[0], if state.Healthy? then 2.0 else 6.0, if now > t then now - t else 0))
               else None
  {
    DelayedIffOlder(cfg, log, red, now);
    ContributesIffFresh(SensorView(state, log), now);
  }

  // ---- A dead sensor ----

  /** Nothing has been written to this history after t0. */
  ghost predicate SilentSince(log: Log, t0: uint64) {
    log == [] || log[|log| - 1].timestampUs <= t0
  }

  /** From event i on, the results of a run are the engine's verdicts on an unchanging history, each taken later
      than t0 plus the delay timeout. The twin's history may change freely. */
  ghost predicate EvaluatesSilence(cfg: FdiConfig, es: seq<RecoveryRuns.Event>, i: nat, log: Log,
                                   reds: seq<Option<Log>>, times: seq<uint64>, t0: uint64)
  {
    && |reds| == |times| == |es| && SilentSince(log, t0)
    && forall j :: i <= j < |es| ==>
                     times[j] > t0 + cfg.delayTimeoutUs && es[j].detected == Detect(cfg, log, reds[j], times[j])
  }

  /** The detector's evaluations among the events lo, ..., hi-1. */
  function Evaluations(es: seq<RecoveryRuns.Event>, lo: nat, hi: nat): nat
    requires hi <= |es|
  {
    if hi <= lo then 0 else Evaluations(es, lo, hi - 1) + if es[hi - 1].DetectorEval? then 1 else 0
  }

  /** While every result is DELAYED a usable sensor has been charged for each of the evaluations. */
  lemma {:induction false} DelaysAreCharged(cfg: FdiConfig, es: seq<RecoveryRuns.Event>, i: nat, k: nat)
    requires i <= k <= |es| && forall j :: i <= j < k ==> es[j].detected.Delayed?
    ensures CounterInvariant(cfg, RecoveryRuns.After(cfg, es, k).fsm)
    ensures Usable(RecoveryRuns.StateAfter(cfg, es, k)) ==>
              Usable(RecoveryRuns.StateAfter(cfg, es, i))
              && RecoveryRuns.After(cfg, es, k).fsm.faultStreak >= Evaluations(es, i, k)
    decreases k
  {
    if k > i {
      DelaysAreCharged(cfg, es, i, k - 1);
      DelayStep(cfg, RecoveryRuns.After(cfg, es, k - 1), es[k - 1]);
    } else {
      RecoveryRuns.RunKeepsCounters(cfg, es, k);
    }
  }

  lemma DelayStep(cfg: FdiConfig, n: Node, e: RecoveryRuns.Event)
    requires CounterInvariant(cfg, n.fsm) && e.detected.Delayed?
    ensures var n' := RecoveryRuns.StepNode(cfg, n, e);
            && CounterInvariant(cfg, n'.fsm)
            && (Usable(n'.fsm.state) ==>
                  && Usable(n.fsm.state)
                  && n'.fsm.faultStreak >= n.fsm.faultStreak + if e.DetectorEval? then 1 else 0)
  {
    RecoveryRuns.StepKeepsCounters(cfg, n, e);
  }

  /** Dead sensor, end to end: once its history has been silent for longer than the timeout, every evaluation
      says DELAYED; after at most max(L, 2) of them the sensor is out of HEALTHY/SUSPECT, and as long as it stays
      silent no detector or recovery step, in any order and whatever its state was, makes it usable again. */
  lemma DeadSensorIsCondemned(cfg: FdiConfig, es: seq<RecoveryRuns.Event>, i: nat, k: nat, log: Log,
                              reds: seq<Option<Log>>, times: seq<uint64>, t0: uint64)
    requires i <= k <= |es| && EvaluatesSilence(cfg, es, i, log, reds, times, t0)
    ensures forall j :: i <= j < |es| ==> es[j].detected.Delayed?
    ensures Evaluations(es, i, k) >= Max(cfg.faultConfirmLimit, 2) ==> !Usable(RecoveryRuns.StateAfter(cfg, es, k))
    ensures !Usable(RecoveryRuns.StateAfter(cfg, es, i)) ==> !Usable(RecoveryRuns.StateAfter(cfg, es, k))
  {
    DelaysAreCharged(cfg, es, i, k);
  }

  /** When neither ultrasonic sensor delivers anything after t0, every call later than 1.8 s after t0 reports
      UNSAFE, whatever states the sensors are in and whatever the IMUs do. */
  lemma SilentPairEndsUnsafe(sqrt: real -> real, calls: seq<Call>, k: nat, t0: uint64)
    requires k < |calls| && FusionRuns.Clocked(calls)
    requires forall j :: 0 <= j <= k ==> SilentSince(calls[j].us1.log, t0) && SilentSince(calls[j].us2.log, t0)
    requires calls[k].now > t0 + STALE_SAMPLE_US + HOLDOVER_MAX_US
    ensures FusionRuns.Report(sqrt, calls, k).mode.Unsafe? && !FusionRuns.Report(sqrt, calls, k).valid
  {
    FusionRuns.ModeIsDecidedByContact(sqrt, calls, k);
    if FusionRuns.Report(sqrt, calls, k).valid {
      var m := FusionRuns.EvidenceIsRecent(sqrt, calls, k);
      assert false;
    }
  }

  /** A sensor whose probe has timed out contributes nothing to fusion for the rest of the run, whatever it
      measures. */
  lemma TimedOutSensorNeverContributes(cfg: FdiConfig, es: seq<RecoveryRuns.Event>, i: nat, k: nat,
                                       log: Log, now: uint64)
    requires i <= k <= |es| && RecoveryRuns.Clocked(es) && RecoveryRuns.After(cfg, es, i).sup.attempts > 0
    ensures Contribution(SensorView(RecoveryRuns.StateAfter(cfg, es, k), log), now) == None
  {
    RecoveryRuns.TimeoutFreezes(cfg, es, i, k);
  }

  // ---- Disagreement ----

  /** The detector has only ever reported a clean result or a contradiction; Recovery may get any events. */
  ghost predicate OnlyDisagreement(es: seq<RecoveryRuns.Event>, k: nat) {
    forall j :: 0 <= j < k && j < |es| && es[j].DetectorEval? ==> es[j].detected.NoFault? || es[j].detected.Contradictory?
  }

  lemma {:induction false} DisagreementNeverCondemns(cfg: FdiConfig, es: seq<RecoveryRuns.Event>, k: nat)
    requires k <= |es| && OnlyDisagreement(es, k)
    ensures Usable(RecoveryRuns.StateAfter(cfg, es, k))
  {
    if k > 0 {
      DisagreementNeverCondemns(cfg, es, k - 1);
    }
  }

  /** Disagreement alone never costs a range: over any two runs in which the detector only ever reported clean
      results or contradictions, a call with fresh samples from both sensors reports FULL. */
  lemma DisagreementKeepsFull(cfg: FdiConfig, es1: seq<RecoveryRuns.Event>, es2: seq<RecoveryRuns.Event>,
                              sqrt: real -> real, fs: FusionState, c: Call)
    requires OnlyDisagreement(es1, |es1|) && OnlyDisagreement(es2, |es2|)
    requires c.us1.state == RecoveryRuns.StateAfter(cfg, es1, |es1|)
    requires c.us2.state == RecoveryRuns.StateAfter(cfg, es2, |es2|)
    requires Recent(c.us1.log, c.now) && Recent(c.us2.log, c.now)
    ensures Called(sqrt, fs, c).1.mode.Full? && Called(sqrt, fs, c).1.valid
  {
    DisagreementNeverCondemns(cfg, es1, |es1|);
    DisagreementNeverCondemns(cfg, es2, |es2|);
  }

  ghost predicate Recent(log: Log, now: uint64) {
    log != [] && Age(now, log[|log| - 1].timestampUs) <= STALE_SAMPLE_US
  }

  ghost predicate SingleValued(log: Log) {
    log != [] && WellFormedSample(log[|log| - 1]) && log[|log| - 1].valueCount == 1
  }

  /** A contradiction of single-valued samples is a spread above the threshold. */
  lemma ContradictionIsSpread(cfg: FdiConfig, log: Log, red: Log)
    requires SingleValued(log) && SingleValued(red) && cfg.contradictionThreshold >= 0.0
    ensures IsContradictory(cfg, log, Some(red))
            <==> Abs(Primary(log[|log| - 1]) - Primary(red[|red| - 1])) > cfg.contradictionThreshold
  {
    var a, b := log[|log| - 1], red[|red| - 1];
    var d := a.value[0] - b.value[0];
    assert SquaredDistance(a.value, b.value, 1) == SquaredDistance(a.value, b.value, 0) + d * d == d * d;
    assert d * d == Abs(d) * Abs(d);
    RootComparison(Abs(d), d * d, cfg.contradictionThreshold);
  }

  /** Whenever the engine calls the ultrasonic pair contradictory, fusion over the same samples believes the
      nearer one and charges the whole spread against it. */
  lemma ContradictionIsReportedPessimistically(sqrt: real -> real, fs: FusionState, c: Call)
    requires SingleValued(c.us1.log) && SingleValued(c.us2.log)
    requires Usable(c.us1.state) && Usable(c.us2.state) && Recent(c.us1.log, c.now) && Recent(c.us2.log, c.now)
    requires Detect(US_CONFIG, c.us1.log, Some(c.us2.log), c.now).Contradictory?
    ensures PessimisticReport(Called(sqrt, fs, c).1, Primary(c.us1.log[|c.us1.log| - 1]), Primary(c.us2.log[|c.us2.log| - 1]))
  {
    ContradictionIsSpread(US_CONFIG, c.us1.log, c.us2.log);
    DisagreementIsPessimistic(sqrt, fs, c);
  }
}
