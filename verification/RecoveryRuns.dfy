/** Whole runs of one sensor under the two tasks: probe sessions, the frozen timeout and the permanent latch. */
module RecoveryRuns {
  import opened SensorTypes
  import opened FaultDetector
  import opened DetectorTask
  import opened RecoveryTask

  /** One step of a run. `detected` is whatever the engine reports at that moment. */
  datatype Event =
    | DetectorEval(detected: FaultType)
    | RecoveryEvent(now: uint64, detected: FaultType)

  const START := Node(INIT, NO_SUP)

  function StepNode(cfg: FdiConfig, n: Node, e: Event): Node {
    match e
    case DetectorEval(detected) => n.(fsm := Evaluated(cfg, n.fsm, detected))
    case RecoveryEvent(now, detected) => Recovered(cfg, n, now, detected)
  }

  /** The node after the first `k` events of a run. */
  function After(cfg: FdiConfig, es: seq<Event>, k: nat): Node
    requires k <= |es|
  {
    if k == 0 then START else StepNode(cfg, After(cfg, es, k - 1), es[k - 1])
  }

  function StateAfter(cfg: FdiConfig, es: seq<Event>, k: nat): SensorState
    requires k <= |es|
  {
    After(cfg, es, k).fsm.state
  }

  /** The clock never runs backwards between two events Recovery handles. */
  ghost predicate Clocked(es: seq<Event>) {
    forall i, j :: 0 <= i < j < |es| && es[i].RecoveryEvent? && es[j].RecoveryEvent? ==> es[i].now <= es[j].now
  }

  // ---- What every reachable node satisfies ----

  lemma {:induction false} RunKeepsCounters(cfg: FdiConfig, es: seq<Event>, k: nat)
    requires k <= |es|
    ensures CounterInvariant(cfg, After(cfg, es, k).fsm)
  {
    if k > 0 {
      RunKeepsCounters(cfg, es, k - 1);
      StepKeepsCounters(cfg, After(cfg, es, k - 1), es[k - 1]);
    }
  }

  lemma StepKeepsCounters(cfg: FdiConfig, n: Node, e: Event)
    requires CounterInvariant(cfg, n.fsm)
    ensures CounterInvariant(cfg, StepNode(cfg, n, e).fsm)
  {
    FaultedIsNeverVisible(cfg, n.fsm, e.detected);
    CallKeepsCounters(cfg, n.fsm, CallStartProbe);
    CallKeepsCounters(cfg, n.fsm, CallProbeEvaluate(e.detected));
    CallKeepsCounters(cfg, n.fsm, CallIsolate);
  }

  /** A trial that has timed out stays frozen in PROBING or VALIDATING; nobody else has a record of attempts. */
  ghost predicate SupInvariant(es: seq<Event>, k: nat, n: Node)
    requires k <= |es|
  {
    && !n.fsm.state.Faulted?
    && (n.sup.attempts == 0 ==> n.sup.nextProbeUs == 0)
    && (n.sup.attempts > 0 ==> OnTrial(n.fsm.state))
    && (n.sup.permanentFail <==> n.sup.attempts >= RECOVERY_MAX_ATTEMPTS)
    && (OnTrial(n.fsm.state) ==>
          forall j :: k <= j < |es| && es[j].RecoveryEvent? ==>
            && n.sup.probeStartedUs <= es[j].now
            && (n.sup.attempts > 0 ==> es[j].now - n.sup.probeStartedUs > RECOVERY_TIMEOUT_US))
  }

  lemma StepKeepsSup(cfg: FdiConfig, es: seq<Event>, k: nat, n: Node)
    requires k < |es| && Clocked(es) && SupInvariant(es, k, n)
    ensures SupInvariant(es, k + 1, StepNode(cfg, n, es[k]))
  {
    FaultedIsNeverVisible(cfg, n.fsm, es[k].detected);
  }

  lemma {:induction false} RunKeepsSup(cfg: FdiConfig, es: seq<Event>, k: nat)
    requires k <= |es| && Clocked(es)
    ensures SupInvariant(es, k, After(cfg, es, k))
    ensures CounterInvariant(cfg, After(cfg, es, k).fsm)
  {
    RunKeepsCounters(cfg, es, k);
    if k > 0 {
      RunKeepsSup(cfg, es, k - 1);
      StepKeepsSup(cfg, es, k - 1, After(cfg, es, k - 1));
    }
  }

  /** The backoff gate and the latch test never hold a probe back: in every run, each event that finds the
      sensor EXCLUDED starts a probe. */
  lemma EveryExcludedEventProbes(cfg: FdiConfig, es: seq<Event>, k: nat)
    requires k < |es| && Clocked(es)
    requires StateAfter(cfg, es, k).Excluded? && es[k].RecoveryEvent?
    ensures StateAfter(cfg, es, k + 1).Probing?
    ensures After(cfg, es, k + 1).sup == NO_SUP.(probeStartedUs := es[k].now)
  {
    RunKeepsSup(cfg, es, k);
  }

  // ---- The timeout ----

  /** The number of events Recovery handles among lo, ..., hi-1. */
  function Handled(es: seq<Event>, lo: nat, hi: nat): nat
    requires hi <= |es|
  {
    if hi <= lo then 0 else Handled(es, lo, hi - 1) + if es[hi - 1].RecoveryEvent? then 1 else 0
  }

  ghost predicate FrozenBy(e: Event, n: Node, n': Node) {
    n'.fsm == n.fsm && n'.sup.attempts == n.sup.attempts + if e.RecoveryEvent? then 1 else 0
  }

  lemma FrozenStep(cfg: FdiConfig, es: seq<Event>, k: nat)
    requires k < |es| && Clocked(es) && After(cfg, es, k).sup.attempts > 0
    ensures FrozenBy(es[k], After(cfg, es, k), After(cfg, es, k + 1))
  {
    RunKeepsSup(cfg, es, k);
    var n := After(cfg, es, k);
    if es[k].RecoveryEvent? {
      assert TimedOut(n.sup, es[k].now);
    }
  }

  ghost predicate FrozenSince(es: seq<Event>, i: nat, k: nat, n: Node, n': Node)
    requires k <= |es|
  {
    n'.fsm == n.fsm && n'.sup.attempts == n.sup.attempts + Handled(es, i, k)
  }

  function Nodes(cfg: FdiConfig, es: seq<Event>): (ns: seq<Node>)
    ensures |ns| == |es| + 1
    ensures forall k :: 0 <= k <= |es| ==> ns[k] == After(cfg, es, k)
  {
    seq(|es| + 1, k requires 0 <= k <= |es| => After(cfg, es, k))
  }

  lemma {:induction false} FrozenChain(ns: seq<Node>, es: seq<Event>, i: nat, k: nat)
    requires |ns| == |es| + 1 && i <= k <= |es| && ns[i].sup.attempts > 0
    requires forall j :: 0 <= j < |es| && ns[j].sup.attempts > 0 ==> FrozenBy(es[j], ns[j], ns[j + 1])
    ensures FrozenSince(es, i, k, ns[i], ns[k])
    decreases k
  {
    if k > i {
      FrozenChain(ns, es, i, k - 1);
      var j := k - 1;
      assert FrozenBy(es[j], ns[j], ns[j + 1]);
    }
  }

  lemma FrozenFrom(cfg: FdiConfig, es: seq<Event>, i: nat, k: nat)
    requires i <= k <= |es| && Clocked(es) && After(cfg, es, i).sup.attempts > 0
    ensures FrozenSince(es, i, k, After(cfg, es, i), After(cfg, es, k))
  {
    var ns := Nodes(cfg, es);
    forall j | 0 <= j < |es| && ns[j].sup.attempts > 0
      ensures FrozenBy(es[j], ns[j], ns[j + 1])
    {
      FrozenStep(cfg, es, j);
    }
    FrozenChain(ns, es, i, k);
  }

  /** Once a trial has timed out the sensor is frozen for the rest of the run: its state machine never moves
      again and every further event counts as one more attempt. */
  lemma TimeoutFreezes(cfg: FdiConfig, es: seq<Event>, i: nat, k: nat)
    requires i <= k <= |es| && Clocked(es) && After(cfg, es, i).sup.attempts > 0
    ensures After(cfg, es, k).fsm == After(cfg, es, i).fsm && OnTrial(StateAfter(cfg, es, k))
    ensures After(cfg, es, k).sup.attempts == After(cfg, es, i).sup.attempts + Handled(es, i, k)
  {
    FrozenFrom(cfg, es, i, k);
    RunKeepsSup(cfg, es, i);
  }

  /** The permanent latch is absorbing: once set it stays set, and the sensor is never usable again. */
  lemma LatchIsAbsorbing(cfg: FdiConfig, es: seq<Event>, i: nat, k: nat)
    requires i <= k <= |es| && Clocked(es) && After(cfg, es, i).sup.permanentFail
    ensures After(cfg, es, k).sup.permanentFail && After(cfg, es, k).fsm == After(cfg, es, i).fsm
    ensures OnTrial(StateAfter(cfg, es, k)) && !Usable(StateAfter(cfg, es, k))
  {
    RunKeepsSup(cfg, es, i);
    TimeoutFreezes(cfg, es, i, k);
    RunKeepsSup(cfg, es, k);
  }

  /** Counting from the first event that times out (number i), the latch is closed from the fifth one on. */
  lemma LatchClosesOnFifthTimeout(cfg: FdiConfig, es: seq<Event>, i: nat, k: nat)
    requires i < k <= |es| && Clocked(es)
    requires After(cfg, es, i).sup.attempts == 0 && After(cfg, es, i + 1).sup.attempts > 0
    ensures After(cfg, es, k).sup.permanentFail <==> Handled(es, i, k) >= RECOVERY_MAX_ATTEMPTS
  {
    TimeoutFreezes(cfg, es, i + 1, k);
    RunKeepsSup(cfg, es, k);
    HandledSplits(es, i, k);
  }

  lemma {:induction false} HandledSplits(es: seq<Event>, lo: nat, hi: nat)
    requires lo < hi <= |es|
    ensures Handled(es, lo, hi) == Handled(es, lo + 1, hi) + if es[lo].RecoveryEvent? then 1 else 0
    decreases hi
  {
    if hi > lo + 1 {
      HandledSplits(es, lo, hi - 1);
    }
  }

  // ---- What a run tells the Logger ----

  /** The lines event `e` sends, `lastFault` being the fault last found when it arrives. */
  function LinesOfEvent(id: SensorId, lastFault: FaultType, n: Node, e: Event): seq<FaultEvent> {
    match e
    case DetectorEval(_) => []
    case RecoveryEvent(now, _) => SyntheticLines(id, lastFault, n, now)
  }

  /** The synthetic lines sent by the first `k` events of a run. */
  function Sent(cfg: FdiConfig, id: SensorId, faults: seq<FaultType>, es: seq<Event>, k: nat): seq<FaultEvent>
    requires k <= |es| <= |faults|
  {
    if k == 0 then []
    else Sent(cfg, id, faults, es, k - 1) + LinesOfEvent(id, faults[k - 1], After(cfg, es, k - 1), es[k - 1])
  }

  function WithReason(lines: seq<FaultEvent>, reason: int): seq<FaultEvent> {
    if lines == [] then []
    else WithReason(lines[..|lines| - 1], reason)
         + if lines[|lines| - 1].syntheticReason == reason then [lines[|lines| - 1]] else []
  }

  /** Lines of a sensor in state `state` whose attempts are numbered from `first` on. */
  ghost predicate CountFrom(lines: seq<FaultEvent>, id: SensorId, state: SensorState, first: nat) {
    forall j :: 0 <= j < |lines| ==>
                  lines[j].id == id && lines[j].state == state && lines[j].probeAttempts == first + j
  }

  /** Timeout lines numbered 1, 2, 3, ... up to the attempts on record, and permanent-failure lines numbered
      5, 6, 7, ... up to the same. */
  ghost predicate Numbered(timeouts: seq<FaultEvent>, failures: seq<FaultEvent>, id: SensorId, n: Node) {
    && |timeouts| == n.sup.attempts && |failures| == Max(n.sup.attempts - 4, 0)
    && CountFrom(timeouts, id, n.fsm.state, 1) && CountFrom(failures, id, n.fsm.state, 5)
  }

  /** Such lines, and nothing else. */
  ghost predicate TellsTheRun(lines: seq<FaultEvent>, id: SensorId, n: Node) {
    var timeouts, failures := WithReason(lines, 1), WithReason(lines, 2);
    && |lines| == |timeouts| + |failures|
    && Numbered(timeouts, failures, id, n)
  }

  lemma {:induction false} WithReasonSplits(a: seq<FaultEvent>, b: seq<FaultEvent>, reason: int)
    ensures WithReason(a + b, reason) == WithReason(a, reason) + WithReason(b, reason)
    decreases |b|
  {
    if b == [] {
      assert a + b == a;
    } else {
      WithReasonSplits(a, b[..|b| - 1], reason);
      assert (a + b)[..|a + b| - 1] == a + b[..|b| - 1];
    }
  }

  lemma WithReasonOne(l: FaultEvent, reason: int)
    ensures WithReason([l], reason) == if l.syntheticReason == reason then [l] else []
  {
    assert [l][..0] == [];
  }

  /** The timeout line, if any, comes first, and the permanent-failure line, if any, after it. */
  lemma ReasonsOfStep(more: seq<FaultEvent>, reason: int)
    requires |more| <= 2 && forall j :: 0 <= j < |more| ==> more[j].syntheticReason == j + 1
    requires 1 <= reason <= 2
    ensures WithReason(more, reason) == if reason == 1 then more[..Min(|more|, 1)] else more[Min(|more|, 1)..]
  {
    if |more| == 1 {
      WithReasonOne(more[0], reason);
      assert more == [more[0]];
    } else if |more| == 2 {
      WithReasonOne(more[0], reason);
      WithReasonOne(more[1], reason);
      WithReasonSplits([more[0]], [more[1]], reason);
      assert more == [more[0]] + [more[1]];
    }
  }

  lemma CountOn(lines: seq<FaultEvent>, more: seq<FaultEvent>, id: SensorId, state: SensorState, state': SensorState,
                first: nat)
    requires CountFrom(lines, id, state, first) && (lines == [] || state' == state)
    requires CountFrom(more, id, state', first + |lines|)
    ensures CountFrom(lines + more, id, state', first)
  {
  }

  lemma NumberedOneMore(timeouts: seq<FaultEvent>, failures: seq<FaultEvent>, id: SensorId, lastFault: FaultType,
                        n: Node, n': Node, now: uint64, more: seq<FaultEvent>)
    requires Numbered(timeouts, failures, id, n) && TellsTheStep(more, id, lastFault, n, n', now)
    requires n'.sup.attempts >= n.sup.attempts && (n.sup.attempts > 0 ==> n'.fsm == n.fsm)
    ensures Numbered(timeouts + more[..Min(|more|, 1)], failures + more[Min(|more|, 1)..], id, n')
  {
    CountOn(timeouts, more[..Min(|more|, 1)], id, n.fsm.state, n'.fsm.state, 1);
    CountOn(failures, more[Min(|more|, 1)..], id, n.fsm.state, n'.fsm.state, 5);
  }

  lemma TellsOneMore(lines: seq<FaultEvent>, id: SensorId, lastFault: FaultType, n: Node, n': Node, now: uint64,
                     more: seq<FaultEvent>)
    requires TellsTheRun(lines, id, n) && TellsTheStep(more, id, lastFault, n, n', now)
    requires n'.sup.attempts >= n.sup.attempts && (n.sup.attempts > 0 ==> n'.fsm == n.fsm)
    ensures TellsTheRun(lines + more, id, n')
  {
    WithReasonSplits(lines, more, 1);
    WithReasonSplits(lines, more, 2);
    ReasonsOfStep(more, 1);
    ReasonsOfStep(more, 2);
    NumberedOneMore(WithReason(lines, 1), WithReason(lines, 2), id, lastFault, n, n', now, more);
  }

  /** In a run attempts are never taken back. */
  lemma AttemptsOnlyGrow(cfg: FdiConfig, es: seq<Event>, k: nat)
    requires k < |es| && Clocked(es)
    ensures var n, n' := After(cfg, es, k), After(cfg, es, k + 1);
            n'.sup.attempts >= n.sup.attempts && (n.sup.attempts > 0 ==> n'.fsm == n.fsm)
  {
    if After(cfg, es, k).sup.attempts > 0 {
      FrozenStep(cfg, es, k);
    }
  }

  lemma EventTellsTheStep(cfg: FdiConfig, id: SensorId, lastFault: FaultType, n: Node, e: Event) returns (now: uint64)
    ensures TellsTheStep(LinesOfEvent(id, lastFault, n, e), id, lastFault, n, StepNode(cfg, n, e), now)
  {
    match e {
      case DetectorEval(_) =>
        now := 0;
      case RecoveryEvent(at, detected) =>
        LinesTellTheStep(cfg, id, lastFault, n, at, detected);
        now := at;
    }
  }

  lemma StepTellsTheRun(cfg: FdiConfig, id: SensorId, lastFault: FaultType, n: Node, e: Event, lines: seq<FaultEvent>)
    requires TellsTheRun(lines, id, n)
    requires var n' := StepNode(cfg, n, e); n'.sup.attempts >= n.sup.attempts && (n.sup.attempts > 0 ==> n'.fsm == n.fsm)
    ensures TellsTheRun(lines + LinesOfEvent(id, lastFault, n, e), id, StepNode(cfg, n, e))
  {
    var now := EventTellsTheStep(cfg, id, lastFault, n, e);
    TellsOneMore(lines, id, lastFault, n, StepNode(cfg, n, e), now, LinesOfEvent(id, lastFault, n, e));
  }

  /** The Logger can read the run off its lines: in every run a sensor's timeout lines are numbered 1, 2, 3, ...
      without a gap or a repeat, its permanent-failure lines are exactly those of the fifth and every later
      timeout, and all of them show the state the trial is frozen in. */
  lemma {:induction false} TimeoutLinesAreNumbered(cfg: FdiConfig, id: SensorId, faults: seq<FaultType>, es: seq<Event>,
                                                   k: nat)
    requires k <= |es| <= |faults| && Clocked(es)
    ensures TellsTheRun(Sent(cfg, id, faults, es, k), id, After(cfg, es, k))
  {
    if k > 0 {
      TimeoutLinesAreNumbered(cfg, id, faults, es, k - 1);
      AttemptsOnlyGrow(cfg, es, k - 1);
      StepTellsTheRun(cfg, id, faults[k - 1], After(cfg, es, k - 1), es[k - 1], Sent(cfg, id, faults, es, k - 1));
    }
  }

  /** Counting from the first event that times out (number i): every event handled since has sent one timeout
      line, and every one after the fourth a permanent-failure line as well. */
  lemma EveryLateEventIsTold(cfg: FdiConfig, id: SensorId, faults: seq<FaultType>, es: seq<Event>, i: nat, k: nat)
    requires i < k <= |es| <= |faults| && Clocked(es)
    requires After(cfg, es, i).sup.attempts == 0 && After(cfg, es, i + 1).sup.attempts > 0
    ensures var lines := Sent(cfg, id, faults, es, k);
            |WithReason(lines, 1)| == Handled(es, i, k) && |WithReason(lines, 2)| == Max(Handled(es, i, k) - 4, 0)
  {
    TimeoutLinesAreNumbered(cfg, id, faults, es, k);
    TimeoutFreezes(cfg, es, i + 1, k);
    HandledSplits(es, i, k);
    FirstTimeout(cfg, es, i);
  }

  lemma FirstTimeout(cfg: FdiConfig, es: seq<Event>, i: nat)
    requires i < |es| && After(cfg, es, i).sup.attempts == 0 && After(cfg, es, i + 1).sup.attempts > 0
    ensures es[i].RecoveryEvent? && After(cfg, es, i + 1).sup.attempts == 1
  {
  }

  /** The comments promise that a timeout forces the sensor back to EXCLUDED. It does not: an event in a trial
      ends EXCLUDED exactly when the trial is within its time and the evaluation finds a fault. */
  lemma TrialEventExcludesIff(cfg: FdiConfig, n: Node, now: uint64, detected: FaultType)
    requires OnTrial(n.fsm.state)
    ensures Recovered(cfg, n, now, detected).fsm.state.Excluded? <==> !TimedOut(n.sup, now) && !detected.NoFault?
    ensures TimedOut(n.sup, now) ==> Recovered(cfg, n, now, detected).fsm == n.fsm
  {
  }

  /** A run that shows it: three stuck results, a probe, and one late event leave the sensor PROBING. */
  lemma TimeoutDoesNotExclude() returns (es: seq<Event>)
    ensures Clocked(es) && |es| == 5
    ensures StateAfter(US_CONFIG, es, 3).Excluded?
    ensures StateAfter(US_CONFIG, es, 5).Probing? && After(US_CONFIG, es, 5).sup.attempts == 1
  {
    es := [DetectorEval(Stuck), DetectorEval(Stuck), DetectorEval(Stuck),
           RecoveryEvent(0, Stuck), RecoveryEvent(2_000_001, Stuck)];
    assert After(US_CONFIG, es, 1) == START.(fsm := Fsm(Suspect, 1, 0, 0));
    assert After(US_CONFIG, es, 2) == START.(fsm := Fsm(Suspect, 2, 0, 0));
    assert After(US_CONFIG, es, 3) == START.(fsm := Fsm(Excluded, 3, 0, 0));
    assert After(US_CONFIG, es, 4) == START.(fsm := Fsm(Probing, 3, 0, 0));
  }

  // ---- Probe sessions ----

  /** Event s starts a probe. */
  ghost predicate StartsProbe(cfg: FdiConfig, es: seq<Event>, s: int) {
    0 <= s < |es| && es[s].RecoveryEvent? && StateAfter(cfg, es, s).Excluded?
  }

  /** Event t comes before the session that event s started has timed out. */
  ghost predicate InTime(es: seq<Event>, s: int, t: int) {
    && 0 <= s < t < |es| && es[s].RecoveryEvent? && es[t].RecoveryEvent?
    && es[t].now - es[s].now <= RECOVERY_TIMEOUT_US
  }

  /** Event t decides the session: it is in time, and either finds a fault or completes the clean results. */
  ghost predicate Decisive(cfg: FdiConfig, es: seq<Event>, s: int, t: int) {
    InTime(es, s, t) && (!es[t].detected.NoFault? || Handled(es, s + 1, t + 1) >= CleansToReintegrate(cfg))
  }

  /** The session started by event s is still running before event k. */
  ghost predicate Open(cfg: FdiConfig, es: seq<Event>, s: int, k: int)
    requires 0 <= s < k <= |es| && es[s].RecoveryEvent?
  {
    var n := After(cfg, es, k);
    && OnTrial(n.fsm.state) && n.sup.probeStartedUs == es[s].now
    && (n.sup.attempts == 0 ==> n.fsm.validationStreak == Handled(es, s + 1, k))
    && (n.sup.attempts == 0 <==> forall t :: s < t < k && es[t].RecoveryEvent? ==> InTime(es, s, t))
  }

  /** Until a decisive event arrives the session stays open. */
  lemma {:induction false} OpenUntilDecided(cfg: FdiConfig, es: seq<Event>, s: nat, k: nat)
    requires Clocked(es) && StartsProbe(cfg, es, s) && s < k <= |es|
    requires forall t :: s < t < k ==> !Decisive(cfg, es, s, t)
    ensures Open(cfg, es, s, k)
    decreases k
  {
    if k == s + 1 {
      EveryExcludedEventProbes(cfg, es, s);
    } else {
      OpenUntilDecided(cfg, es, s, k - 1);
      RunKeepsSup(cfg, es, k - 1);
      assert !Decisive(cfg, es, s, k - 1);
      OpenStep(cfg, es, s, k - 1);
    }
  }

  lemma OpenStep(cfg: FdiConfig, es: seq<Event>, s: nat, k: nat)
    requires Clocked(es) && s < k < |es| && es[s].RecoveryEvent? && Open(cfg, es, s, k)
    requires SupInvariant(es, k, After(cfg, es, k)) && CounterInvariant(cfg, After(cfg, es, k).fsm)
    requires !Decisive(cfg, es, s, k)
    ensures Open(cfg, es, s, k + 1)
  {
    var n, n' := After(cfg, es, k), After(cfg, es, k + 1);
    if es[k].RecoveryEvent? {
      assert InTime(es, s, k) <==> !TimedOut(n.sup, es[k].now);
      if InTime(es, s, k) {
        assert forall t :: s < t < k && es[t].RecoveryEvent? ==> InTime(es, s, t);
        assert n.sup.attempts == 0;
      }
    }
  }

  /** The first decisive event ends the session: EXCLUDED on a fault, HEALTHY otherwise. */
  lemma FirstDecisiveEnds(cfg: FdiConfig, es: seq<Event>, s: nat, t: nat)
    requires Clocked(es) && StartsProbe(cfg, es, s) && Decisive(cfg, es, s, t)
    requires forall u :: s < u < t ==> !Decisive(cfg, es, s, u)
    ensures StateAfter(cfg, es, t + 1) == if es[t].detected.NoFault? then Healthy else Excluded
  {
    OpenUntilDecided(cfg, es, s, t);
    RunKeepsSup(cfg, es, t);
    assert forall u :: s < u < t && es[u].RecoveryEvent? ==> InTime(es, s, u);
  }

  lemma {:induction false} FirstDecisive(cfg: FdiConfig, es: seq<Event>, s: nat, t: nat) returns (first: nat)
    requires Decisive(cfg, es, s, t)
    ensures s < first <= t && Decisive(cfg, es, s, first)
    ensures forall u :: s < u < first ==> !Decisive(cfg, es, s, u)
    decreases t
  {
    if u :| s < u < t && Decisive(cfg, es, s, u) {
      first := FirstDecisive(cfg, es, s, u);
    } else {
      first := t;
    }
  }

  /** A probe session leaves PROBING/VALIDATING within the first N events exactly when one of them is decisive;
      otherwise, and in particular after a timeout, it never ends. */
  lemma SessionEndsIffDecided(cfg: FdiConfig, es: seq<Event>, s: nat)
    requires Clocked(es) && StartsProbe(cfg, es, s)
    ensures (exists k :: s < k <= |es| && !OnTrial(StateAfter(cfg, es, k)))
            <==> exists t :: s < t < |es| && Decisive(cfg, es, s, t)
  {
    if t :| s < t < |es| && Decisive(cfg, es, s, t) {
      var first := FirstDecisive(cfg, es, s, t);
      FirstDecisiveEnds(cfg, es, s, first);
      assert !OnTrial(StateAfter(cfg, es, first + 1));
    } else {
      forall k | s < k <= |es|
        ensures OnTrial(StateAfter(cfg, es, k))
      {
        OpenUntilDecided(cfg, es, s, k);
      }
    }
  }

  /** Probing terminates: a session whose events are all in time is over after max(R, 2) of them. */
  lemma InTimeSessionEnds(cfg: FdiConfig, es: seq<Event>, s: nat, t: nat)
    requires Clocked(es) && StartsProbe(cfg, es, s) && InTime(es, s, t)
    requires Handled(es, s + 1, t + 1) == CleansToReintegrate(cfg)
    ensures exists k :: s < k <= t + 1 && (StateAfter(cfg, es, k).Excluded? || StateAfter(cfg, es, k).Healthy?)
  {
    var first := FirstDecisive(cfg, es, s, t);
    FirstDecisiveEnds(cfg, es, s, first);
    assert s < first + 1 <= t + 1;
  }

  // ---- Reintegration ----

  /** Between the probe that event s started and event k, every event Recovery handled was clean and in time. */
  ghost predicate CleanSession(cfg: FdiConfig, es: seq<Event>, s: int, k: int) {
    && StartsProbe(cfg, es, s) && s < k <= |es|
    && forall t :: s < t < k && es[t].RecoveryEvent? ==> InTime(es, s, t) && es[t].detected.NoFault?
  }

  /** Throughout the events s+1, ..., k-1 the sensor is on one trial that has not timed out: no probe starts
      after the one event s started, and every event Recovery handles is an evaluation. */
  ghost predicate OneTrial(cfg: FdiConfig, es: seq<Event>, s: int, k: int) {
    forall t :: 0 <= s < t < k <= |es| ==>
                  && OnTrial(StateAfter(cfg, es, t)) && After(cfg, es, t).sup.attempts == 0
                  && !StartsProbe(cfg, es, t)
  }

  /** The last probe, and a clean session of exactly the required number of evaluations since. */
  ghost predicate EarnedBy(cfg: FdiConfig, es: seq<Event>, s: int, k: int) {
    && CleanSession(cfg, es, s, k) && OneTrial(cfg, es, s, k)
    && Handled(es, s + 1, k) == CleansToReintegrate(cfg)
  }

  /** The trial at event k is the one event s started, and its streak counts its evaluations. */
  ghost predicate TrialSince(cfg: FdiConfig, es: seq<Event>, s: int, k: int) {
    && CleanSession(cfg, es, s, k) && OneTrial(cfg, es, s, k)
    && Handled(es, s + 1, k) == After(cfg, es, k).fsm.validationStreak
    && After(cfg, es, k).sup.probeStartedUs == es[s].now
  }

  lemma TrialBegins(cfg: FdiConfig, es: seq<Event>, s: nat)
    requires Clocked(es) && StartsProbe(cfg, es, s)
    ensures TrialSince(cfg, es, s, s + 1)
  {
    EveryExcludedEventProbes(cfg, es, s);
    RunKeepsSup(cfg, es, s + 1);
  }

  lemma TrialContinues(cfg: FdiConfig, es: seq<Event>, s: nat, k: nat)
    requires k < |es| && Clocked(es) && !StartsProbe(cfg, es, k) && TrialSince(cfg, es, s, k)
    requires OnTrial(StateAfter(cfg, es, k + 1)) && After(cfg, es, k + 1).sup.attempts == 0
    ensures TrialSince(cfg, es, s, k + 1)
  {
    TrialPredecessor(cfg, es, k);
  }

  /** Every trial that has not timed out descends from a probe followed by clean results only. */
  lemma {:induction false} TrialHasCleanSession(cfg: FdiConfig, es: seq<Event>, k: nat) returns (s: nat)
    requires k <= |es| && Clocked(es)
    requires OnTrial(StateAfter(cfg, es, k)) && After(cfg, es, k).sup.attempts == 0
    ensures TrialSince(cfg, es, s, k)
  {
    assert k > 0;
    if StartsProbe(cfg, es, k - 1) {
      TrialBegins(cfg, es, k - 1);
      s := k - 1;
    } else {
      TrialPredecessor(cfg, es, k - 1);
      s := TrialHasCleanSession(cfg, es, k - 1);
      TrialContinues(cfg, es, s, k - 1);
    }
  }

  /** A trial that nothing has just started was a trial one event earlier, and that event was clean and in
      time if Recovery handled it. */
  lemma TrialPredecessor(cfg: FdiConfig, es: seq<Event>, k: nat)
    requires k < |es| && Clocked(es) && !StartsProbe(cfg, es, k)
    requires OnTrial(StateAfter(cfg, es, k + 1)) && After(cfg, es, k + 1).sup.attempts == 0
    ensures var n, n' := After(cfg, es, k), After(cfg, es, k + 1);
            && OnTrial(n.fsm.state) && n.sup == n'.sup
            && n'.fsm.validationStreak == n.fsm.validationStreak + (if es[k].RecoveryEvent? then 1 else 0)
            && (es[k].RecoveryEvent? ==> es[k].detected.NoFault? && n.sup.probeStartedUs <= es[k].now
                                         && es[k].now - n.sup.probeStartedUs <= RECOVERY_TIMEOUT_US)
  {
    RunKeepsSup(cfg, es, k);
    FaultedIsNeverVisible(cfg, After(cfg, es, k).fsm, es[k].detected);
  }

  /** The event that makes a sensor usable again is the last clean one of a trial still within its time. */
  lemma ReintegratingStep(cfg: FdiConfig, es: seq<Event>, k: nat)
    requires k < |es| && Clocked(es)
    requires RecoveryOwned(StateAfter(cfg, es, k)) && Usable(StateAfter(cfg, es, k + 1))
    ensures var n := After(cfg, es, k);
            && OnTrial(n.fsm.state) && n.sup.attempts == 0
            && n.fsm.validationStreak + 1 == CleansToReintegrate(cfg)
            && es[k].RecoveryEvent? && es[k].detected.NoFault? && n.sup.probeStartedUs <= es[k].now
            && es[k].now - n.sup.probeStartedUs <= RECOVERY_TIMEOUT_US
    ensures After(cfg, es, k + 1).fsm == INIT
  {
    RunKeepsSup(cfg, es, k);
  }

  lemma TrialIsEarned(cfg: FdiConfig, es: seq<Event>, s: nat, k: nat)
    requires k < |es| && TrialSince(cfg, es, s, k)
    requires var n := After(cfg, es, k);
             && OnTrial(n.fsm.state) && n.sup.attempts == 0
             && n.fsm.validationStreak + 1 == CleansToReintegrate(cfg)
             && es[k].RecoveryEvent? && es[k].detected.NoFault?
             && es[k].now - n.sup.probeStartedUs <= RECOVERY_TIMEOUT_US
    ensures EarnedBy(cfg, es, s, k + 1)
  {
    assert !StartsProbe(cfg, es, k);
  }

  /** Reintegration is earned: whenever Recovery returns a sensor to HEALTHY, the last probe that was started
      has been followed by exactly max(R, 2) evaluations of the sensor on trial, all of them clean and within
      the timeout, and by no other event that Recovery handled. */
  lemma ReintegrationIsEarned(cfg: FdiConfig, es: seq<Event>, k: nat)
    requires 0 < k <= |es| && Clocked(es)
    requires RecoveryOwned(StateAfter(cfg, es, k - 1)) && Usable(StateAfter(cfg, es, k))
    ensures exists s :: EarnedBy(cfg, es, s, k)
    ensures After(cfg, es, k).fsm == INIT
  {
    ReintegratingStep(cfg, es, k - 1);
    var s := TrialHasCleanSession(cfg, es, k - 1);
    TrialIsEarned(cfg, es, s, k - 1);
  }
}
