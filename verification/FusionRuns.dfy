/** Whole runs of the fusion engine: evidence age, holdover drift and growing caution. */
module FusionRuns {
  import opened SensorTypes
  import opened SensorBuffers
  import opened Fusion

  // ---- Runs ----

  /** The engine's state before call number `k`. */
  function Before(sqrt: real -> real, calls: seq<Call>, k: nat): FusionState
    requires k <= |calls|
  {
    if k == 0 then FUSION_INIT else Called(sqrt, Before(sqrt, calls, k - 1), calls[k - 1]).0
  }

  /** What call number `k` reports. */
  function Report(sqrt: real -> real, calls: seq<Call>, k: nat): FusionResult
    requires k < |calls|
  {
    Called(sqrt, Before(sqrt, calls, k), calls[k]).1
  }

  ghost predicate Clocked(calls: seq<Call>) {
    forall i, j :: 0 <= i <= j < |calls| ==> calls[i].now <= calls[j].now
  }

  /** Some ultrasonic sensor contributes to this call. */
  predicate Contact(c: Call) {
    FreshSample(c.us1, c.now).Some? || FreshSample(c.us2, c.now).Some?
  }

  predicate BothContact(c: Call) {
    FreshSample(c.us1, c.now).Some? && FreshSample(c.us2, c.now).Some?
  }

  /** No ultrasonic sensor contributes to any of the calls lo, ..., hi-1. */
  ghost predicate Blind(calls: seq<Call>, lo: int, hi: int) {
    forall j :: 0 <= lo <= j < hi <= |calls| ==> !Contact(calls[j])
  }

  /** The number of the last call before `k` that had contact; -1 if there was none. */
  function LastContact(calls: seq<Call>, k: nat): (m: int)
    requires k <= |calls|
    ensures -1 <= m < k
    ensures m >= 0 ==> Contact(calls[m])
    ensures Blind(calls, m + 1, k)
  {
    if k == 0 then -1 else if Contact(calls[k - 1]) then k - 1 else LastContact(calls, k - 1)
  }

  lemma TravelIsNotNegative(v: real, dt: real)
    requires dt >= 0.0
    ensures Travel(v, dt) >= 0.0
  {
    assert Abs(v) * dt >= 0.0;
  }

  /** What a holdover call reports, `held` microseconds after the last contact. */
  function HoldoverReport(fs: FusionState, held: uint64): FusionResult {
    Result(Holdover, Floor0(fs.lastGoodCm), HoldoverUncertainty(held), 0, held, false)
  }

  lemma HoldStep(sqrt: real -> real, fs: FusionState, c: Call)
    requires !Contact(c) && CanHold(fs, c.now)
    ensures Called(sqrt, fs, c) == (Coasted(fs, LongAccel(c.imu1, c.imu2, c.now), c.now),
                                    HoldoverReport(Coasted(fs, LongAccel(c.imu1, c.imu2, c.now), c.now),
                                                   Sub64(c.now, fs.lastGoodUs)))
  {
  }

  lemma ContactStep(sqrt: real -> real, fs: FusionState, c: Call)
    requires Contact(c)
    ensures Called(sqrt, fs, c).0 == Refreshed(Called(sqrt, fs, c).1.distanceCm, c.now)
  {
  }

  lemma CoastedFalls(fs: FusionState, accel: Option<real>, now: uint64)
    ensures Coasted(fs, accel, now).lastGoodCm <= fs.lastGoodCm
  {
    TravelIsNotNegative(Coasted(fs, accel, now).velocityMps, StepSeconds(fs, now));
  }

  /** A call without contact leaves the memory of the last contact alone and never raises the distance. */
  lemma BlindStep(sqrt: real -> real, fs: FusionState, c: Call)
    requires !Contact(c)
    ensures var fs' := Called(sqrt, fs, c).0;
            && fs'.haveLastGood == fs.haveLastGood && fs'.lastGoodUs == fs.lastGoodUs
            && fs'.lastGoodCm <= fs.lastGoodCm
            && (fs'.lastIntegrateUs == fs.lastIntegrateUs || (fs.haveLastGood && fs'.lastIntegrateUs == c.now))
  {
    CoastedFalls(fs, LongAccel(c.imu1, c.imu2, c.now), c.now);
  }

  /** The engine's memory is its last contact, except for what it has integrated since. */
  ghost predicate Remembers(sqrt: real -> real, calls: seq<Call>, k: nat)
    requires k <= |calls|
  {
    var fs, m := Before(sqrt, calls, k), LastContact(calls, k);
    && (fs.haveLastGood <==> m >= 0)
    && (m >= 0 ==>
          && fs.lastGoodUs == calls[m].now
          && calls[m].now <= fs.lastIntegrateUs <= calls[k - 1].now
          && fs.lastGoodCm <= Report(sqrt, calls, m).distanceCm)
  }

  lemma {:induction false} RunRemembers(sqrt: real -> real, calls: seq<Call>, k: nat)
    requires k <= |calls| && Clocked(calls)
    ensures Remembers(sqrt, calls, k)
  {
    if k > 0 {
      RunRemembers(sqrt, calls, k - 1);
      if Contact(calls[k - 1]) {
        ContactStep(sqrt, Before(sqrt, calls, k - 1), calls[k - 1]);
      } else {
        BlindStep(sqrt, Before(sqrt, calls, k - 1), calls[k - 1]);
      }
    }
  }

  /** The mode is decided by the contributors of this call and the age of the last contact, whatever else
      happened in the run. */
  lemma ModeIsDecidedByContact(sqrt: real -> real, calls: seq<Call>, k: nat)
    requires k < |calls| && Clocked(calls)
    ensures var r, m := Report(sqrt, calls, k), LastContact(calls, k);
            && (r.mode.Full? <==> BothContact(calls[k]))
            && (r.mode.Single? <==> Contact(calls[k]) && !BothContact(calls[k]))
            && (r.mode.Holdover? <==> !Contact(calls[k]) && m >= 0 && calls[k].now - calls[m].now <= HOLDOVER_MAX_US)
            && (r.valid <==> !r.mode.Unsafe?)
  {
    RunRemembers(sqrt, calls, k);
  }

  // ---- The age of the evidence ----

  /** The range of call k rests on the newest sample of this sensor, as seen by call m. */
  ghost predicate RestsOn(v: SensorView, m: Call, k: Call) {
    && FreshSample(v, m.now).Some?
    && Usable(v.state) && v.log != []
    && m.now - v.log[|v.log| - 1].timestampUs <= STALE_SAMPLE_US
    && k.now - m.now <= HOLDOVER_MAX_US
    && k.now - v.log[|v.log| - 1].timestampUs <= STALE_SAMPLE_US + HOLDOVER_MAX_US
  }

  /** The range a contact reports is read off its samples: the survivor's reading in SINGLE, a value between
      the two readings in FULL. */
  ghost predicate ReadOffSamples(r: FusionResult, c: Call)
    requires Contact(c)
  {
    if BothContact(c) then
      var x, y := Primary(FreshSample(c.us1, c.now).value), Primary(FreshSample(c.us2, c.now).value);
      Near(x, y) <= r.distanceCm <= Near(x, y) + Abs(x - y)
    else r.distanceCm == Primary(FreshSample(Survivor(c), c.now).value)
  }

  lemma ContactReadsSamples(sqrt: real -> real, fs: FusionState, c: Call)
    requires Contact(c) && IsSqrt(sqrt)
    ensures ReadOffSamples(Called(sqrt, fs, c).1, c)
  {
    if BothContact(c) {
      MeanLiesBetween(sqrt, Contribution(c.us1, c.now).value, Contribution(c.us2, c.now).value);
    }
  }

  lemma FreshRestsOn(v: SensorView, m: Call, k: Call)
    requires FreshSample(v, m.now).Some? && k.now - m.now <= HOLDOVER_MAX_US
    ensures RestsOn(v, m, k)
  {
  }

  /** A range carried over from contact m never exceeds what call m reported. */
  lemma CarriedDistanceOnlyFalls(sqrt: real -> real, calls: seq<Call>, m: nat, k: nat)
    requires m < k < |calls| && Clocked(calls) && IsSqrt(sqrt) && NonNegativeRanges(calls)
    requires Report(sqrt, calls, k).mode.Holdover? && m == LastContact(calls, k + 1)
    ensures Report(sqrt, calls, k).distanceCm <= Report(sqrt, calls, m).distanceCm
  {
    ModeIsDecidedByContact(sqrt, calls, k);
    HoldCall(sqrt, calls, m, k);
    DistanceSinceContact(sqrt, calls, m, k);
    ContactDistance(sqrt, calls, m);
  }

  lemma DistanceSinceContact(sqrt: real -> real, calls: seq<Call>, m: nat, k: nat)
    requires k < |calls| && Clocked(calls) && m == LastContact(calls, k + 1)
    ensures Before(sqrt, calls, k + 1).lastGoodCm <= Report(sqrt, calls, m).distanceCm
  {
    RunRemembers(sqrt, calls, k + 1);
  }

  lemma EvidenceIsRead(sqrt: real -> real, calls: seq<Call>, m: int)
    requires -1 <= m < |calls| && IsSqrt(sqrt) && (m >= 0 ==> Contact(calls[m]))
    ensures m >= 0 ==> ReadOffSamples(Report(sqrt, calls, m), calls[m])
  {
    if m >= 0 {
      ContactReadsSamples(sqrt, Before(sqrt, calls, m), calls[m]);
    }
  }

  /** Bounded evidence age: whenever the engine reports a valid range, that range rests on a sample that was at
      most 300 ms old when some call m, at most 1.5 s ago, took it from a usable ultrasonic sensor; what call m
      reported was read off the samples, no sensor has contributed since, and the distance has not grown since. */
  lemma EvidenceIsRecent(sqrt: real -> real, calls: seq<Call>, k: nat) returns (m: nat)
    requires k < |calls| && Clocked(calls) && Report(sqrt, calls, k).valid
    ensures m <= k && Blind(calls, m + 1, k + 1)
    ensures RestsOn(calls[m].us1, calls[m], calls[k]) || RestsOn(calls[m].us2, calls[m], calls[k])
    ensures IsSqrt(sqrt) ==> ReadOffSamples(Report(sqrt, calls, m), calls[m])
    ensures IsSqrt(sqrt) && NonNegativeRanges(calls) ==>
              Report(sqrt, calls, k).distanceCm <= Report(sqrt, calls, m).distanceCm
  {
    if IsSqrt(sqrt) {
      EvidenceIsRead(sqrt, calls, LastContact(calls, k + 1));
    }
    ModeIsDecidedByContact(sqrt, calls, k);
    m := LastContact(calls, k + 1);
    if m < k && IsSqrt(sqrt) && NonNegativeRanges(calls) {
      CarriedDistanceOnlyFalls(sqrt, calls, m, k);
    }
    if FreshSample(calls[m].us1, calls[m].now).Some? {
      FreshRestsOn(calls[m].us1, calls[m], calls[k]);
    } else {
      FreshRestsOn(calls[m].us2, calls[m], calls[k]);
    }
  }

  /** Ultrasonic readings are distances. */
  ghost predicate NonNegativeRanges(calls: seq<Call>) {
    forall j :: 0 <= j < |calls| ==> NonNegativeRange(calls[j].us1) && NonNegativeRange(calls[j].us2)
  }

  ghost predicate NonNegativeRange(v: SensorView) {
    v.log != [] ==> Primary(v.log[|v.log| - 1]) >= 0.0
  }

  lemma ContactDistance(sqrt: real -> real, calls: seq<Call>, m: nat)
    requires m < |calls| && Contact(calls[m]) && IsSqrt(sqrt) && NonNegativeRanges(calls)
    ensures Report(sqrt, calls, m).distanceCm >= 0.0
  {
    var c := calls[m];
    assert NonNegativeRange(c.us1) && NonNegativeRange(c.us2);
    if BothContact(c) {
      var a, b := Contribution(c.us1, c.now).value, Contribution(c.us2, c.now).value;
      MeanLiesBetween(sqrt, a, b);
    }
  }

  /** Once UNSAFE, every later call is UNSAFE until an ultrasonic sensor contributes again. */
  lemma UnsafeUntilContact(sqrt: real -> real, calls: seq<Call>, i: nat, k: nat)
    requires i <= k < |calls| && Clocked(calls)
    requires Report(sqrt, calls, i).mode.Unsafe? && Blind(calls, i + 1, k + 1)
    ensures Report(sqrt, calls, k).mode.Unsafe?
  {
    ModeIsDecidedByContact(sqrt, calls, i);
    ModeIsDecidedByContact(sqrt, calls, k);
    SameLastContact(calls, i, k);
  }

  lemma {:induction false} SameLastContact(calls: seq<Call>, i: nat, k: nat)
    requires i <= k <= |calls| && Blind(calls, i, k)
    ensures LastContact(calls, k) == LastContact(calls, i)
    decreases k
  {
    if k > i {
      SameLastContact(calls, i, k - 1);
    }
  }

  // ---- Holding over ----

  /** Call m had contact and calls m+1, ..., k hold over from it. */
  ghost predicate HoldsOver(calls: seq<Call>, m: nat, k: nat) {
    && m <= k < |calls| && Contact(calls[m]) && Blind(calls, m + 1, k + 1)
    && calls[k].now - calls[m].now <= HOLDOVER_MAX_US
  }

  function AccelAt(calls: seq<Call>, j: nat): Option<real>
    requires j < |calls|
  {
    LongAccel(calls[j].imu1, calls[j].imu2, calls[j].now)
  }

  /** The state that coasting from `fs`, the state after call m, leaves behind after call k. */
  function CoastRun(fs: FusionState, calls: seq<Call>, m: nat, k: nat): FusionState
    requires k < |calls|
  {
    if k <= m then fs else Coasted(CoastRun(fs, calls, m, k - 1), AccelAt(calls, k), calls[k].now)
  }

  /** Throughout the episode the engine remembers contact m. */
  lemma EpisodeRemembers(sqrt: real -> real, calls: seq<Call>, m: nat, k: nat)
    requires Clocked(calls) && m < k < |calls| && HoldsOver(calls, m, k)
    ensures CanHold(Before(sqrt, calls, k), calls[k].now)
    ensures Before(sqrt, calls, k).lastGoodUs == calls[m].now <= calls[k].now
  {
    RunRemembers(sqrt, calls, k);
    SameLastContact(calls, m + 1, k);
  }

  lemma HoldCall(sqrt: real -> real, calls: seq<Call>, m: nat, k: nat)
    requires Clocked(calls) && m < k < |calls| && HoldsOver(calls, m, k)
    ensures Before(sqrt, calls, k + 1) == Coasted(Before(sqrt, calls, k), AccelAt(calls, k), calls[k].now)
    ensures Report(sqrt, calls, k) == HoldoverReport(Before(sqrt, calls, k + 1), calls[k].now - calls[m].now)
  {
    EpisodeRemembers(sqrt, calls, m, k);
    HoldStep(sqrt, Before(sqrt, calls, k), calls[k]);
  }

  /** A chain of coasting steps is a coasting run. */
  lemma {:induction false} CoastChain(states: seq<FusionState>, calls: seq<Call>, m: nat, k: nat)
    requires m <= k < |calls| && |states| == |calls| + 1
    requires forall j :: m < j <= k ==> states[j + 1] == Coasted(states[j], AccelAt(calls, j), calls[j].now)
    ensures states[k + 1] == CoastRun(states[m + 1], calls, m, k)
    decreases k
  {
    if m < k {
      CoastChain(states, calls, m, k - 1);
    }
  }

  lemma HoldCallWithin(sqrt: real -> real, calls: seq<Call>, m: nat, j: nat, k: nat)
    requires Clocked(calls) && m < j <= k && HoldsOver(calls, m, k)
    ensures Before(sqrt, calls, j + 1) == Coasted(Before(sqrt, calls, j), AccelAt(calls, j), calls[j].now)
  {
    assert calls[j].now <= calls[k].now;
    HoldCall(sqrt, calls, m, j);
  }

  function States(sqrt: real -> real, calls: seq<Call>): (states: seq<FusionState>)
    ensures |states| == |calls| + 1
    ensures forall i :: 0 <= i <= |calls| ==> states[i] == Before(sqrt, calls, i)
  {
    seq(|calls| + 1, i requires 0 <= i <= |calls| => Before(sqrt, calls, i))
  }

  lemma EpisodeCoasts(sqrt: real -> real, calls: seq<Call>, m: nat, k: nat)
    requires Clocked(calls) && HoldsOver(calls, m, k)
    ensures Before(sqrt, calls, k + 1) == CoastRun(Before(sqrt, calls, m + 1), calls, m, k)
  {
    var states := States(sqrt, calls);
    forall j | m < j <= k
      ensures states[j + 1] == Coasted(states[j], AccelAt(calls, j), calls[j].now)
    {
      HoldCallWithin(sqrt, calls, m, j, k);
    }
    CoastChain(states, calls, m, k);
  }

  /** A holdover episode is nothing but coasting from the contact, and its reports show the coasted state. */
  lemma HoldoverIsCoasting(sqrt: real -> real, calls: seq<Call>, m: nat, k: nat)
    requires Clocked(calls) && HoldsOver(calls, m, k)
    ensures var start := Refreshed(Report(sqrt, calls, m).distanceCm, calls[m].now);
            && Before(sqrt, calls, k + 1) == CoastRun(start, calls, m, k)
            && (m < k ==>
                  Report(sqrt, calls, k) == HoldoverReport(CoastRun(start, calls, m, k), calls[k].now - calls[m].now))
  {
    EpisodeCoasts(sqrt, calls, m, k);
    ContactStep(sqrt, Before(sqrt, calls, m), calls[m]);
    if m < k {
      HoldCall(sqrt, calls, m, k);
    }
  }

  // ---- Reports without contact ----

  /** A HOLDOVER report in numbers: the carried distance, never negative; 2 cm of uncertainty and 25 cm more for
      every second since the contact, whose age it shows. */
  lemma HoldoverReportIs(sqrt: real -> real, calls: seq<Call>, m: nat, k: nat)
    requires Clocked(calls) && m < k && HoldsOver(calls, m, k)
    ensures var r, held := Report(sqrt, calls, k), calls[k].now - calls[m].now;
            && r.mode.Holdover? && r.valid && !r.disagreement && r.contributors == 0 && EdgeIs(r)
            && 0 <= r.ageUs == held <= 1_500_000
            && r.distanceCm >= 0.0
            && (Before(sqrt, calls, k + 1).lastGoodCm >= 0.0 ==> r.distanceCm == Before(sqrt, calls, k + 1).lastGoodCm)
            && (Before(sqrt, calls, k + 1).lastGoodCm < 0.0 ==> r.distanceCm == 0.0)
            && r.uncertaintyCm == 2.0 + 25.0 * (held as real / 1000000.0)
  {
    HoldCall(sqrt, calls, m, k);
    EpisodeRemembers(sqrt, calls, m, k);
  }

  /** An UNSAFE report in numbers: nothing but the time since the last contact, 0 if there never was one and more
      than 1.5 s otherwise. */
  lemma UnsafeReportIs(sqrt: real -> real, calls: seq<Call>, k: nat)
    requires Clocked(calls) && k < |calls| && Report(sqrt, calls, k).mode.Unsafe?
    ensures var r, m := Report(sqrt, calls, k), LastContact(calls, k);
            && !r.valid && !r.disagreement && r.contributors == 0 && ZoneOf(r) == StopZone
            && r.distanceCm == r.uncertaintyCm == r.safeDistanceCm == 0.0
            && (m < 0 ==> r.ageUs == 0)
            && (m >= 0 ==> r.ageUs == calls[k].now - calls[m].now > 1_500_000)
  {
    ModeIsDecidedByContact(sqrt, calls, k);
    RunRemembers(sqrt, calls, k);
  }

  // ---- Growing caution ----

  ghost predicate MoreCautious(r: FusionResult, r': FusionResult) {
    && r'.distanceCm <= r.distanceCm
    && r'.safeDistanceCm <= r.safeDistanceCm
    && (r'.valid ==> r'.uncertaintyCm >= r.uncertaintyCm)
    && Severity(ZoneOf(r')) >= Severity(ZoneOf(r))
  }

  lemma {:induction false} CoastingOnlyFalls(fs: FusionState, calls: seq<Call>, m: nat, i: nat, k: nat)
    requires m <= i <= k < |calls|
    ensures CoastRun(fs, calls, m, k).lastGoodCm <= CoastRun(fs, calls, m, i).lastGoodCm
    decreases k
  {
    if i < k {
      CoastingOnlyFalls(fs, calls, m, i, k - 1);
      CoastedFalls(CoastRun(fs, calls, m, k - 1), AccelAt(calls, k), calls[k].now);
    }
  }

  lemma ReportsGrowCautious(fs: FusionState, fs': FusionState, held: uint64, held': uint64)
    requires fs'.lastGoodCm <= fs.lastGoodCm && held <= held'
    ensures MoreCautious(HoldoverReport(fs, held), HoldoverReport(fs', held'))
  {
  }

  lemma UnsafeIsMostCautious(r: FusionResult, r': FusionResult)
    requires r.mode.Holdover? && r.valid && r.distanceCm >= 0.0 && r.safeDistanceCm >= 0.0
    requires !r'.valid && r'.distanceCm == 0.0 && r'.safeDistanceCm == 0.0
    ensures MoreCautious(r, r')
  {
  }

  lemma UnsafeReportsNothing(sqrt: real -> real, calls: seq<Call>, k: nat)
    requires k < |calls| && Report(sqrt, calls, k).mode.Unsafe?
    ensures var r := Report(sqrt, calls, k); !r.valid && r.distanceCm == 0.0 && r.safeDistanceCm == 0.0
  {
  }

  lemma EpisodeGrowsCautious(sqrt: real -> real, calls: seq<Call>, m: nat, i: nat, k: nat)
    requires Clocked(calls) && m < i <= k && HoldsOver(calls, m, i) && HoldsOver(calls, m, k)
    ensures MoreCautious(Report(sqrt, calls, i), Report(sqrt, calls, k))
  {
    HoldoverIsCoasting(sqrt, calls, m, i);
    HoldoverIsCoasting(sqrt, calls, m, k);
    var start := Refreshed(Report(sqrt, calls, m).distanceCm, calls[m].now);
    CoastingOnlyFalls(start, calls, m, i, k);
    ReportsGrowCautious(CoastRun(start, calls, m, i), CoastRun(start, calls, m, k),
                        calls[i].now - calls[m].now, calls[k].now - calls[m].now);
  }

  lemma UnsafeAfterHoldover(sqrt: real -> real, calls: seq<Call>, m: nat, i: nat, k: nat)
    requires Clocked(calls) && m < i && HoldsOver(calls, m, i)
    requires k < |calls| && Report(sqrt, calls, k).mode.Unsafe?
    ensures MoreCautious(Report(sqrt, calls, i), Report(sqrt, calls, k))
  {
    HoldoverIsCoasting(sqrt, calls, m, i);
    UnsafeReportsNothing(sqrt, calls, k);
    UnsafeIsMostCautious(Report(sqrt, calls, i), Report(sqrt, calls, k));
  }

  /** A HOLDOVER report tells which episode it belongs to. */
  lemma EpisodeOf(sqrt: real -> real, calls: seq<Call>, i: nat) returns (m: nat)
    requires Clocked(calls) && i < |calls| && Report(sqrt, calls, i).mode.Holdover?
    ensures m < i && HoldsOver(calls, m, i) && LastContact(calls, i) == m
  {
    ModeIsDecidedByContact(sqrt, calls, i);
    m := LastContact(calls, i);
  }

  /** From any HOLDOVER call on, until an ultrasonic sensor contributes again, every later report is HOLDOVER or
      UNSAFE and at least as cautious, whatever the IMUs say: the distance and its safe edge never increase, the
      uncertainty never shrinks while the range is valid, and the zone never relaxes. */
  lemma HoldoverOnlyGrowsCautious(sqrt: real -> real, calls: seq<Call>, i: nat, k: nat)
    requires Clocked(calls) && i <= k < |calls|
    requires Report(sqrt, calls, i).mode.Holdover? && Blind(calls, i + 1, k + 1)
    ensures Report(sqrt, calls, k).mode.Holdover? || Report(sqrt, calls, k).mode.Unsafe?
    ensures MoreCautious(Report(sqrt, calls, i), Report(sqrt, calls, k))
  {
    var m := EpisodeOf(sqrt, calls, i);
    ModeIsDecidedByContact(sqrt, calls, k);
    SameLastContact(calls, i, k);
    if Report(sqrt, calls, k).mode.Unsafe? {
      UnsafeAfterHoldover(sqrt, calls, m, i, k);
    } else {
      EpisodeGrowsCautious(sqrt, calls, m, i, k);
    }
  }

  // ---- The step from contact into holdover ----

  /** Centimetres charged against the distance by the calls m+1, ..., k: a matter of the clock and the IMUs. */
  function Travelled(calls: seq<Call>, m: nat, k: nat): real
    requires m <= k < |calls|
  {
    -CoastRun(Refreshed(0.0, calls[m].now), calls, m, k).lastGoodCm
  }

  /** Coasting charges the same motion whatever the distance it starts from. */
  lemma {:induction false} CoastingShifts(distance: real, calls: seq<Call>, m: nat, k: nat)
    requires m <= k < |calls|
    ensures var zero := CoastRun(Refreshed(0.0, calls[m].now), calls, m, k);
            CoastRun(Refreshed(distance, calls[m].now), calls, m, k) == zero.(lastGoodCm := distance + zero.lastGoodCm)
    decreases k
  {
    if m < k {
      CoastingShifts(distance, calls, m, k - 1);
    }
  }

  lemma TravelledIsNotNegative(calls: seq<Call>, m: nat, k: nat)
    requires m <= k < |calls|
    ensures Travelled(calls, m, k) >= 0.0
  {
    CoastingOnlyFalls(Refreshed(0.0, calls[m].now), calls, m, m, k);
  }

  /** A holdover report in terms of its contact: the distance less what has been travelled since. */
  lemma ReportSinceContact(sqrt: real -> real, calls: seq<Call>, m: nat, k: nat)
    requires Clocked(calls) && m < k && HoldsOver(calls, m, k)
    ensures Report(sqrt, calls, k)
            == SinceContact(Report(sqrt, calls, m).distanceCm, Travelled(calls, m, k), calls[k].now - calls[m].now)
    ensures Report(sqrt, calls, m).valid
            && Report(sqrt, calls, m).safeDistanceCm
               == Floor0(Report(sqrt, calls, m).distanceCm - Report(sqrt, calls, m).uncertaintyCm)
  {
    HoldoverIsCoasting(sqrt, calls, m, k);
    CoastingShifts(Report(sqrt, calls, m).distanceCm, calls, m, k);
    ContactEdge(sqrt, Before(sqrt, calls, m), calls[m]);
  }

  function SinceContact(distance: real, travelled: real, held: uint64): FusionResult {
    Result(Holdover, Floor0(distance - travelled), HoldoverUncertainty(held), 0, held, false)
  }

  lemma ContactEdge(sqrt: real -> real, fs: FusionState, c: Call)
    requires Contact(c)
    ensures var r := Called(sqrt, fs, c).1; r.valid && r.safeDistanceCm == Floor0(r.distanceCm - r.uncertaintyCm)
  {
  }

  /** Whether a holdover's safe edge has come down to its contact's: either motion and uncertainty together have
      used up the distance, or together they have outgrown the contact's uncertainty. */
  predicate EdgeHasComeDown(distance: real, uncertainty: real, travelled: real, held: uint64) {
    || distance - travelled <= HoldoverUncertainty(held)
    || uncertainty <= travelled + HoldoverUncertainty(held)
  }

  lemma HandoverArithmetic(r: FusionResult, travelled: real, held: uint64)
    requires r.valid && r.distanceCm >= 0.0 && travelled >= 0.0
    requires r.safeDistanceCm == Floor0(r.distanceCm - r.uncertaintyCm)
    ensures var r' := SinceContact(r.distanceCm, travelled, held);
            && (r'.safeDistanceCm <= r.safeDistanceCm
                <==> EdgeHasComeDown(r.distanceCm, r.uncertaintyCm, travelled, held))
            && (MoreCautious(r, r') <==> r.uncertaintyCm <= HoldoverUncertainty(held))
  {
  }

  /** A report as cautious as the contact it follows is not promised, and this says exactly when it comes about.
      At every call of a holdover episode the safe edge is no further out than the contact's iff it has come
      down, and the report is more cautious in every respect iff the holdover uncertainty has reached the
      contact's. */
  lemma CautionSinceContactIff(sqrt: real -> real, calls: seq<Call>, m: nat, k: nat)
    requires Clocked(calls) && m < k && HoldsOver(calls, m, k) && IsSqrt(sqrt) && NonNegativeRanges(calls)
    ensures var r, r' := Report(sqrt, calls, m), Report(sqrt, calls, k);
            var held: uint64 := calls[k].now - calls[m].now;
            && (r'.safeDistanceCm <= r.safeDistanceCm
                <==> EdgeHasComeDown(r.distanceCm, r.uncertaintyCm, Travelled(calls, m, k), held))
            && (MoreCautious(r, r') <==> r.uncertaintyCm <= HoldoverUncertainty(held))
  {
    ReportSinceContact(sqrt, calls, m, k);
    TravelledIsNotNegative(calls, m, k);
    ContactDistance(sqrt, calls, m);
    HandoverArithmetic(Report(sqrt, calls, m), Travelled(calls, m, k), calls[k].now - calls[m].now);
  }

  /** Beyond the hold there is nothing to relax: an UNSAFE report is more cautious than any contact. */
  lemma UnsafeIsMoreCautiousThanContact(sqrt: real -> real, calls: seq<Call>, m: nat, k: nat)
    requires m < |calls| && k < |calls| && Contact(calls[m]) && IsSqrt(sqrt) && NonNegativeRanges(calls)
    requires Report(sqrt, calls, k).mode.Unsafe?
    ensures MoreCautious(Report(sqrt, calls, m), Report(sqrt, calls, k))
  {
    ContactDistance(sqrt, calls, m);
    ContactEdge(sqrt, Before(sqrt, calls, m), calls[m]);
    UnsafeReportsNothing(sqrt, calls, k);
  }

  /** The one sensor that contributes to a SINGLE call. */
  function Survivor(c: Call): SensorView {
    if FreshSample(c.us1, c.now).Some? then c.us1 else c.us2
  }

  lemma SingleUncertainty(sqrt: real -> real, fs: FusionState, c: Call)
    requires Contact(c) && !BothContact(c)
    ensures Called(sqrt, fs, c).1.uncertaintyCm == if Survivor(c).state.Suspect? then 15.0 else 5.0
  {
  }

  /** From SINGLE: caution is restored exactly 120 ms after the contact of a HEALTHY survivor and 520 ms after
      that of a SUSPECT one, whatever the IMUs report. */
  lemma CautionAfterSingleIff(sqrt: real -> real, calls: seq<Call>, m: nat, k: nat)
    requires Clocked(calls) && m < k && HoldsOver(calls, m, k) && IsSqrt(sqrt) && NonNegativeRanges(calls)
    requires !BothContact(calls[m])
    ensures MoreCautious(Report(sqrt, calls, m), Report(sqrt, calls, k))
            <==> calls[k].now - calls[m].now >= if Survivor(calls[m]).state.Suspect? then 520_000 else 120_000
  {
    CautionSinceContactIff(sqrt, calls, m, k);
    SingleUncertainty(sqrt, Before(sqrt, calls, m), calls[m]);
  }

  /** The spread of the two readings of a FULL call. */
  function SpreadOf(c: Call): real
    requires BothContact(c)
  {
    Abs(Primary(FreshSample(c.us1, c.now).value) - Primary(FreshSample(c.us2, c.now).value))
  }

  lemma PairUncertainty(sqrt: real -> real, fs: FusionState, c: Call)
    requires BothContact(c) && IsSqrt(sqrt)
    ensures var u, spread := Called(sqrt, fs, c).1.uncertaintyCm, SpreadOf(c);
            if spread > PAIR_DISAGREE_CM then u == spread
            else u - spread * 0.5 >= 0.0 && (u - spread * 0.5) * (u - spread * 0.5) == PairVariance(c)
  {
    var a, b := Contribution(c.us1, c.now).value, Contribution(c.us2, c.now).value;
    PairRoots(sqrt, a, b);
  }

  /** What a FULL call reports, by the spread of its two readings. */
  lemma FullReport(sqrt: real -> real, fs: FusionState, c: Call)
    requires BothContact(c) && IsSqrt(sqrt)
    ensures var r, x, y := Called(sqrt, fs, c).1, Reading(c.us1), Reading(c.us2);
            && (SpreadOf(c) > 20.0 ==> PessimisticReport(r, x, y))
            && (SpreadOf(c) <= 20.0 ==> MeanReport(r, x, y, c.us1.state, c.us2.state))
  {
    ContributesIffFresh(c.us1, c.now);
    ContributesIffFresh(c.us2, c.now);
    if SpreadOf(c) > 20.0 {
      DisagreementIsPessimistic(sqrt, fs, c);
    } else {
      AgreementIsMean(sqrt, fs, c);
    }
  }

  /** The fused variance of an agreeing pair: both HEALTHY, mixed, or both SUSPECT. */
  function PairVariance(c: Call): real {
    if c.us1.state.Suspect? && c.us2.state.Suspect? then 18.0
    else if c.us1.state.Suspect? || c.us2.state.Suspect? then 3.6
    else 2.0
  }

  /** From a disagreeing FULL pair: caution is restored exactly when the holdover uncertainty has outgrown the
      spread, and for a spread above 39.5 cm never within the hold. */
  lemma CautionAfterDisagreementIff(sqrt: real -> real, calls: seq<Call>, m: nat, k: nat)
    requires Clocked(calls) && m < k && HoldsOver(calls, m, k) && IsSqrt(sqrt) && NonNegativeRanges(calls)
    requires BothContact(calls[m]) && SpreadOf(calls[m]) > PAIR_DISAGREE_CM
    ensures MoreCautious(Report(sqrt, calls, m), Report(sqrt, calls, k))
            <==> SpreadOf(calls[m]) <= HoldoverUncertainty(calls[k].now - calls[m].now)
    ensures SpreadOf(calls[m]) > 39.5 ==> !MoreCautious(Report(sqrt, calls, m), Report(sqrt, calls, k))
  {
    CautionSinceContactIff(sqrt, calls, m, k);
    PairUncertainty(sqrt, Before(sqrt, calls, m), calls[m]);
  }

  /** From an agreeing FULL pair: the same with half the spread and the root of the fused variance, which the
      states of the pair decide; half a second of holdover always outgrows it. */
  lemma CautionAfterAgreementIff(sqrt: real -> real, calls: seq<Call>, m: nat, k: nat) returns (root: real)
    requires Clocked(calls) && m < k && HoldsOver(calls, m, k) && IsSqrt(sqrt) && NonNegativeRanges(calls)
    requires BothContact(calls[m]) && SpreadOf(calls[m]) <= PAIR_DISAGREE_CM
    ensures root >= 0.0 && root * root == PairVariance(calls[m])
    ensures MoreCautious(Report(sqrt, calls, m), Report(sqrt, calls, k))
            <==> root + SpreadOf(calls[m]) * 0.5 <= HoldoverUncertainty(calls[k].now - calls[m].now)
    ensures calls[k].now - calls[m].now >= 500_000 ==> MoreCautious(Report(sqrt, calls, m), Report(sqrt, calls, k))
  {
    root := AgreementUncertainty(sqrt, Before(sqrt, calls, m), calls[m]);
    CautionSinceContactIff(sqrt, calls, m, k);
  }

  lemma AgreementUncertainty(sqrt: real -> real, fs: FusionState, c: Call) returns (root: real)
    requires BothContact(c) && IsSqrt(sqrt) && SpreadOf(c) <= PAIR_DISAGREE_CM
    ensures 0.0 <= root < 4.5 && root * root == PairVariance(c)
    ensures Called(sqrt, fs, c).1.uncertaintyCm == root + SpreadOf(c) * 0.5 < 14.5
  {
    PairUncertainty(sqrt, fs, c);
    root := Called(sqrt, fs, c).1.uncertaintyCm - SpreadOf(c) * 0.5;
    RootBelow(root);
  }

  lemma RootBelow(root: real)
    requires root >= 0.0 && root * root <= 18.0
    ensures root < 4.5
  {
    if root >= 4.5 {
      Scale(4.5, root, 4.5);
      Scale(4.5, root, root);
      assert false;
    }
  }

  // ---- Inputs that show it ----

  /** A SUSPECT sensor delivers one reading of 40 cm and then nothing; its twin never delivers. The sample is
      exactly 300 ms old at the first call and stale at the second. */
  function LossOfSignal(): (calls: seq<Call>) {
    var us1 := SensorView(Suspect, OneReading(US1, 40.0, 0));
    [Call(300_000, us1, NOTHING_YET, NOTHING_YET, NOTHING_YET),
     Call(400_000, us1, NOTHING_YET, NOTHING_YET, NOTHING_YET)]
  }

  /** Two SUSPECT sensors deliver one reading each, 200 and 400 cm, and then nothing until `later`. */
  function LossOfDisagreeingPair(later: uint64): (calls: seq<Call>) {
    var us1, us2 := SensorView(Suspect, OneReading(US1, 200.0, 0)), SensorView(Suspect, OneReading(US2, 400.0, 0));
    [Call(300_000, us1, us2, NOTHING_YET, NOTHING_YET), Call(later, us1, us2, NOTHING_YET, NOTHING_YET)]
  }

  /** Without an IMU a vehicle that had no speed at the contact is charged no motion. */
  lemma NoImuNoTravel(calls: seq<Call>)
    requires |calls| == 2 && AccelAt(calls, 1) == None
    ensures Travelled(calls, 0, 1) == 0.0
  {
    var start := Refreshed(0.0, calls[0].now);
    var dt := StepSeconds(start, calls[1].now);
    assert CoastRun(start, calls, 0, 1) == Coasted(start, None, calls[1].now);
    assert Travel(0.0, dt) == 0.0;
  }

  lemma TwoCalls(sqrt: real -> real, calls: seq<Call>)
    requires |calls| == 2 && Clocked(calls) && Contact(calls[0]) && !Contact(calls[1]) && AccelAt(calls, 1) == None
    requires calls[1].now - calls[0].now <= HOLDOVER_MAX_US
    ensures Report(sqrt, calls, 1)
            == SinceContact(Report(sqrt, calls, 0).distanceCm, 0.0, calls[1].now - calls[0].now)
  {
    ReportSinceContact(sqrt, calls, 0, 1);
    NoImuNoTravel(calls);
  }

  lemma LossOfSignalContact(sqrt: real -> real)
    ensures Report(sqrt, LossOfSignal(), 0) == Result(Single, 40.0, 15.0, 1, 300_000, false)
    ensures Contact(LossOfSignal()[0]) && !Contact(LossOfSignal()[1])
  {
    var c := LossOfSignal()[0];
    assert Contribution(c.us1, c.now) == Some(Contrib(40.0, 6.0, 300_000));
  }

  /** Losing the last, SUSPECT sensor at 40 cm shrinks the uncertainty from 15 to 4.5 cm within 100 ms and
      relaxes the zone from SLOW to CAUTION. */
  lemma LosingTheLastSensorCanRelaxTheZone(sqrt: real -> real)
    ensures Clocked(LossOfSignal()) && |LossOfSignal()| == 2
    ensures var r, r' := Report(sqrt, LossOfSignal(), 0), Report(sqrt, LossOfSignal(), 1);
            && r == Result(Single, 40.0, 15.0, 1, 300_000, false) && ZoneOf(r) == SlowZone
            && r' == Result(Holdover, 40.0, 4.5, 0, 100_000, false) && ZoneOf(r') == CautionZone
  {
    LossOfSignalContact(sqrt);
    TwoCalls(sqrt, LossOfSignal());
  }

  lemma LossOfPairContact(sqrt: real -> real, later: uint64)
    requires 300_000 < later
    ensures Report(sqrt, LossOfDisagreeingPair(later), 0) == Result(Full, 200.0, 200.0, 2, 300_000, true)
    ensures Contact(LossOfDisagreeingPair(later)[0]) && !Contact(LossOfDisagreeingPair(later)[1])
  {
    var c := LossOfDisagreeingPair(later)[0];
    assert Contribution(c.us1, c.now) == Some(Contrib(200.0, 6.0, 300_000));
    assert Contribution(c.us2, c.now) == Some(Contrib(400.0, 6.0, 300_000));
  }

  /** Losing a disagreeing pair relaxes STOP to SAFE, and not for one step only: at whatever time of the 1.5 s
      hold the next call comes, the safe edge stands above 160 cm where the contact had put it at 0. */
  lemma LosingADisagreeingPairRelaxesTheWholeHold(sqrt: real -> real, later: uint64)
    requires 300_000 < later <= 300_000 + HOLDOVER_MAX_US
    ensures Clocked(LossOfDisagreeingPair(later)) && |LossOfDisagreeingPair(later)| == 2
    ensures var r, r' := Report(sqrt, LossOfDisagreeingPair(later), 0), Report(sqrt, LossOfDisagreeingPair(later), 1);
            && r == Result(Full, 200.0, 200.0, 2, 300_000, true) && r.safeDistanceCm == 0.0 && ZoneOf(r) == StopZone
            && r' == SinceContact(200.0, 0.0, later - 300_000) && r'.safeDistanceCm > 160.0 && ZoneOf(r') == SafeZone
  {
    LossOfPairContact(sqrt, later);
    TwoCalls(sqrt, LossOfDisagreeingPair(later));
  }
}
