/** Degraded-operation distance fusion: the FULL / SINGLE / HOLDOVER / UNSAFE ladder. */
module Fusion {
  import opened SensorTypes
  import opened SensorBuffers
  import opened FaultDetector

  const US_BASE_UNCERTAINTY_CM := 2.0
  const SUSPECT_UNCERTAINTY_MULT := 3.0
  const SINGLE_UNCERTAINTY_MULT := 2.5
  const STALE_SAMPLE_US := 300_000
  const PAIR_DISAGREE_CM := 20.0
  const HOLDOVER_MAX_US := 1_500_000
  const HOLDOVER_GROWTH_CM_PER_S := 25.0
  const ACCEL_DEADBAND_G := 0.03
  const G_TO_MPS2 := 9.80665
  const MAX_STEP_S := 0.5

  // ---- Specification ----

  datatype OpMode = Full | Single | Holdover | Unsafe

  datatype FusionResult = FusionResult(
    mode: OpMode,
    valid: bool,
    distanceCm: real,
    uncertaintyCm: real,
    safeDistanceCm: real,
    contributors: int,
    ageUs: uint64,
    disagreement: bool)

  const NO_RESULT := FusionResult(Full, false, 0.0, 0.0, 0.0, 0, 0, false)

  datatype FusionState = FusionState(
    lastGoodCm: real,
    lastGoodUs: uint64,
    velocityMps: real,
    lastIntegrateUs: uint64,
    haveLastGood: bool)

  const FUSION_INIT := FusionState(0.0, 0, 0.0, 0, false)

  datatype Contrib = Contrib(cm: real, sigmaCm: real, ageUs: uint64)

  /** What fusion can see of one sensor: its state and its history. */
  datatype SensorView = SensorView(state: SensorState, log: Log)

  function Age(now: uint64, timestampUs: uint64): uint64 {
    if now > timestampUs then now - timestampUs else 0
  }

  /** The first component of a sample: range of an ultrasonic sensor, longitudinal acceleration of an IMU. */
  function Primary(s: Sample): real {
    if s.value == [] then 0.0 else s.value[0]
  }

  /** The newest sample of a usable sensor, unless it is stale. */
  function FreshSample(v: SensorView, now: uint64): Option<Sample> {
    var latest := Latest(v.log);
    if Usable(v.state) && latest.Some? && Age(now, latest.value.timestampUs) <= STALE_SAMPLE_US then latest else None
  }

  function Sigma(state: SensorState): real {
    if state.Suspect? then US_BASE_UNCERTAINTY_CM * SUSPECT_UNCERTAINTY_MULT else US_BASE_UNCERTAINTY_CM
  }

  function Contribution(v: SensorView, now: uint64): Option<Contrib> {
    match FreshSample(v, now)
    case Some(s) => Some(Contrib(Primary(s), Sigma(v.state), Age(now, s.timestampUs)))
    case None => None
  }

  function AccelOf(g: real): real {
    if Abs(g) < ACCEL_DEADBAND_G then 0.0 else g * G_TO_MPS2
  }

  /** The acceleration of the first IMU that can be trusted. */
  function LongAccel(imu1: SensorView, imu2: SensorView, now: uint64): Option<real> {
    match FreshSample(imu1, now)
    case Some(s) => Some(AccelOf(Primary(s)))
    case None =>
      match FreshSample(imu2, now)
      case Some(s) => Some(AccelOf(Primary(s)))
      case None => None
  }

  function Near(a: real, b: real): real {
    if a < b then a else b
  }

  function Floor0(x: real): real {
    if x < 0.0 then 0.0 else x
  }

  function Weight(c: Contrib): real
    requires c.sigmaCm > 0.0
  {
    1.0 / (c.sigmaCm * c.sigmaCm)
  }

  lemma WeightPositive(c: Contrib)
    requires c.sigmaCm > 0.0
    ensures c.sigmaCm * c.sigmaCm > 0.0 && Weight(c) > 0.0
  {
  }

  /** Contributions carry one of the two uncertainties. */
  ghost predicate Plausible(c: Contrib) {
    c.sigmaCm == 2.0 || c.sigmaCm == 6.0
  }

  /** Distance and uncertainty of two agreeing contributions: the inverse-variance weighted mean. */
  function PairMean(sqrt: real -> real, a: Contrib, b: Contrib): (real, real)
    requires Plausible(a) && Plausible(b)
  {
    WeightPositive(a);
    WeightPositive(b);
    var wa, wb := Weight(a), Weight(b);
    ((a.cm * wa + b.cm * wb) / (wa + wb), sqrt(1.0 / (wa + wb)) + Abs(a.cm - b.cm) * 0.5)
  }

  function PairDistance(sqrt: real -> real, a: Contrib, b: Contrib): (real, real)
    requires Plausible(a) && Plausible(b)
  {
    if Abs(a.cm - b.cm) > PAIR_DISAGREE_CM then (Near(a.cm, b.cm), Abs(a.cm - b.cm)) else PairMean(sqrt, a, b)
  }

  function Result(mode: OpMode, distance: real, uncertainty: real, contributors: int, age: uint64, disagreement: bool)
    : FusionResult
  {
    FusionResult(mode, true, distance, uncertainty, Floor0(distance - uncertainty), contributors, age, disagreement)
  }

  function Refreshed(distance: real, now: uint64): FusionState {
    FusionState(distance, now, 0.0, now, true)
  }

  /** Seconds integrated by a holdover call. */
  function StepSeconds(fs: FusionState, now: uint64): real {
    var dt := Sub64(now, fs.lastIntegrateUs) as real / 1000000.0;
    if dt > MAX_STEP_S then MAX_STEP_S else dt
  }

  /** Centimetres covered in `dt` seconds at `v` metres per second, whichever way. */
  function Travel(v: real, dt: real): real {
    Abs(v) * dt * 100.0
  }

  /** The velocity after `dt` seconds; without a trusted IMU it keeps its value. */
  function Accelerated(v: real, accel: Option<real>, dt: real): real {
    match accel
    case Some(a) => v + a * dt
    case None => v
  }

  function Coasted(fs: FusionState, accel: Option<real>, now: uint64): FusionState {
    var dt := StepSeconds(fs, now);
    var v := Accelerated(fs.velocityMps, accel, dt);
    fs.(velocityMps := v, lastIntegrateUs := now, lastGoodCm := fs.lastGoodCm - Travel(v, dt))
  }

  /** Whether there is still something to hold over from. */
  predicate CanHold(fs: FusionState, now: uint64) {
    fs.haveLastGood && Sub64(now, fs.lastGoodUs) <= HOLDOVER_MAX_US
  }

  function HoldoverUncertainty(heldUs: uint64): real {
    US_BASE_UNCERTAINTY_CM + HOLDOVER_GROWTH_CM_PER_S * (heldUs as real / 1000000.0)
  }

  /** One call of the fusion engine. */
  function Compute(sqrt: real -> real, fs: FusionState, a: Option<Contrib>, b: Option<Contrib>,
                   accel: Option<real>, now: uint64): (FusionState, FusionResult)
    requires (a.Some? ==> Plausible(a.value)) && (b.Some? ==> Plausible(b.value))
  {
    if a.Some? && b.Some? then
      var (distance, uncertainty) := PairDistance(sqrt, a.value, b.value);
      (Refreshed(distance, now),
       Result(Full, distance, uncertainty, 2, Min(a.value.ageUs, b.value.ageUs),
              Abs(a.value.cm - b.value.cm) > PAIR_DISAGREE_CM))
    else if a.Some? || b.Some? then
      var c := if a.Some? then a.value else b.value;
      (Refreshed(c.cm, now), Result(Single, c.cm, c.sigmaCm * SINGLE_UNCERTAINTY_MULT, 1, c.ageUs, false))
    else if CanHold(fs, now) then
      var held, fs' := Sub64(now, fs.lastGoodUs), Coasted(fs, accel, now);
      (fs', Result(Holdover, Floor0(fs'.lastGoodCm), HoldoverUncertainty(held), 0, held, false))
    else
      (fs, NO_RESULT.(mode := Unsafe, ageUs := if fs.haveLastGood then Sub64(now, fs.lastGoodUs) else 0))
  }

  lemma ContributionIsPlausible(v: SensorView, now: uint64)
    ensures Contribution(v, now).Some? ==> Plausible(Contribution(v, now).value)
  {
  }

  /** Everything one call of the engine depends on besides its own state. */
  datatype Call = Call(now: uint64, us1: SensorView, us2: SensorView, imu1: SensorView, imu2: SensorView)

  function Called(sqrt: real -> real, fs: FusionState, c: Call): (FusionState, FusionResult) {
    ContributionIsPlausible(c.us1, c.now);
    ContributionIsPlausible(c.us2, c.now);
    Compute(sqrt, fs, Contribution(c.us1, c.now), Contribution(c.us2, c.now), LongAccel(c.imu1, c.imu2, c.now), c.now)
  }

  // ---- Parking zones ----

  datatype Zone = SafeZone | NormalZone | CautionZone | SlowZone | StopZone

  function ZoneOf(r: FusionResult): Zone {
    if !r.valid then StopZone
    else if r.safeDistanceCm > 100.0 then SafeZone
    else if r.safeDistanceCm > 60.0 then NormalZone
    else if r.safeDistanceCm > 30.0 then CautionZone
    else if r.safeDistanceCm > 15.0 then SlowZone
    else StopZone
  }

  function Severity(z: Zone): nat {
    match z
    case SafeZone => 0
    case NormalZone => 1
    case CautionZone => 2
    case SlowZone => 3
    case StopZone => 4
  }

  // ---- The engine ----

  ghost function ViewOf(ctx: FdiContext, buf: SensorBuffer): SensorView
    reads ctx, buf
  {
    SensorView(ctx.state, buf.log)
  }

  method ReadContributor(ctx: FdiContext, buf: SensorBuffer, now: uint64) returns (c: Option<Contrib>)
    requires buf.Valid()
    ensures c == Contribution(ViewOf(ctx, buf), now)
    ensures c.Some? ==> Plausible(c.value)
  {
    if !(ctx.state == Healthy || ctx.state == Suspect) {
      return None;
    }
    var latest := buf.GetLatest();
    if latest == None {
      return None;
    }
    var s := latest.value;
    var age: uint64 := if now > s.timestampUs then now - s.timestampUs else 0;
    if age > STALE_SAMPLE_US {
      return None;
    }
    assert WellFormedSample(s);
    var sigma := US_BASE_UNCERTAINTY_CM;
    if ctx.state == Suspect {
      sigma := sigma * SUSPECT_UNCERTAINTY_MULT;
    }
    return Some(Contrib(s.value[0], sigma, age));
  }

  method ReadLongAccel(imu1: FdiContext, buf1: SensorBuffer, imu2: FdiContext, buf2: SensorBuffer, now: uint64)
    returns (accel: Option<real>)
    requires buf1.Valid() && buf2.Valid()
    ensures accel == LongAccel(ViewOf(imu1, buf1), ViewOf(imu2, buf2), now)
  {
    var i := 0;
    while i < 2
      invariant 0 <= i <= 2
      invariant i > 0 ==> FreshSample(ViewOf(imu1, buf1), now) == None
      invariant i > 1 ==> FreshSample(ViewOf(imu2, buf2), now) == None
    {
      var ctx, buf := if i == 0 then imu1 else imu2, if i == 0 then buf1 else buf2;
      var latest := buf.GetLatest();
      if (ctx.state == Healthy || ctx.state == Suspect) && latest != None {
        var s := latest.value;
        var age: uint64 := if now > s.timestampUs then now - s.timestampUs else 0;
        if age <= STALE_SAMPLE_US {
          assert WellFormedSample(s);
          var g := s.value[0];
          if Abs(g) < ACCEL_DEADBAND_G {
            g := 0.0;
          }
          return Some(g * G_TO_MPS2);
        }
      }
      i := i + 1;
    }
    return None;
  }

  class FusionEngine {
    var lastGoodCm: real
    var lastGoodUs: uint64
    var velocityMps: real
    var lastIntegrateUs: uint64
    var haveLastGood: bool

    ghost function State(): FusionState
      reads this
    {
      FusionState(lastGoodCm, lastGoodUs, velocityMps, lastIntegrateUs, haveLastGood)
    }

    constructor ()
      ensures State() == FUSION_INIT
    {
      lastGoodCm, lastGoodUs, velocityMps, lastIntegrateUs, haveLastGood := 0.0, 0, 0.0, 0, false;
    }

    /** Coasts on the last good range: integrates the velocity and charges all motion against the distance. */
    method Coast(accel: Option<real>, now: uint64) returns (distance: real)
      modifies this
      ensures State() == Coasted(old(State()), accel, now)
      ensures distance == Floor0(lastGoodCm)
    {
      var dt := Sub64(now, lastIntegrateUs) as real / 1000000.0;
      lastIntegrateUs := now;
      if dt > MAX_STEP_S {
        dt := MAX_STEP_S;
      }
      assert dt == old(StepSeconds(State(), now));
      if accel.Some? {
        velocityMps := velocityMps + accel.value * dt;
      }
      assert velocityMps == Accelerated(old(velocityMps), accel, dt);
      distance := lastGoodCm - Travel(velocityMps, dt);
      lastGoodCm := distance;
      if distance < 0.0 {
        distance := 0.0;
      }
    }

    /** The ladder, once the contributors have been read. */
    method Fuse(a: Option<Contrib>, b: Option<Contrib>, accel: Option<real>, now: uint64, sqrt: real -> real)
      returns (out: FusionResult)
      requires (a.Some? ==> Plausible(a.value)) && (b.Some? ==> Plausible(b.value))
      modifies this
      ensures (State(), out) == Compute(sqrt, old(State()), a, b, accel, now)
    {
      out := NO_RESULT;
      if a.Some? && b.Some? {
        var distance, uncertainty, disagreement := FusePair(a.value, b.value, sqrt);
        out := out.(mode := Full, valid := true, contributors := 2,
                    ageUs := if a.value.ageUs < b.value.ageUs then a.value.ageUs else b.value.ageUs,
                    distanceCm := distance, uncertaintyCm := uncertainty, disagreement := disagreement);
        lastGoodCm, lastGoodUs, haveLastGood := distance, now, true;
        velocityMps, lastIntegrateUs := 0.0, now;
      } else if a.Some? || b.Some? {
        var c := if a.Some? then a.value else b.value;
        out := out.(mode := Single, valid := true, contributors := 1, ageUs := c.ageUs,
                    distanceCm := c.cm, uncertaintyCm := c.sigmaCm * SINGLE_UNCERTAINTY_MULT);
        lastGoodCm, lastGoodUs, haveLastGood := out.distanceCm, now, true;
        velocityMps, lastIntegrateUs := 0.0, now;
      } else {
        if !haveLastGood {
          out := out.(mode := Unsafe, valid := false);
          return;
        }
        var heldUs := Sub64(now, lastGoodUs);
        if heldUs > HOLDOVER_MAX_US {
          out := out.(mode := Unsafe, valid := false, ageUs := heldUs);
          return;
        }
        var distance := Coast(accel, now);
        out := out.(mode := Holdover, valid := true, contributors := 0, ageUs := heldUs, distanceCm := distance,
                    uncertaintyCm := US_BASE_UNCERTAINTY_CM
                                     + HOLDOVER_GROWTH_CM_PER_S * (heldUs as real / 1000000.0));
      }
      out := out.(safeDistanceCm := out.distanceCm - out.uncertaintyCm);
      if out.safeDistanceCm < 0.0 {
        out := out.(safeDistanceCm := 0.0);
      }
    }

    /** One call of the engine: read both ultrasonics and, when neither contributes, an IMU. */
    method FusionCompute(us1: FdiContext, us1Buf: SensorBuffer, us2: FdiContext, us2Buf: SensorBuffer,
                         imu1: FdiContext, imu1Buf: SensorBuffer, imu2: FdiContext, imu2Buf: SensorBuffer,
                         now: uint64, sqrt: real -> real)
      returns (out: FusionResult)
      requires us1Buf.Valid() && us2Buf.Valid() && imu1Buf.Valid() && imu2Buf.Valid()
      modifies this
      ensures (State(), out)
              == Called(sqrt, old(State()),
                        Call(now, ViewOf(us1, us1Buf), ViewOf(us2, us2Buf), ViewOf(imu1, imu1Buf), ViewOf(imu2, imu2Buf)))
    {
      var a := ReadContributor(us1, us1Buf, now);
      var b := ReadContributor(us2, us2Buf, now);
      var accel := ReadLongAccel(imu1, imu1Buf, imu2, imu2Buf, now);
      out := Fuse(a, b, accel, now, sqrt);
    }
  }

  /** The mean of an agreeing pair; the nearer reading and the whole spread of a disagreeing one. */
  method FusePair(a: Contrib, b: Contrib, sqrt: real -> real)
    returns (distance: real, uncertainty: real, disagreement: bool)
    requires Plausible(a) && Plausible(b)
    ensures (distance, uncertainty) == PairDistance(sqrt, a, b)
    ensures disagreement <==> Abs(a.cm - b.cm) > PAIR_DISAGREE_CM
  {
    var spread := Abs(a.cm - b.cm);
    disagreement := spread > PAIR_DISAGREE_CM;
    if disagreement {
      distance := if a.cm < b.cm then a.cm else b.cm;
      uncertainty := spread;
    } else {
      WeightPositive(a);
      WeightPositive(b);
      var wa := 1.0 / (a.sigmaCm * a.sigmaCm);
      var wb := 1.0 / (b.sigmaCm * b.sigmaCm);
      distance := (a.cm * wa + b.cm * wb) / (wa + wb);
      uncertainty := sqrt(1.0 / (wa + wb)) + spread * 0.5;
    }
  }

  // ---- What the fused pair promises ----

  /** The three weightings that can occur. */
  lemma PairCases(sqrt: real -> real, a: Contrib, b: Contrib)
    requires Plausible(a) && Plausible(b) && IsSqrt(sqrt)
    ensures var (mean, uncertainty) := PairMean(sqrt, a, b);
            var root := uncertainty - Abs(a.cm - b.cm) * 0.5;
            && root >= 0.0
            && (a.sigmaCm == b.sigmaCm ==> mean == (a.cm + b.cm) / 2.0)
            && (a.sigmaCm < b.sigmaCm ==> mean == 0.9 * a.cm + 0.1 * b.cm && root * root == 3.6)
            && (a.sigmaCm > b.sigmaCm ==> mean == 0.1 * a.cm + 0.9 * b.cm && root * root == 3.6)
  {
    var wa, wb := Weight(a), Weight(b);
    if a.sigmaCm == b.sigmaCm {
      assert wa == wb && (a.cm * wa + b.cm * wb) == wa * (a.cm + b.cm);
    } else {
      assert wa + wb == 10.0 / 36.0;
      assert 1.0 / (wa + wb) == 3.6;
    }
  }

  lemma PairRoots(sqrt: real -> real, a: Contrib, b: Contrib)
    requires Plausible(a) && Plausible(b) && IsSqrt(sqrt)
    ensures var root := PairMean(sqrt, a, b).1 - Abs(a.cm - b.cm) * 0.5;
            && root >= 0.0
            && root * root == if a.sigmaCm != b.sigmaCm then 3.6 else if a.sigmaCm == 2.0 then 2.0 else 18.0
  {
    var wa, wb := Weight(a), Weight(b);
    WeightPositive(a);
    WeightPositive(b);
    if a.sigmaCm != b.sigmaCm {
      assert 1.0 / (wa + wb) == 3.6;
    } else if a.sigmaCm == 2.0 {
      assert 1.0 / (wa + wb) == 2.0;
    } else {
      assert 1.0 / (wa + wb) == 18.0;
    }
  }

  /** A fused mean lies between the two readings. */
  lemma MeanLiesBetween(sqrt: real -> real, a: Contrib, b: Contrib)
    requires Plausible(a) && Plausible(b) && IsSqrt(sqrt)
    ensures Near(a.cm, b.cm) <= PairDistance(sqrt, a, b).0 <= Near(a.cm, b.cm) + Abs(a.cm - b.cm)
  {
    PairCases(sqrt, a, b);
  }

  ghost predicate SquareExceeds(x: real, bound: real) {
    x * x > bound
  }

  /** Of the two sensors only the one that reads nearer carries the SUSPECT uncertainty. */
  ghost predicate OnlyNearerIsSuspect(a: Contrib, b: Contrib) {
    if a.cm < b.cm then a.sigmaCm > b.sigmaCm else a.sigmaCm < b.sigmaCm
  }

  /** How far the safe edge of a pair may pass the nearer reading; `root` is the root of 3.6. */
  ghost predicate EdgeClaim(safe: real, a: Contrib, b: Contrib, root: real) {
    var near, spread := Near(a.cm, b.cm), Abs(a.cm - b.cm);
    && (safe > near <==> spread <= PAIR_DISAGREE_CM && SquareExceeds(spread, 22.5) && OnlyNearerIsSuspect(a, b))
    && safe <= near + Floor0(0.4 * spread - root)
    && safe < near + 6.2
  }

  lemma EdgeOfEqualPair(sqrt: real -> real, a: Contrib, b: Contrib)
    requires Plausible(a) && Plausible(b) && IsSqrt(sqrt) && a.cm >= 0.0 && b.cm >= 0.0
    requires a.sigmaCm == b.sigmaCm
    ensures var (mean, uncertainty) := PairMean(sqrt, a, b);
            EdgeClaim(Floor0(mean - uncertainty), a, b, sqrt(3.6))
  {
    PairCases(sqrt, a, b);
    assert PairMean(sqrt, a, b).0 == Near(a.cm, b.cm) + Abs(a.cm - b.cm) * 0.5;
  }

  lemma UnequalPair(sqrt: real -> real, a: Contrib, b: Contrib)
    requires Plausible(a) && Plausible(b) && IsSqrt(sqrt) && a.sigmaCm != b.sigmaCm
    ensures sqrt(3.6) >= 0.0 && sqrt(3.6) * sqrt(3.6) == 3.6
    ensures PairMean(sqrt, a, b)
            == (Near(a.cm, b.cm) + (if OnlyNearerIsSuspect(a, b) then 0.9 * Abs(a.cm - b.cm) else 0.1 * Abs(a.cm - b.cm)),
                sqrt(3.6) + Abs(a.cm - b.cm) * 0.5)
  {
    PairCases(sqrt, a, b);
    assert sqrt(3.6) >= 0.0 && sqrt(3.6) * sqrt(3.6) == 3.6;
    SameRoot(PairMean(sqrt, a, b).1 - Abs(a.cm - b.cm) * 0.5, sqrt(3.6), 3.6);
  }

  lemma EdgeOfUnequalPair(sqrt: real -> real, a: Contrib, b: Contrib)
    requires Plausible(a) && Plausible(b) && IsSqrt(sqrt) && a.cm >= 0.0 && b.cm >= 0.0
    requires a.sigmaCm != b.sigmaCm && Abs(a.cm - b.cm) <= PAIR_DISAGREE_CM
    ensures var (mean, uncertainty) := PairMean(sqrt, a, b);
            EdgeClaim(Floor0(mean - uncertainty), a, b, sqrt(3.6))
  {
    UnequalPair(sqrt, a, b);
    EdgeArithmetic(Near(a.cm, b.cm), Abs(a.cm - b.cm), sqrt(3.6), PairMean(sqrt, a, b).0, OnlyNearerIsSuspect(a, b));
  }

  /** The claim that the safe edge never passes the nearer reading is false in general. It passes it exactly
      when the pair agrees, only the sensor that reads nearer is SUSPECT, and the spread exceeds the root of
      22.5 (about 4.74 cm); and then by at most 0.4 spread less the root of 3.6, under 6.2 cm. */
  lemma SafeEdgeAgainstNearest(sqrt: real -> real, fs: FusionState, a: Contrib, b: Contrib,
                               accel: Option<real>, now: uint64)
    requires Plausible(a) && Plausible(b) && IsSqrt(sqrt) && a.cm >= 0.0 && b.cm >= 0.0
    ensures EdgeClaim(Compute(sqrt, fs, Some(a), Some(b), accel, now).1.safeDistanceCm, a, b, sqrt(3.6))
  {
    if Abs(a.cm - b.cm) <= PAIR_DISAGREE_CM {
      if a.sigmaCm == b.sigmaCm {
        EdgeOfEqualPair(sqrt, a, b);
      } else {
        EdgeOfUnequalPair(sqrt, a, b);
      }
    }
  }

  lemma EdgeArithmetic(near: real, spread: real, root: real, mean: real, suspectNear: bool)
    requires near >= 0.0 && 0.0 <= spread <= PAIR_DISAGREE_CM && root >= 0.0 && root * root == 3.6
    requires mean == near + (if suspectNear then 0.9 * spread else 0.1 * spread)
    ensures var safe := Floor0(mean - (root + spread * 0.5));
            && (safe > near <==> suspectNear && SquareExceeds(spread, 22.5))
            && safe <= near + Floor0(0.4 * spread - root)
            && safe < near + 6.2
  {
    RootAgainstSpread(root, spread);
  }

  lemma SameRoot(r: real, s: real, x: real)
    requires r >= 0.0 && s >= 0.0 && r * r == x && s * s == x
    ensures r == s
  {
    if r < s {
      SquareGrows(r, s);
    } else if s < r {
      SquareGrows(s, r);
    }
  }

  lemma RootAgainstSpread(root: real, spread: real)
    requires root >= 0.0 && root * root == 3.6 && spread >= 0.0
    ensures 0.4 * spread > root <==> SquareExceeds(spread, 22.5)
    ensures root > 1.8
  {
    var s := 0.4 * spread;
    assert s * s == 0.16 * (spread * spread);
    if s > root {
      SquareGrows(root, s);
    } else if s < root {
      SquareGrows(s, root);
    }
    if root < 1.8 {
      SquareGrows(root, 1.8);
    }
  }

  // ---- A pair whose safe edge lies beyond the nearer reading ----

  function OneReading(id: SensorId, cm: real, timestampUs: uint64): Log {
    [Sample(id, timestampUs, 0, 1, [cm] + ZERO_VALUES[1..])]
  }

  /** A sensor that has not delivered anything yet. */
  const NOTHING_YET := SensorView(Suspect, [])

  /** A SUSPECT sensor reads 100 cm, its HEALTHY twin 115 cm. */
  function SuspectReadsNearer(): Call {
    Call(0, SensorView(Suspect, OneReading(US1, 100.0, 0)), SensorView(Healthy, OneReading(US2, 115.0, 0)),
         NOTHING_YET, NOTHING_YET)
  }

  /** Fusion then puts the safe edge beyond 100 cm and calls the zone SAFE, which takes more than 100 cm. */
  lemma SafeEdgeCanPassNearest(sqrt: real -> real, fs: FusionState)
    requires IsSqrt(sqrt)
    ensures var r := Called(sqrt, fs, SuspectReadsNearer()).1;
            r.mode.Full? && !r.disagreement && r.safeDistanceCm > 100.0 && ZoneOf(r) == SafeZone
  {
    var c := SuspectReadsNearer();
    var a, b := Contrib(100.0, 6.0, 0), Contrib(115.0, 2.0, 0);
    assert Contribution(c.us1, 0) == Some(a) && Contribution(c.us2, 0) == Some(b);
    SafeEdgeAgainstNearest(sqrt, fs, a, b, LongAccel(c.imu1, c.imu2, 0), 0);
  }

  // ---- One call in numbers ----

  /** The sensor is HEALTHY or SUSPECT and its newest sample is at most 300 ms old. */
  ghost predicate Fresh(v: SensorView, now: uint64) {
    Usable(v.state) && v.log != [] && now <= v.log[|v.log| - 1].timestampUs + 300_000
  }

  function Reading(v: SensorView): real
    requires v.log != []
  {
    Primary(v.log[|v.log| - 1])
  }

  /** The age of the newest sample; 0 for one stamped later than `now`. */
  function ReadingAge(v: SensorView, now: uint64): int
    requires v.log != []
  {
    Max(0, now - v.log[|v.log| - 1].timestampUs)
  }

  /** A sensor contributes exactly while its newest sample is fresh: that reading, 2 cm of uncertainty when HEALTHY
      and 6 cm when SUSPECT, and its age. */
  lemma ContributesIffFresh(v: SensorView, now: uint64)
    ensures FreshSample(v, now).Some? <==> Fresh(v, now)
    ensures Contribution(v, now).Some? <==> Fresh(v, now)
    ensures Fresh(v, now) ==>
              && FreshSample(v, now).value == v.log[|v.log| - 1]
              && Contribution(v, now).value.cm == Reading(v)
              && Contribution(v, now).value.sigmaCm == (if v.state.Healthy? then 2.0 else 6.0)
              && Contribution(v, now).value.ageUs == ReadingAge(v, now)
  {
  }

  /** An acceleration in metres per second squared from a reading in g; readings below 0.03 g count as rest. */
  ghost predicate InMps2(accel: Option<real>, g: real) {
    accel == Some(if -0.03 < g < 0.03 then 0.0 else 9.80665 * g)
  }

  /** The acceleration comes from IMU1 whenever that is fresh and usable, from IMU2 only when IMU1 is not, and
      from nowhere when neither is. */
  lemma AccelerationSource(imu1: SensorView, imu2: SensorView, now: uint64)
    ensures Fresh(imu1, now) ==> InMps2(LongAccel(imu1, imu2, now), Reading(imu1))
    ensures !Fresh(imu1, now) && Fresh(imu2, now) ==> InMps2(LongAccel(imu1, imu2, now), Reading(imu2))
    ensures !Fresh(imu1, now) && !Fresh(imu2, now) ==> LongAccel(imu1, imu2, now) == None
  {
    ContributesIffFresh(imu1, now);
    ContributesIffFresh(imu2, now);
  }

  /** The safe edge is the distance less the uncertainty, and never negative. */
  ghost predicate EdgeIs(r: FusionResult) {
    r.safeDistanceCm == if r.distanceCm >= r.uncertaintyCm then r.distanceCm - r.uncertaintyCm else 0.0
  }

  /** Fusion sides with the nearer of two readings and charges the whole spread against it. */
  ghost predicate PessimisticReport(r: FusionResult, x: real, y: real) {
    && r.mode.Full? && r.valid && r.disagreement && r.contributors == 2 && EdgeIs(r)
    && (r.distanceCm == x || r.distanceCm == y) && r.distanceCm <= x && r.distanceCm <= y
    && r.uncertaintyCm == if x >= y then x - y else y - x
  }

  function MeanOf(x: real, y: real, xState: SensorState, yState: SensorState): real {
    if xState == yState then (x + y) / 2.0 else if xState.Healthy? then 0.9 * x + 0.1 * y else 0.1 * x + 0.9 * y
  }

  ghost predicate RootOf(root: real, xState: SensorState, yState: SensorState) {
    && root >= 0.0
    && root * root == if xState.Healthy? && yState.Healthy? then 2.0 else if xState == yState then 18.0 else 3.6
  }

  /** Fusion reports the middle of two equally trusted readings, or a point nine tenths of the way to the HEALTHY one;
      half the spread adds to the root of the fused variance. */
  ghost predicate MeanReport(r: FusionResult, x: real, y: real, xState: SensorState, yState: SensorState) {
    && r.mode.Full? && r.valid && !r.disagreement && r.contributors == 2 && EdgeIs(r)
    && r.distanceCm == MeanOf(x, y, xState, yState)
    && RootOf(r.uncertaintyCm - (if x >= y then x - y else y - x) * 0.5, xState, yState)
  }

  lemma FullCall(sqrt: real -> real, fs: FusionState, c: Call)
    requires Fresh(c.us1, c.now) && Fresh(c.us2, c.now)
    ensures var a, b := Contribution(c.us1, c.now), Contribution(c.us2, c.now);
            && a.Some? && b.Some? && Plausible(a.value) && Plausible(b.value)
            && Called(sqrt, fs, c).1
               == Result(Full, PairDistance(sqrt, a.value, b.value).0, PairDistance(sqrt, a.value, b.value).1, 2,
                         Min(a.value.ageUs, b.value.ageUs), Abs(a.value.cm - b.value.cm) > 20.0)
  {
    ContributesIffFresh(c.us1, c.now);
    ContributesIffFresh(c.us2, c.now);
  }

  /** A FULL call whose readings lie more than 20 cm apart is reported pessimistically. */
  lemma DisagreementIsPessimistic(sqrt: real -> real, fs: FusionState, c: Call)
    requires Fresh(c.us1, c.now) && Fresh(c.us2, c.now) && Abs(Reading(c.us1) - Reading(c.us2)) > 20.0
    ensures PessimisticReport(Called(sqrt, fs, c).1, Reading(c.us1), Reading(c.us2))
    ensures Called(sqrt, fs, c).1.ageUs == Min(ReadingAge(c.us1, c.now), ReadingAge(c.us2, c.now))
  {
    FullCall(sqrt, fs, c);
    ContributesIffFresh(c.us1, c.now);
    ContributesIffFresh(c.us2, c.now);
  }

  lemma MeanOfPair(sqrt: real -> real, a: Contrib, b: Contrib, x: SensorState, y: SensorState)
    requires IsSqrt(sqrt) && Usable(x) && Usable(y)
    requires a.sigmaCm == Sigma(x) && b.sigmaCm == Sigma(y)
    ensures PairMean(sqrt, a, b).0 == MeanOf(a.cm, b.cm, x, y)
    ensures RootOf(PairMean(sqrt, a, b).1 - Abs(a.cm - b.cm) * 0.5, x, y)
  {
    PairCases(sqrt, a, b);
    PairRoots(sqrt, a, b);
  }

  /** A FULL call whose readings agree within 20 cm reports their weighted mean. */
  lemma AgreementIsMean(sqrt: real -> real, fs: FusionState, c: Call)
    requires Fresh(c.us1, c.now) && Fresh(c.us2, c.now) && Abs(Reading(c.us1) - Reading(c.us2)) <= 20.0
    requires IsSqrt(sqrt)
    ensures MeanReport(Called(sqrt, fs, c).1, Reading(c.us1), Reading(c.us2), c.us1.state, c.us2.state)
    ensures Called(sqrt, fs, c).1.ageUs == Min(ReadingAge(c.us1, c.now), ReadingAge(c.us2, c.now))
  {
    FullCall(sqrt, fs, c);
    ContributesIffFresh(c.us1, c.now);
    ContributesIffFresh(c.us2, c.now);
    MeanOfPair(sqrt, Contribution(c.us1, c.now).value, Contribution(c.us2, c.now).value, c.us1.state, c.us2.state);
  }

  /** With one fresh sensor its reading is reported as it is, give or take 5 cm when HEALTHY and 15 cm when SUSPECT. */
  lemma SingleIsReading(sqrt: real -> real, fs: FusionState, c: Call, v: SensorView)
    requires Fresh(v, c.now) && ((v == c.us1 && !Fresh(c.us2, c.now)) || (v == c.us2 && !Fresh(c.us1, c.now)))
    ensures var r := Called(sqrt, fs, c).1;
            && r.mode.Single? && r.valid && !r.disagreement && r.contributors == 1 && EdgeIs(r)
            && r.distanceCm == Reading(v) && r.uncertaintyCm == (if v.state.Healthy? then 5.0 else 15.0)
            && r.ageUs == ReadingAge(v, c.now)
  {
    ContributesIffFresh(c.us1, c.now);
    ContributesIffFresh(c.us2, c.now);
  }

  /** The zones by their intervals of the safe edge; an invalid range always means STOP. */
  lemma ZoneIntervals(r: FusionResult)
    ensures ZoneOf(r) == SafeZone <==> r.valid && 100.0 < r.safeDistanceCm
    ensures ZoneOf(r) == NormalZone <==> r.valid && 60.0 < r.safeDistanceCm <= 100.0
    ensures ZoneOf(r) == CautionZone <==> r.valid && 30.0 < r.safeDistanceCm <= 60.0
    ensures ZoneOf(r) == SlowZone <==> r.valid && 15.0 < r.safeDistanceCm <= 30.0
    ensures ZoneOf(r) == StopZone <==> !r.valid || r.safeDistanceCm <= 15.0
  {
  }

  /** Less room never relaxes the zone. */
  lemma LessRoomNeverRelaxes(r: FusionResult, r': FusionResult)
    requires r'.safeDistanceCm <= r.safeDistanceCm && (r'.valid ==> r.valid)
    ensures Severity(ZoneOf(r')) >= Severity(ZoneOf(r))
  {
  }
}
