/** How far a holdover episode carries the distance: exact motion, its bounds, and the clock it is integrated over. */
module Drift {
  import opened SensorTypes
  import opened SensorBuffers
  import opened Fusion
  import opened FusionRuns

  // ---- Time ----

  /** Seconds integrated by call j: the time since the call before it, at most half a second. */
  function DeltaSeconds(calls: seq<Call>, j: nat): real
    requires 0 < j < |calls|
  {
    var gapUs := calls[j].now - calls[j - 1].now;
    if gapUs > 500_000 then 0.5 else gapUs as real / 1000000.0
  }

  /** Seconds integrated by the calls m+1, ..., k. */
  function Seconds(calls: seq<Call>, m: nat, k: nat): real
    requires k < |calls|
  {
    if k <= m then 0.0 else Seconds(calls, m, k - 1) + DeltaSeconds(calls, k)
  }

  /** The squares of those steps, added up. */
  function SquaredSeconds(calls: seq<Call>, m: nat, k: nat): real
    requires k < |calls|
  {
    if k <= m then 0.0 else SquaredSeconds(calls, m, k - 1) + Square(DeltaSeconds(calls, k))
  }

  /** An IMU that cannot be trusted counts as no acceleration. */
  ghost predicate AccelBetween(accel: Option<real>, lo: real, hi: real) {
    match accel
    case Some(a) => lo <= a <= hi
    case None => lo <= 0.0 <= hi
  }

  ghost predicate AccelWithin(accel: Option<real>, bound: real) {
    accel.Some? ==> Abs(accel.value) <= bound
  }

  lemma DeltaBounded(calls: seq<Call>, k: nat)
    requires Clocked(calls) && 0 < k < |calls|
    ensures 0.0 <= DeltaSeconds(calls, k) <= 0.5
    ensures forall fs: FusionState :: fs.lastIntegrateUs == calls[k - 1].now ==>
                                        StepSeconds(fs, calls[k].now) == DeltaSeconds(calls, k)
  {
    assert calls[k - 1].now <= calls[k].now;
  }

  /** No two neighbouring calls among m, ..., k are more than half a second apart. */
  ghost predicate NoLongGap(calls: seq<Call>, m: nat, k: nat) {
    forall j :: m < j <= k < |calls| ==> calls[j].now - calls[j - 1].now <= 500_000
  }

  /** The integrated time never exceeds the elapsed time, and equals it exactly when no gap between two calls
      exceeds half a second. */
  lemma {:induction false} SecondsAreElapsedIff(calls: seq<Call>, m: nat, k: nat)
    requires Clocked(calls) && m <= k < |calls|
    ensures 0.0 <= Seconds(calls, m, k) <= (calls[k].now - calls[m].now) as real / 1000000.0
    ensures Seconds(calls, m, k) == (calls[k].now - calls[m].now) as real / 1000000.0 <==> NoLongGap(calls, m, k)
    decreases k
  {
    if m < k {
      SecondsAreElapsedIff(calls, m, k - 1);
      assert calls[k - 1].now <= calls[k].now;
      assert NoLongGap(calls, m, k) <==> NoLongGap(calls, m, k - 1) && calls[k].now - calls[k - 1].now <= 500_000;
    }
  }

  function Square(x: real): real {
    x * x
  }

  lemma SquareOfStep(dt: real)
    requires 0.0 <= dt <= 0.5
    ensures 0.0 <= 2.0 * Square(dt) <= dt
  {
    Scale(0.0, dt, dt);
    Scale(dt, 0.5, dt);
    assert Square(dt) == dt * dt <= 0.5 * dt;
  }

  lemma SquareOfSum(tau: real, dt: real, tau': real)
    requires tau >= 0.0 && dt >= 0.0 && tau' == tau + dt
    ensures Square(tau) + Square(dt) <= Square(tau')
  {
    assert Square(tau') == tau * tau + 2.0 * (tau * dt) + dt * dt;
    Scale(0.0, tau, dt);
  }

  /** The squares add up to at most half the time, and to at most the square of the time. */
  lemma {:induction false} SquaresBounded(calls: seq<Call>, m: nat, k: nat)
    requires Clocked(calls) && m <= k < |calls|
    ensures 0.0 <= 2.0 * SquaredSeconds(calls, m, k) <= Seconds(calls, m, k)
    ensures SquaredSeconds(calls, m, k) <= Square(Seconds(calls, m, k))
    decreases k
  {
    if m < k {
      SquaresBounded(calls, m, k - 1);
      SecondsAreElapsedIff(calls, m, k - 1);
      DeltaBounded(calls, k);
      SquareOfStep(DeltaSeconds(calls, k));
      SquareOfSum(Seconds(calls, m, k - 1), DeltaSeconds(calls, k), Seconds(calls, m, k));
    }
  }

  // ---- Motion ----

  /** The least and the greatest magnitude of an acceleration between `lo` and `hi`. */
  function Least(lo: real, hi: real): real {
    if lo > 0.0 then lo else if hi < 0.0 then -hi else 0.0
  }

  function Greatest(lo: real, hi: real): real {
    if hi >= -lo then hi else -lo
  }

  /** The product, named so that proofs can pass it around whole. */
  function Times(a: real, x: real): real {
    a * x
  }

  /** a*x <= y <= b*x. */
  ghost predicate Between(a: real, b: real, x: real, y: real) {
    Times(a, x) <= y <= Times(b, x)
  }

  /** What accelerations between `lo` and `hi` can do in tau seconds from rest, if one metre per second squared
      covers `reach` centimetres in that time: gain lo*tau to hi*tau of velocity, and cover `reach` centimetres
      per unit of acceleration. */
  ghost predicate DriftBetween(lo: real, hi: real, tau: real, reach: real, velocity: real, fall: real) {
    Between(lo, hi, tau, velocity) && Between(Least(lo, hi), Greatest(lo, hi), reach, fall)
  }

  lemma SpeedStep(lo: real, hi: real, tau: real, dt: real, tau': real, v: real, accel: Option<real>)
    requires dt >= 0.0 && tau' == tau + dt && Between(lo, hi, tau, v) && AccelBetween(accel, lo, hi)
    ensures Between(lo, hi, tau', Accelerated(v, accel, dt))
  {
    assert lo * (tau + dt) == lo * tau + lo * dt && hi * (tau + dt) == hi * tau + hi * dt;
    var a := if accel.Some? then accel.value else 0.0;
    Scale(lo, a, dt);
    Scale(a, hi, dt);
  }

  lemma TimesGrows(a: real, b: real, x: real)
    requires a <= b && x >= 0.0
    ensures Times(a, x) <= Times(b, x)
  {
    Scale(a, b, x);
  }

  lemma TimesNegative(a: real, x: real)
    ensures Times(-a, x) == -Times(a, x) && Times(0.0, x) == 0.0
  {
  }

  lemma SpeedBetween(lo: real, hi: real, t: real, v: real)
    requires t >= 0.0 && lo <= hi && Between(lo, hi, t, v)
    ensures Between(Least(lo, hi), Greatest(lo, hi), t, Abs(v))
  {
    TimesNegative(lo, t);
    TimesNegative(hi, t);
    TimesGrows(hi, Greatest(lo, hi), t);
    TimesGrows(-lo, Greatest(lo, hi), t);
    if lo > 0.0 {
      TimesGrows(0.0, lo, t);
    } else if hi < 0.0 {
      TimesGrows(hi, 0.0, t);
    }
  }

  lemma ScaleReach(a: real, reach: real, t: real, dt: real)
    ensures a * (reach + 100.0 * (t * dt)) == a * reach + ((a * t) * dt) * 100.0
  {
  }

  lemma FallStep(a: real, b: real, t: real, dt: real, v: real, reach: real, fall: real)
    requires dt >= 0.0 && Between(a, b, t, Abs(v)) && Between(a, b, reach, fall)
    ensures Between(a, b, reach + 100.0 * (t * dt), fall + Travel(v, dt))
  {
    ScaleReach(a, reach, t, dt);
    ScaleReach(b, reach, t, dt);
    Scale(a * t, Abs(v), dt);
    Scale(Abs(v), b * t, dt);
  }

  /** Centimetres that one metre per second squared covers from rest during the calls m+1, ..., k. */
  function Reach(calls: seq<Call>, m: nat, k: nat): real
    requires k < |calls|
  {
    if k <= m then 0.0 else Reach(calls, m, k - 1) + 100.0 * (Seconds(calls, m, k) * DeltaSeconds(calls, k))
  }

  lemma SquareStep(tau: real, q: real, dt: real, tau': real)
    requires tau' == tau + dt
    ensures 50.0 * (Square(tau') + (q + Square(dt))) == 50.0 * (Square(tau) + q) + 100.0 * (tau' * dt)
  {
  }

  /** That is 50 centimetres for the square of the time and 50 more for the squares of its steps. */
  lemma {:induction false} ReachIsSquares(calls: seq<Call>, m: nat, k: nat)
    requires m <= k < |calls|
    ensures Reach(calls, m, k) == 50.0 * (Square(Seconds(calls, m, k)) + SquaredSeconds(calls, m, k))
    decreases k
  {
    if m < k {
      ReachIsSquares(calls, m, k - 1);
      SquareStep(Seconds(calls, m, k - 1), SquaredSeconds(calls, m, k - 1), DeltaSeconds(calls, k),
                 Seconds(calls, m, k));
    }
  }

  /** Between 50*tau^2 and 100*tau^2 centimetres, and at most 50*(tau^2 + tau/2). */
  lemma ReachBounded(calls: seq<Call>, m: nat, k: nat)
    requires Clocked(calls) && m <= k < |calls|
    ensures ReachWithin(Reach(calls, m, k), Seconds(calls, m, k))
  {
    ReachIsSquares(calls, m, k);
    SquaresBounded(calls, m, k);
  }

  ghost predicate ReachWithin(reach: real, tau: real) {
    && 50.0 * Square(tau) <= reach <= 100.0 * Square(tau)
    && reach <= 50.0 * (Square(tau) + tau / 2.0)
  }

  /** One coasting step, in the terms of the call times. */
  lemma CoastStep(fs: FusionState, calls: seq<Call>, m: nat, k: nat)
    requires m < k < |calls| && Clocked(calls) && CoastRun(fs, calls, m, k - 1).lastIntegrateUs == calls[k - 1].now
    ensures var from, to, dt := CoastRun(fs, calls, m, k - 1), CoastRun(fs, calls, m, k), DeltaSeconds(calls, k);
            && to.lastIntegrateUs == calls[k].now
            && to.velocityMps == Accelerated(from.velocityMps, AccelAt(calls, k), dt)
            && to.lastGoodCm == from.lastGoodCm - Travel(to.velocityMps, dt)
            && dt >= 0.0 && Seconds(calls, m, k) == Seconds(calls, m, k - 1) + dt
  {
    DeltaBounded(calls, k);
    assert StepSeconds(CoastRun(fs, calls, m, k - 1), calls[k].now) == DeltaSeconds(calls, k);
  }

  lemma {:induction false} CoastingSpeed(fs: FusionState, calls: seq<Call>, m: nat, k: nat, lo: real, hi: real)
    requires m <= k < |calls| && fs.lastIntegrateUs == calls[m].now && fs.velocityMps == 0.0 && Clocked(calls)
    requires forall j :: m < j <= k ==> AccelBetween(AccelAt(calls, j), lo, hi)
    ensures CoastRun(fs, calls, m, k).lastIntegrateUs == calls[k].now
    ensures Between(lo, hi, Seconds(calls, m, k), CoastRun(fs, calls, m, k).velocityMps)
    decreases k
  {
    if m < k {
      CoastingSpeed(fs, calls, m, k - 1, lo, hi);
      CoastStep(fs, calls, m, k);
      SpeedStep(lo, hi, Seconds(calls, m, k - 1), DeltaSeconds(calls, k), Seconds(calls, m, k),
                CoastRun(fs, calls, m, k - 1).velocityMps, AccelAt(calls, k));
    }
  }

  lemma FallBetween(fs: FusionState, calls: seq<Call>, m: nat, k: nat, a: real, b: real)
    requires m < k < |calls| && DeltaSeconds(calls, k) >= 0.0
    requires Between(a, b, Seconds(calls, m, k), Abs(CoastRun(fs, calls, m, k).velocityMps))
    requires Between(a, b, Reach(calls, m, k - 1), fs.lastGoodCm - CoastRun(fs, calls, m, k - 1).lastGoodCm)
    requires CoastRun(fs, calls, m, k).lastGoodCm
             == CoastRun(fs, calls, m, k - 1).lastGoodCm
                - Travel(CoastRun(fs, calls, m, k).velocityMps, DeltaSeconds(calls, k))
    ensures Between(a, b, Reach(calls, m, k), fs.lastGoodCm - CoastRun(fs, calls, m, k).lastGoodCm)
  {
    FallStep(a, b, Seconds(calls, m, k), DeltaSeconds(calls, k), CoastRun(fs, calls, m, k).velocityMps,
             Reach(calls, m, k - 1), fs.lastGoodCm - CoastRun(fs, calls, m, k - 1).lastGoodCm);
  }

  lemma {:induction false} CoastingFall(fs: FusionState, calls: seq<Call>, m: nat, k: nat, lo: real, hi: real)
    requires m <= k < |calls| && fs.lastIntegrateUs == calls[m].now && fs.velocityMps == 0.0
    requires lo <= hi && Clocked(calls)
    requires forall j :: m < j <= k ==> AccelBetween(AccelAt(calls, j), lo, hi)
    ensures Between(Least(lo, hi), Greatest(lo, hi), Reach(calls, m, k),
                    fs.lastGoodCm - CoastRun(fs, calls, m, k).lastGoodCm)
    decreases k
  {
    if m < k {
      CoastingFall(fs, calls, m, k - 1, lo, hi);
      CoastingSpeed(fs, calls, m, k - 1, lo, hi);
      CoastingSpeed(fs, calls, m, k, lo, hi);
      CoastStep(fs, calls, m, k);
      SecondsAreElapsedIff(calls, m, k);
      SpeedBetween(lo, hi, Seconds(calls, m, k), CoastRun(fs, calls, m, k).velocityMps);
      FallBetween(fs, calls, m, k, Least(lo, hi), Greatest(lo, hi));
    }
  }

  lemma CoastingDrift(fs: FusionState, calls: seq<Call>, m: nat, k: nat, lo: real, hi: real)
    requires m <= k < |calls| && fs.lastIntegrateUs == calls[m].now && fs.velocityMps == 0.0
    requires lo <= hi && Clocked(calls)
    requires forall j :: m < j <= k ==> AccelBetween(AccelAt(calls, j), lo, hi)
    ensures DriftBetween(lo, hi, Seconds(calls, m, k), Reach(calls, m, k),
                         CoastRun(fs, calls, m, k).velocityMps, fs.lastGoodCm - CoastRun(fs, calls, m, k).lastGoodCm)
  {
    CoastingSpeed(fs, calls, m, k, lo, hi);
    CoastingFall(fs, calls, m, k, lo, hi);
  }

  /** The motion charged by a holdover episode, told from its call times and accelerations alone: if every
      acceleration used lies between `lo` and `hi`, the velocity lies between lo*tau and hi*tau and the distance
      has fallen by at least the least and at most the greatest magnitude in between times the reach. */
  lemma HoldoverDrift(sqrt: real -> real, calls: seq<Call>, m: nat, k: nat, lo: real, hi: real)
    requires Clocked(calls) && HoldsOver(calls, m, k) && lo <= hi
    requires forall j :: m < j <= k ==> AccelBetween(AccelAt(calls, j), lo, hi)
    ensures DriftBetween(lo, hi, Seconds(calls, m, k), Reach(calls, m, k), Before(sqrt, calls, k + 1).velocityMps,
                         Report(sqrt, calls, m).distanceCm - Before(sqrt, calls, k + 1).lastGoodCm)
    ensures m < k ==> Report(sqrt, calls, k).distanceCm == Floor0(Before(sqrt, calls, k + 1).lastGoodCm)
  {
    HoldoverIsCoasting(sqrt, calls, m, k);
    CoastingDrift(Refreshed(Report(sqrt, calls, m).distanceCm, calls[m].now), calls, m, k, lo, hi);
  }

  lemma UniformFall(a: real, reach: real, fall: real)
    requires Between(Least(a, a), Greatest(a, a), reach, fall)
    ensures fall == Times(Abs(a), reach)
  {
    assert Least(a, a) == Greatest(a, a) == Abs(a);
  }

  lemma UniformVelocity(sqrt: real -> real, calls: seq<Call>, m: nat, k: nat, a: real)
    requires Clocked(calls) && HoldsOver(calls, m, k)
    requires forall j :: m < j <= k ==> AccelAt(calls, j) == Some(a)
    ensures Before(sqrt, calls, k + 1).velocityMps == Times(a, Seconds(calls, m, k))
  {
    HoldoverIsCoasting(sqrt, calls, m, k);
    CoastingSpeed(Refreshed(Report(sqrt, calls, m).distanceCm, calls[m].now), calls, m, k, a, a);
  }

  /** Under uniform acceleration the drift is known exactly: the velocity is a*tau and the fall |a| times the
      reach. */
  lemma UniformAcceleration(sqrt: real -> real, calls: seq<Call>, m: nat, k: nat, a: real)
    requires Clocked(calls) && HoldsOver(calls, m, k)
    requires forall j :: m < j <= k ==> AccelAt(calls, j) == Some(a)
    ensures Before(sqrt, calls, k + 1).velocityMps == Times(a, Seconds(calls, m, k))
    ensures Report(sqrt, calls, m).distanceCm - Before(sqrt, calls, k + 1).lastGoodCm
            == Times(Abs(a), Reach(calls, m, k))
  {
    UniformVelocity(sqrt, calls, m, k, a);
    HoldoverIsCoasting(sqrt, calls, m, k);
    var start := Refreshed(Report(sqrt, calls, m).distanceCm, calls[m].now);
    CoastingFall(start, calls, m, k, a, a);
    UniformFall(a, Reach(calls, m, k), start.lastGoodCm - CoastRun(start, calls, m, k).lastGoodCm);
  }

  /** Some bound on the accelerations used by the calls m+1, ..., k. */
  lemma {:induction false} SomeBound(calls: seq<Call>, m: nat, k: nat, least: real) returns (bound: real)
    requires m <= k < |calls|
    ensures bound >= least && forall j :: m < j <= k ==> AccelWithin(AccelAt(calls, j), bound)
    decreases k
  {
    if k == m {
      bound := least;
    } else {
      bound := SomeBound(calls, m, k - 1, least);
      var accel := AccelAt(calls, k);
      if accel.Some? && Abs(accel.value) > bound {
        bound := Abs(accel.value);
      }
    }
  }

  /** A trusted acceleration of at least `least`, forwards or backwards. */
  ghost predicate Pushes(accel: Option<real>, forwards: bool, least: real) {
    accel.Some? && if forwards then accel.value >= least else accel.value <= -least
  }

  /** The interval the accelerations of a push lie in. */
  lemma PushBetween(calls: seq<Call>, m: nat, k: nat, forwards: bool, least: real) returns (lo: real, hi: real)
    requires m <= k < |calls| && least >= 0.0
    requires forall j :: m < j <= k ==> Pushes(AccelAt(calls, j), forwards, least)
    ensures lo <= hi && Least(lo, hi) == least && if forwards then lo == least else hi == -least
    ensures forall j :: m < j <= k ==> AccelBetween(AccelAt(calls, j), lo, hi)
  {
    var bound := SomeBound(calls, m, k, least);
    lo, hi := if forwards then least else -bound, if forwards then bound else -least;
    forall j | m < j <= k
      ensures AccelBetween(AccelAt(calls, j), lo, hi)
    {
      assert Pushes(AccelAt(calls, j), forwards, least) && AccelWithin(AccelAt(calls, j), bound);
    }
  }

  lemma LeastFall(least: real, greatest: real, tau: real, reach: real, fall: real)
    requires least >= 0.0 && ReachWithin(reach, tau) && Between(least, greatest, reach, fall)
    ensures fall >= 50.0 * Times(least, Square(tau))
  {
    Scale(50.0 * Square(tau), reach, least);
    assert least * (50.0 * Square(tau)) == 50.0 * (least * Square(tau));
  }

  lemma CoastingGainsSpeed(fs: FusionState, calls: seq<Call>, m: nat, k: nat, forwards: bool, least: real)
    requires m <= k < |calls| && fs.lastIntegrateUs == calls[m].now && fs.velocityMps == 0.0 && Clocked(calls)
    requires least >= 0.0 && forall j :: m < j <= k ==> Pushes(AccelAt(calls, j), forwards, least)
    ensures var v, gained := CoastRun(fs, calls, m, k).velocityMps, Times(least, Seconds(calls, m, k));
            if forwards then v >= gained else v <= -gained
  {
    var lo, hi := PushBetween(calls, m, k, forwards, least);
    CoastingSpeed(fs, calls, m, k, lo, hi);
    if !forwards {
      TimesNegative(least, Seconds(calls, m, k));
    }
  }

  lemma CoastingChargesMotion(fs: FusionState, calls: seq<Call>, m: nat, k: nat, forwards: bool, least: real)
    requires m <= k < |calls| && fs.lastIntegrateUs == calls[m].now && fs.velocityMps == 0.0 && Clocked(calls)
    requires least >= 0.0 && forall j :: m < j <= k ==> Pushes(AccelAt(calls, j), forwards, least)
    ensures fs.lastGoodCm - CoastRun(fs, calls, m, k).lastGoodCm
            >= 50.0 * Times(least, Square(Seconds(calls, m, k)))
  {
    var lo, hi := PushBetween(calls, m, k, forwards, least);
    CoastingFall(fs, calls, m, k, lo, hi);
    ReachBounded(calls, m, k);
    LeastFall(least, Greatest(lo, hi), Seconds(calls, m, k), Reach(calls, m, k),
              fs.lastGoodCm - CoastRun(fs, calls, m, k).lastGoodCm);
  }

  /** Speed is gained: if every acceleration of an episode is at least A in one direction, then after tau integrated
      seconds the speed in that direction is at least A*tau. */
  lemma HoldoverGainsSpeed(sqrt: real -> real, calls: seq<Call>, m: nat, k: nat, forwards: bool, least: real)
    requires Clocked(calls) && HoldsOver(calls, m, k)
    requires least >= 0.0 && forall j :: m < j <= k ==> Pushes(AccelAt(calls, j), forwards, least)
    ensures var v, gained := Before(sqrt, calls, k + 1).velocityMps, Times(least, Seconds(calls, m, k));
            if forwards then v >= gained else v <= -gained
  {
    HoldoverIsCoasting(sqrt, calls, m, k);
    CoastingGainsSpeed(Refreshed(Report(sqrt, calls, m).distanceCm, calls[m].now), calls, m, k, forwards, least);
  }

  /** Motion is charged: if every acceleration of an episode is at least A in one direction, then after tau
      integrated seconds the distance has fallen by at least 50*A*tau^2 centimetres. */
  lemma HoldoverChargesMotion(sqrt: real -> real, calls: seq<Call>, m: nat, k: nat, forwards: bool, least: real)
    requires Clocked(calls) && HoldsOver(calls, m, k)
    requires least >= 0.0 && forall j :: m < j <= k ==> Pushes(AccelAt(calls, j), forwards, least)
    ensures Report(sqrt, calls, m).distanceCm - Before(sqrt, calls, k + 1).lastGoodCm
            >= 50.0 * Times(least, Square(Seconds(calls, m, k)))
  {
    HoldoverIsCoasting(sqrt, calls, m, k);
    CoastingChargesMotion(Refreshed(Report(sqrt, calls, m).distanceCm, calls[m].now), calls, m, k, forwards, least);
  }

  /** Centimetres covered in so many seconds at this velocity. */
  function Glide(velocity: real, seconds: real): real {
    100.0 * (Abs(velocity) * seconds)
  }

  lemma GlideStep(v: real, tau: real, dt: real, tau': real)
    requires tau' == tau + dt
    ensures Glide(v, tau') == Glide(v, tau) + Travel(v, dt)
  {
  }

  lemma {:induction false} CoastingIntegrates(fs: FusionState, calls: seq<Call>, m: nat, k: nat)
    requires m <= k < |calls| && fs.lastIntegrateUs == calls[m].now
    ensures CoastRun(fs, calls, m, k).lastIntegrateUs == calls[k].now
  {
  }

  lemma {:induction false} CoastingBlindly(fs: FusionState, calls: seq<Call>, m: nat, i: nat, k: nat)
    requires m <= i <= k < |calls| && Clocked(calls) && fs.lastIntegrateUs == calls[m].now
    requires forall j :: i < j <= k ==> AccelAt(calls, j) == None
    ensures CoastRun(fs, calls, m, k).velocityMps == CoastRun(fs, calls, m, i).velocityMps
    ensures CoastRun(fs, calls, m, i).lastGoodCm - CoastRun(fs, calls, m, k).lastGoodCm
            == Glide(CoastRun(fs, calls, m, i).velocityMps, Seconds(calls, i, k))
    decreases k
  {
    if i < k {
      CoastingBlindly(fs, calls, m, i, k - 1);
      CoastingIntegrates(fs, calls, m, k - 1);
      CoastStep(fs, calls, m, k);
      GlideStep(CoastRun(fs, calls, m, i).velocityMps, Seconds(calls, i, k - 1), DeltaSeconds(calls, k),
                Seconds(calls, i, k));
    } else {
      assert Glide(CoastRun(fs, calls, m, i).velocityMps, 0.0) == 0.0;
    }
  }

  /** Without a trusted IMU from call i+1 on, the velocity keeps its value v and every further second integrated
      costs exactly 100*|v| centimetres. */
  lemma HoldoverWithoutImu(sqrt: real -> real, calls: seq<Call>, m: nat, i: nat, k: nat)
    requires Clocked(calls) && HoldsOver(calls, m, k) && m <= i <= k
    requires forall j :: i < j <= k ==> AccelAt(calls, j) == None
    ensures var v := Before(sqrt, calls, i + 1).velocityMps;
            && Before(sqrt, calls, k + 1).velocityMps == v
            && Before(sqrt, calls, i + 1).lastGoodCm - Before(sqrt, calls, k + 1).lastGoodCm
               == Glide(v, Seconds(calls, i, k))
  {
    assert HoldsOver(calls, m, i) by {
      assert calls[i].now <= calls[k].now;
    }
    HoldoverIsCoasting(sqrt, calls, m, i);
    HoldoverIsCoasting(sqrt, calls, m, k);
    CoastingBlindly(Refreshed(Report(sqrt, calls, m).distanceCm, calls[m].now), calls, m, i, k);
  }

  lemma HalfSecondReach(calls: seq<Call>, m: nat)
    requires m + 1 < |calls| && calls[m + 1].now - calls[m].now == 500_000
    ensures Reach(calls, m, m + 1) == 25.0
  {
    assert DeltaSeconds(calls, m + 1) == 0.5;
    assert Seconds(calls, m, m + 1) == Seconds(calls, m, m) + 0.5 == 0.5;
    assert Reach(calls, m, m + 1) == Reach(calls, m, m) + 100.0 * (0.5 * 0.5);
  }

  /** One holdover call half a second after the contact charges 25 centimetres per metre per second squared: 100 cm
      at 4 m/s^2. */
  lemma HalfASecondOfMotion(sqrt: real -> real, calls: seq<Call>, m: nat, a: real)
    requires Clocked(calls) && m + 1 < |calls| && HoldsOver(calls, m, m + 1)
    requires calls[m + 1].now - calls[m].now == 500_000 && AccelAt(calls, m + 1) == Some(a)
    ensures Report(sqrt, calls, m).distanceCm - Before(sqrt, calls, m + 2).lastGoodCm == 25.0 * Abs(a)
  {
    UniformAcceleration(sqrt, calls, m, m + 1, a);
    HalfSecondReach(calls, m);
    assert Times(Abs(a), 25.0) == 25.0 * Abs(a);
  }

  ghost predicate DriftWithin(bound: real, tau: real, velocity: real, fall: real) {
    && Abs(velocity) <= bound * tau
    && 0.0 <= fall <= 100.0 * (bound * (tau * tau))
    && fall <= 50.0 * (bound * (tau * tau + tau / 2.0))
  }

  lemma WithinFromBetween(bound: real, tau: real, reach: real, velocity: real, fall: real)
    requires bound >= 0.0 && ReachWithin(reach, tau)
    requires DriftBetween(-bound, bound, tau, reach, velocity, fall)
    ensures DriftWithin(bound, tau, velocity, fall)
  {
    assert (-bound) * tau == -(bound * tau);
    assert Least(-bound, bound) * reach == 0.0;
    Scale(reach, 100.0 * (tau * tau), bound);
    Scale(reach, 50.0 * (tau * tau + tau / 2.0), bound);
  }

  lemma CoastingDriftIsBounded(fs: FusionState, calls: seq<Call>, m: nat, k: nat, bound: real)
    requires m <= k < |calls| && fs.lastIntegrateUs == calls[m].now && fs.velocityMps == 0.0 && bound >= 0.0
    requires forall j :: m < j <= k ==> AccelWithin(AccelAt(calls, j), bound)
    requires Clocked(calls)
    ensures DriftWithin(bound, Seconds(calls, m, k), CoastRun(fs, calls, m, k).velocityMps,
                        fs.lastGoodCm - CoastRun(fs, calls, m, k).lastGoodCm)
  {
    forall j | m < j <= k
      ensures AccelBetween(AccelAt(calls, j), -bound, bound)
    {
      assert AccelWithin(AccelAt(calls, j), bound);
    }
    CoastingDrift(fs, calls, m, k, -bound, bound);
    ReachBounded(calls, m, k);
    WithinFromBetween(bound, Seconds(calls, m, k), Reach(calls, m, k), CoastRun(fs, calls, m, k).velocityMps,
                      fs.lastGoodCm - CoastRun(fs, calls, m, k).lastGoodCm);
  }

  /** Holdover drift: if every acceleration used is at most `bound`, then after tau integrated seconds the speed
      is at most bound*tau and the carried distance has fallen by at most 100*bound*tau^2 (and, thanks to the
      half-second clamp, by at most 50*bound*(tau^2 + tau/2)), for any call schedule. tau never exceeds the time
      since contact, nor 1.5 s. */
  lemma HoldoverDriftIsBounded(sqrt: real -> real, calls: seq<Call>, m: nat, k: nat, bound: real)
    requires Clocked(calls) && HoldsOver(calls, m, k) && bound >= 0.0
    requires forall j :: m < j <= k ==> AccelWithin(AccelAt(calls, j), bound)
    ensures 0.0 <= Seconds(calls, m, k) <= (calls[k].now - calls[m].now) as real / 1000000.0 <= 1.5
    ensures DriftWithin(bound, Seconds(calls, m, k), Before(sqrt, calls, k + 1).velocityMps,
                        Report(sqrt, calls, m).distanceCm - Before(sqrt, calls, k + 1).lastGoodCm)
    ensures m < k ==> Report(sqrt, calls, k).distanceCm == Floor0(Before(sqrt, calls, k + 1).lastGoodCm)
  {
    HoldoverIsCoasting(sqrt, calls, m, k);
    CoastingDriftIsBounded(Refreshed(Report(sqrt, calls, m).distanceCm, calls[m].now), calls, m, k, bound);
    SecondsAreElapsedIff(calls, m, k);
  }

  // ---- Motion in numbers ----

  /** A HEALTHY sensor reads 200 cm and then nothing; half a second later IMU1 reads 0.2 g. */
  function LossWhileAccelerating(): (calls: seq<Call>) {
    var us1 := SensorView(Healthy, OneReading(US1, 200.0, 0));
    [Call(0, us1, NOTHING_YET, NOTHING_YET, NOTHING_YET),
     Call(500_000, us1, NOTHING_YET, SensorView(Healthy, OneReading(IMU1, 0.2, 500_000)), NOTHING_YET)]
  }

  lemma LossWhileAcceleratingCalls(sqrt: real -> real)
    ensures var calls := LossWhileAccelerating();
            && |calls| == 2 && Clocked(calls) && HoldsOver(calls, 0, 1) && AccelAt(calls, 1) == Some(1.96133)
            && Report(sqrt, calls, 0).distanceCm == 200.0
  {
    var calls := LossWhileAccelerating();
    SingleIsReading(sqrt, FUSION_INIT, calls[0], calls[0].us1);
    AccelerationSource(calls[1].imu1, calls[1].imu2, 500_000);
  }

  /** At 0.2 g, 1.96133 m/s^2, half a second of holdover costs 49.03325 cm and leaves 14.5 cm of uncertainty. */
  lemma MotionIsChargedInCentimetres(sqrt: real -> real)
    ensures var r := Report(sqrt, LossWhileAccelerating(), 1);
            && r.mode.Holdover? && r.distanceCm == 150.96675 && r.uncertaintyCm == 14.5
            && r.safeDistanceCm == 136.46675 && ZoneOf(r) == SafeZone
  {
    var calls := LossWhileAccelerating();
    LossWhileAcceleratingCalls(sqrt);
    HalfASecondOfMotion(sqrt, calls, 0, 1.96133);
    HoldoverReportIs(sqrt, calls, 0, 1);
  }
}
