/** The four fault checks and the order in which the engine applies them. */
module Detection {
  import opened SensorTypes
  import opened SensorBuffers

  // ---- Specification over the log ----

  ghost predicate IsDelayed(cfg: FdiConfig, log: Log, now: uint64) {
    log == [] || now - log[|log| - 1].timestampUs > cfg.delayTimeoutUs
  }

  /** A full window of samples, as the checks see it. */
  ghost predicate FullWindow(w: seq<Sample>) {
    |w| == BUFFER_LEN && forall i :: 0 <= i < |w| ==> WellFormedSample(w[i])
  }

  /** Within the window, every two samples agree on every component up to the threshold. */
  ghost predicate StuckWindow(w: seq<Sample>, threshold: real)
    requires FullWindow(w)
  {
    forall c :: 0 <= c < w[0].valueCount ==> ComponentStuck(w, c, threshold)
  }

  ghost predicate ComponentStuck(w: seq<Sample>, c: nat, threshold: real)
    requires FullWindow(w) && c < MAX_VALUES
  {
    forall i, j :: 0 <= i < BUFFER_LEN && 0 <= j < BUFFER_LEN ==> w[i].value[c] - w[j].value[c] <= threshold
  }

  /** Some two neighbouring samples differ by more than the threshold in some component. */
  ghost predicate NoisyWindow(w: seq<Sample>, threshold: real)
    requires FullWindow(w)
  {
    exists c, i :: 0 <= c < w[0].valueCount && 0 < i < BUFFER_LEN && JumpAt(w, c, i) > threshold
  }

  ghost function JumpAt(w: seq<Sample>, c: nat, i: nat): real
    requires FullWindow(w) && c < MAX_VALUES && 0 < i < BUFFER_LEN
  {
    Abs(w[i].value[c] - w[i - 1].value[c])
  }

  ghost predicate IsStuck(cfg: FdiConfig, log: Log) {
    var w := Window(log, BUFFER_LEN);
    FullWindow(w) && StuckWindow(w, cfg.stuckThreshold)
  }

  ghost predicate IsNoisy(cfg: FdiConfig, log: Log) {
    var w := Window(log, BUFFER_LEN);
    FullWindow(w) && NoisyWindow(w, cfg.noiseThreshold)
  }

  /** The squared Euclidean distance of the first `n` components. */
  ghost function SquaredDistance(a: seq<real>, b: seq<real>, n: nat): (d: real)
    requires n <= |a| && n <= |b|
    ensures d >= 0.0
  {
    if n == 0 then 0.0
    else SquaredDistance(a, b, n - 1) + (a[n - 1] - b[n - 1]) * (a[n - 1] - b[n - 1])
  }

  /** The newest samples of the pair lie further apart than the threshold. */
  ghost predicate IsContradictory(cfg: FdiConfig, log: Log, red: Option<Log>) {
    && log != [] && red.Some? && red.value != []
    && var a, b := log[|log| - 1], red.value[|red.value| - 1];
    && WellFormedSample(a) && WellFormedSample(b)
    && var n := Min(a.valueCount, b.valueCount);
    && (cfg.contradictionThreshold < 0.0
        || SquaredDistance(a.value, b.value, n) > cfg.contradictionThreshold * cfg.contradictionThreshold)
  }

  /** The first fault that holds, in the order delayed, stuck, noisy, contradictory. */
  ghost function Detect(cfg: FdiConfig, log: Log, red: Option<Log>, now: uint64): FaultType {
    if IsDelayed(cfg, log, now) then Delayed
    else if IsStuck(cfg, log) then Stuck
    else if IsNoisy(cfg, log) then Noisy
    else if IsContradictory(cfg, log, red) then Contradictory
    else NoFault
  }

  // ---- The engine ----

  ghost predicate ValidRedundant(buf: SensorBuffer, red: SensorBuffer?)
    reads buf, buf.samples, red, if red == null then {} else {red.samples}
  {
    buf.Valid() && (red != null ==> red.Valid())
  }

  ghost function LogOf(red: SensorBuffer?): Option<Log>
    reads red
  {
    if red == null then None else Some(red.log)
  }

  method CheckDelayed(cfg: FdiConfig, buf: SensorBuffer, now: uint64) returns (fault: bool)
    requires buf.Valid()
    ensures fault <==> IsDelayed(cfg, buf.log, now)
  {
    var count := buf.Count();
    if count == 0 {
      return true;
    }
    var last := buf.LastTimestamp();
    if now < last {
      return false;
    }
    return now - last > cfg.delayTimeoutUs;
  }

  /** The checks' local copy of the history, and whether it is a full window. */
  method ReadWindow(buf: SensorBuffer) returns (hist: array<Sample>, n: uint8)
    requires buf.Valid()
    ensures fresh(hist) && hist.Length == BUFFER_LEN
    ensures n == |Window(buf.log, BUFFER_LEN)| && hist[..n] == Window(buf.log, BUFFER_LEN)
    ensures n == BUFFER_LEN <==> FullWindow(Window(buf.log, BUFFER_LEN))
    ensures n == BUFFER_LEN ==> FullWindow(hist[..])
  {
    hist := new Sample[BUFFER_LEN](_ => ZERO_SAMPLE);
    n := buf.ReadHistory(hist, BUFFER_LEN);
    assert forall i :: 0 <= i < n ==> WellFormedSample(Window(buf.log, BUFFER_LEN)[i]);
    assert n == BUFFER_LEN ==> hist[..] == hist[..n];
  }

  /** The least and greatest value of one component over the window. */
  method Extremes(hist: array<Sample>, c: uint8) returns (mn: real, mx: real)
    requires FullWindow(hist[..]) && c < MAX_VALUES
    ensures forall i :: 0 <= i < BUFFER_LEN ==> mn <= hist[i].value[c] <= mx
    ensures exists i :: 0 <= i < BUFFER_LEN && hist[i].value[c] == mn
    ensures exists i :: 0 <= i < BUFFER_LEN && hist[i].value[c] == mx
  {
    assert forall i :: 0 <= i < BUFFER_LEN ==> hist[i] == hist[..][i];
    mn, mx := hist[0].value[c], hist[0].value[c];
    var i: uint8 := 1;
    while i < BUFFER_LEN
      invariant 1 <= i <= BUFFER_LEN
      invariant forall k :: 0 <= k < i ==> mn <= hist[k].value[c] <= mx
      invariant exists k :: 0 <= k < i && hist[k].value[c] == mn
      invariant exists k :: 0 <= k < i && hist[k].value[c] == mx
    {
      var v := hist[i].value[c];
      if v < mn {
        mn := v;
      }
      if v > mx {
        mx := v;
      }
      i := i + 1;
    }
  }

  method CheckStuck(cfg: FdiConfig, buf: SensorBuffer) returns (fault: bool)
    requires buf.Valid()
    ensures fault <==> IsStuck(cfg, buf.log)
  {
    var hist, n := ReadWindow(buf);
    if n < BUFFER_LEN {
      return false;
    }
    ghost var w := hist[..];
    assert w == Window(buf.log, BUFFER_LEN);
    var vc := hist[0].valueCount;
    var c: uint8 := 0;
    while c < vc
      invariant c <= vc && hist[..] == w
      invariant forall k :: 0 <= k < c ==> ComponentStuck(w, k, cfg.stuckThreshold)
    {
      var mn, mx := Extremes(hist, c);
      if mx - mn > cfg.stuckThreshold {
        assert !ComponentStuck(w, c, cfg.stuckThreshold);
        return false;
      }
      assert ComponentStuck(w, c, cfg.stuckThreshold);
      c := c + 1;
    }
    return true;
  }

  method CheckNoisy(cfg: FdiConfig, buf: SensorBuffer) returns (fault: bool)
    requires buf.Valid()
    ensures fault <==> IsNoisy(cfg, buf.log)
  {
    var hist, n := ReadWindow(buf);
    if n < BUFFER_LEN {
      return false;
    }
    ghost var w := hist[..];
    assert w == Window(buf.log, BUFFER_LEN);
    var vc := hist[0].valueCount;
    var c: uint8 := 0;
    while c < vc
      invariant c <= vc
      invariant forall k, i :: 0 <= k < c && 0 < i < BUFFER_LEN ==> JumpAt(w, k, i) <= cfg.noiseThreshold
    {
      var i: uint8 := 1;
      while i < n
        invariant 1 <= i <= n
        invariant forall j :: 0 < j < i ==> JumpAt(w, c, j) <= cfg.noiseThreshold
      {
        var delta := hist[i].value[c] - hist[i - 1].value[c];
        if delta < 0.0 {
          delta := -delta;
        }
        assert delta == JumpAt(w, c, i);
        if delta > cfg.noiseThreshold {
          return true;
        }
        i := i + 1;
      }
      c := c + 1;
    }
    return false;
  }

  /** Comparing a root with a threshold is comparing the squares, unless the threshold is negative. */
  lemma RootComparison(root: real, square: real, threshold: real)
    requires root >= 0.0 && root * root == square
    ensures root > threshold <==> threshold < 0.0 || square > threshold * threshold
  {
    if threshold >= 0.0 {
      if root > threshold {
        SquareGrows(threshold, root);
      } else {
        Scale(root, threshold, root);
        Scale(root, threshold, threshold);
      }
    }
  }

  method CheckContradictory(cfg: FdiConfig, buf: SensorBuffer, red: SensorBuffer?, sqrt: real -> real)
    returns (fault: bool)
    requires ValidRedundant(buf, red) && IsSqrt(sqrt)
    ensures fault <==> IsContradictory(cfg, buf.log, LogOf(red))
  {
    if red == null {
      return false;
    }
    var latest := buf.GetLatest();
    if latest == None {
      return false;
    }
    var redLatest := red.GetLatest();
    if redLatest == None {
      return false;
    }
    var a, b := latest.value, redLatest.value;
    assert WellFormedSample(a) && WellFormedSample(b);
    var vc := if a.valueCount < b.valueCount then a.valueCount else b.valueCount;
    var sumsq := 0.0;
    var i: uint8 := 0;
    while i < vc
      invariant i <= vc
      invariant sumsq == SquaredDistance(a.value, b.value, i)
    {
      var d := a.value[i] - b.value[i];
      assert SquaredDistance(a.value, b.value, i + 1) == SquaredDistance(a.value, b.value, i) + d * d;
      sumsq := sumsq + d * d;
      i := i + 1;
    }
    var root := sqrt(sumsq);
    RootComparison(root, sumsq, cfg.contradictionThreshold);
    return root > cfg.contradictionThreshold;
  }

  method FdiDetect(cfg: FdiConfig, buf: SensorBuffer, red: SensorBuffer?, now: uint64, sqrt: real -> real)
    returns (fault: FaultType)
    requires ValidRedundant(buf, red) && IsSqrt(sqrt)
    ensures fault == Detect(cfg, buf.log, LogOf(red), now)
  {
    var delayed := CheckDelayed(cfg, buf, now);
    if delayed {
      return Delayed;
    }
    var stuck := CheckStuck(cfg, buf);
    if stuck {
      return Stuck;
    }
    var noisy := CheckNoisy(cfg, buf);
    if noisy {
      return Noisy;
    }
    var contradictory := CheckContradictory(cfg, buf, red, sqrt);
    if contradictory {
      return Contradictory;
    }
    return NoFault;
  }

  // ---- What the checks mean ----

  lemma {:induction false} DistanceIsSymmetric(a: seq<real>, b: seq<real>, n: nat)
    requires n <= |a| && n <= |b|
    ensures SquaredDistance(a, b, n) == SquaredDistance(b, a, n)
    decreases n
  {
    if n > 0 {
      DistanceIsSymmetric(a, b, n - 1);
      var d := a[n - 1] - b[n - 1];
      assert d * d == (-d) * (-d);
    }
  }

  /** When two paired sensors disagree, the contradiction check fires for both of them: it cannot tell which
      one is lying. */
  lemma ContradictionIsSymmetric(cfg: FdiConfig, log: Log, red: Log)
    ensures IsContradictory(cfg, log, Some(red)) <==> IsContradictory(cfg, red, Some(log))
  {
    if log != [] && red != [] {
      var a, b := log[|log| - 1], red[|red| - 1];
      if WellFormedSample(a) && WellFormedSample(b) {
        DistanceIsSymmetric(a.value, b.value, Min(a.valueCount, b.valueCount));
      }
    }
  }

  /** No buffer can hold a window that is both stuck and noisy exactly when the stuck threshold does not
      exceed the noise threshold (or is negative, so that nothing is ever stuck). */
  lemma StuckAndNoisyExclude(cfg: FdiConfig)
    ensures (forall log, id :: Recordable(log, id) ==> !(IsStuck(cfg, log) && IsNoisy(cfg, log)))
            <==> cfg.stuckThreshold <= cfg.noiseThreshold || cfg.stuckThreshold < 0.0
  {
    if cfg.stuckThreshold <= cfg.noiseThreshold || cfg.stuckThreshold < 0.0 {
      forall log, id | Recordable(log, id)
        ensures !(IsStuck(cfg, log) && IsNoisy(cfg, log))
      {
        NotBothOnLog(cfg, log);
      }
    } else {
      var log := StepLog(cfg.stuckThreshold);
      StepIsStuckAndNoisy(cfg);
      assert Recordable(log, US1);
    }
  }

  lemma NotBothOnLog(cfg: FdiConfig, log: Log)
    requires cfg.stuckThreshold <= cfg.noiseThreshold || cfg.stuckThreshold < 0.0
    ensures !(IsStuck(cfg, log) && IsNoisy(cfg, log))
  {
    var w := Window(log, BUFFER_LEN);
    if FullWindow(w) {
      NotBoth(w, cfg.stuckThreshold, cfg.noiseThreshold);
    }
  }

  lemma NotBoth(w: seq<Sample>, stuck: real, noise: real)
    requires FullWindow(w) && (stuck <= noise || stuck < 0.0)
    ensures !(StuckWindow(w, stuck) && NoisyWindow(w, noise))
  {
    if stuck < 0.0 {
      assert w[0].value[0] - w[0].value[0] > stuck;
      assert !ComponentStuck(w, 0, stuck);
    } else if StuckWindow(w, stuck) {
      forall c, i | 0 <= c < w[0].valueCount && 0 < i < BUFFER_LEN
        ensures JumpAt(w, c, i) <= noise
      {
        assert ComponentStuck(w, c, stuck);
        assert w[i].value[c] - w[i - 1].value[c] <= stuck && w[i - 1].value[c] - w[i].value[c] <= stuck;
      }
    }
  }

  /** A range sensor that delivers the given ten readings, 100 ms apart. */
  ghost function Readings(reading: nat -> real): (log: Log)
    ensures |log| == BUFFER_LEN && Recordable(log, US1) && FullWindow(log)
    ensures Window(log, BUFFER_LEN) == log
    ensures forall i :: 0 <= i < BUFFER_LEN ==> log[i].valueCount == 1 && log[i].value[0] == reading(i)
    ensures log[BUFFER_LEN - 1].timestampUs == 900_000
  {
    seq(BUFFER_LEN, i requires 0 <= i < BUFFER_LEN =>
      Sample(US1, 100_000 * i, i, 1, [reading(i)] + ZERO_VALUES[1..]))
  }

  /** Nine equal readings and then one step of the given height. */
  ghost function StepLog(height: real): Log {
    Readings(i => if i == 9 then height else 0.0)
  }

  lemma StepIsStuckAndNoisy(cfg: FdiConfig)
    requires 0.0 <= cfg.stuckThreshold && cfg.noiseThreshold < cfg.stuckThreshold
    ensures var log := StepLog(cfg.stuckThreshold); IsStuck(cfg, log) && IsNoisy(cfg, log)
  {
    var log := StepLog(cfg.stuckThreshold);
    assert JumpAt(log, 0, 9) == cfg.stuckThreshold;
    assert ComponentStuck(log, 0, cfg.stuckThreshold);
  }

  /** The engine with its second and third check swapped. */
  ghost function DetectSwapped(cfg: FdiConfig, log: Log, red: Option<Log>, now: uint64): FaultType {
    if IsDelayed(cfg, log, now) then Delayed
    else if IsNoisy(cfg, log) then Noisy
    else if IsStuck(cfg, log) then Stuck
    else if IsContradictory(cfg, log, red) then Contradictory
    else NoFault
  }

  /** The order of the stuck and noisy checks matters for some history exactly when the stuck threshold is not
      negative and exceeds the noise threshold; in neither shipped configuration it does. */
  lemma CheckOrderMattersIff(cfg: FdiConfig)
    ensures (exists log, id, red, now ::
               Recordable(log, id) && Detect(cfg, log, red, now) != DetectSwapped(cfg, log, red, now))
            <==> 0.0 <= cfg.stuckThreshold && cfg.noiseThreshold < cfg.stuckThreshold
    ensures US_CONFIG.stuckThreshold <= US_CONFIG.noiseThreshold
    ensures IMU_CONFIG.stuckThreshold <= IMU_CONFIG.noiseThreshold
  {
    if 0.0 <= cfg.stuckThreshold && cfg.noiseThreshold < cfg.stuckThreshold {
      var log := StepLog(cfg.stuckThreshold);
      StepIsStuckAndNoisy(cfg);
      assert Detect(cfg, log, None, 900_000) == Stuck && DetectSwapped(cfg, log, None, 900_000) == Noisy;
      assert Recordable(log, US1);
    } else {
      forall log, id, red, now | Recordable(log, id)
        ensures Detect(cfg, log, red, now) == DetectSwapped(cfg, log, red, now)
      {
        NotBothOnLog(cfg, log);
      }
    }
  }

  /** `x` added up `n` times. */
  function Multiple(n: nat, x: real): real {
    if n == 0 then 0.0 else Multiple(n - 1, x) + x
  }

  lemma {:induction false} MultipleGrows(n: nat, m: nat, x: real)
    requires n <= m && x >= 0.0
    ensures Multiple(n, x) <= Multiple(m, x)
    decreases m
  {
    if n < m {
      MultipleGrows(n, m - 1, x);
    }
  }

  lemma NineTimes(x: real)
    ensures Multiple(9, x) == 9.0 * x
  {
    assert Multiple(2, x) == Multiple(1, x) + x == Multiple(0, x) + x + x;
    assert Multiple(4, x) == Multiple(3, x) + x == Multiple(2, x) + x + x;
    assert Multiple(6, x) == Multiple(5, x) + x == Multiple(4, x) + x + x;
    assert Multiple(8, x) == Multiple(7, x) + x == Multiple(6, x) + x + x;
    assert Multiple(9, x) == Multiple(8, x) + x;
  }

  /** Neighbour jumps of at most `noise` telescope: two samples `j - i` apart differ by at most
      `(j - i)` times as much. */
  lemma {:induction false} QuietTelescopes(w: seq<Sample>, noise: real, c: nat, i: nat, j: nat)
    requires FullWindow(w) && !NoisyWindow(w, noise) && c < w[0].valueCount
    requires i <= j < BUFFER_LEN
    ensures Abs(w[j].value[c] - w[i].value[c]) <= Multiple(j - i, noise)
    decreases j
  {
    if i < j {
      QuietTelescopes(w, noise, c, i, j - 1);
      assert JumpAt(w, c, j) <= noise;
    }
  }

  /** Some component's maximum exceeds its minimum by more than `bound`. */
  ghost predicate SpreadExceeds(w: seq<Sample>, bound: real)
    requires FullWindow(w)
  {
    exists c, i, j :: 0 <= c < w[0].valueCount && 0 <= i < BUFFER_LEN && 0 <= j < BUFFER_LEN
                      && w[i].value[c] - w[j].value[c] > bound
  }

  lemma QuietBetween(w: seq<Sample>, noise: real, c: nat, i: nat, j: nat)
    requires FullWindow(w) && noise >= 0.0 && !NoisyWindow(w, noise) && c < w[0].valueCount
    requires i <= j < BUFFER_LEN
    ensures Abs(w[j].value[c] - w[i].value[c]) <= 9.0 * noise
  {
    QuietTelescopes(w, noise, c, i, j);
    MultipleGrows(j - i, 9, noise);
    NineTimes(noise);
  }

  /** A full window that is not noisy spreads over at most nine thresholds in every component. */
  lemma QuietSpread(w: seq<Sample>, noise: real)
    requires FullWindow(w) && noise >= 0.0 && !NoisyWindow(w, noise)
    ensures !SpreadExceeds(w, 9.0 * noise)
  {
    forall c, i, j | 0 <= c < w[0].valueCount && 0 <= i < BUFFER_LEN && 0 <= j < BUFFER_LEN
      ensures w[i].value[c] - w[j].value[c] <= 9.0 * noise
    {
      if i <= j {
        QuietBetween(w, noise, c, i, j);
      } else {
        QuietBetween(w, noise, c, j, i);
      }
    }
  }

  /** The window's largest max-minus-min over its components is exactly `spread`. */
  ghost predicate HasSpread(w: seq<Sample>, spread: real)
    requires FullWindow(w)
  {
    && !SpreadExceeds(w, spread)
    && exists c, i, j :: 0 <= c < w[0].valueCount && 0 <= i < BUFFER_LEN && 0 <= j < BUFFER_LEN
                         && w[i].value[c] - w[j].value[c] == spread
  }

  /** What the documented max-minus-min rule can tell about the coded one: the spread of a window forces a
      NOISY verdict exactly when it exceeds nine thresholds. */
  lemma SpreadForcesNoisyIff(noise: real, spread: real)
    requires noise >= 0.0 && spread >= 0.0
    ensures (forall w :: FullWindow(w) && HasSpread(w, spread) ==> NoisyWindow(w, noise)) <==> spread > 9.0 * noise
  {
    if spread > 9.0 * noise {
      forall w | FullWindow(w) && HasSpread(w, spread)
        ensures NoisyWindow(w, noise)
      {
        WideIsNoisy(w, noise, spread);
      }
    } else {
      var ramp := RampIsNotNoisy(noise, spread);
    }
  }

  /** The spread of a window excludes a NOISY verdict exactly when it does not exceed one threshold. */
  lemma SpreadExcludesNoisyIff(noise: real, spread: real)
    requires spread >= 0.0
    ensures (forall w :: FullWindow(w) && HasSpread(w, spread) ==> !NoisyWindow(w, noise)) <==> spread <= noise
  {
    if spread <= noise {
      forall w | FullWindow(w) && HasSpread(w, spread)
        ensures !NoisyWindow(w, noise)
      {
        NarrowIsQuiet(w, noise, spread);
      }
    } else {
      var step := StepLog(spread);
      StepHasSpread(spread);
      assert JumpAt(step, 0, 9) > noise;
    }
  }

  lemma WideIsNoisy(w: seq<Sample>, noise: real, spread: real)
    requires noise >= 0.0 && FullWindow(w) && HasSpread(w, spread)
    ensures spread > 9.0 * noise ==> NoisyWindow(w, noise)
  {
    if spread > 9.0 * noise && !NoisyWindow(w, noise) {
      QuietSpread(w, noise);
      assert SpreadExceeds(w, 9.0 * noise);
      assert false;
    }
  }

  lemma NarrowIsQuiet(w: seq<Sample>, noise: real, spread: real)
    requires FullWindow(w) && HasSpread(w, spread) && spread <= noise
    ensures !NoisyWindow(w, noise)
  {
    forall c, i | 0 <= c < w[0].valueCount && 0 < i < BUFFER_LEN
      ensures JumpAt(w, c, i) <= noise
    {
      assert w[i].value[c] - w[i - 1].value[c] <= spread && w[i - 1].value[c] - w[i].value[c] <= spread;
    }
  }

  /** STUCK in terms of the spread: a full window no component of which spreads over more than the threshold. */
  lemma StuckIffNarrow(cfg: FdiConfig, log: Log)
    ensures var w := Window(log, BUFFER_LEN);
            IsStuck(cfg, log) <==> FullWindow(w) && !SpreadExceeds(w, cfg.stuckThreshold)
  {
    var w := Window(log, BUFFER_LEN);
    if FullWindow(w) && !SpreadExceeds(w, cfg.stuckThreshold) {
      forall c | 0 <= c < w[0].valueCount
        ensures ComponentStuck(w, c, cfg.stuckThreshold)
      {
      }
    } else if FullWindow(w) && StuckWindow(w, cfg.stuckThreshold) {
      forall c, i, j | 0 <= c < w[0].valueCount && 0 <= i < BUFFER_LEN && 0 <= j < BUFFER_LEN
        ensures w[i].value[c] - w[j].value[c] <= cfg.stuckThreshold
      {
        assert ComponentStuck(w, c, cfg.stuckThreshold);
      }
    }
  }

  /** A history whose full window has a given spread is STUCK exactly when that spread does not exceed the
      threshold, however it is distributed over the window. */
  lemma StuckIffSpread(cfg: FdiConfig, log: Log, spread: real)
    requires FullWindow(Window(log, BUFFER_LEN)) && HasSpread(Window(log, BUFFER_LEN), spread)
    ensures IsStuck(cfg, log) <==> spread <= cfg.stuckThreshold
  {
    StuckIffNarrow(cfg, log);
  }

  lemma StepHasSpread(height: real)
    requires height >= 0.0
    ensures HasSpread(StepLog(height), height)
  {
    var w := StepLog(height);
    assert w[9].value[0] - w[0].value[0] == height;
  }

  /** For every spread up to nine thresholds a steady ramp has that spread and is not noisy; it is a window a
      buffer can hold. */
  lemma RampIsNotNoisy(noise: real, spread: real) returns (log: Log)
    requires 0.0 <= spread <= 9.0 * noise
    ensures |log| == BUFFER_LEN && Recordable(log, US1) && Window(log, BUFFER_LEN) == log
    ensures FullWindow(log) && HasSpread(log, spread) && !NoisyWindow(log, noise)
  {
    var step := spread / 9.0;
    log := Ramp(step);
    RampIsSteady(step, noise);
    RampSpread(step);
  }

  ghost function Ramp(step: real): Log {
    Readings((i: nat) => Multiple(i, step))
  }

  lemma RampIsSteady(step: real, noise: real)
    requires 0.0 <= step <= noise
    ensures !NoisyWindow(Ramp(step), noise)
  {
    var w := Ramp(step);
    forall i: nat | 0 < i < BUFFER_LEN
      ensures JumpAt(w, 0, i) <= noise
    {
      assert Multiple(i, step) == Multiple(i - 1, step) + step;
      assert w[i].value[0] == Multiple(i, step) && w[i - 1].value[0] == Multiple(i - 1, step);
    }
  }

  lemma RampSpread(step: real)
    requires step >= 0.0
    ensures HasSpread(Ramp(step), 9.0 * step)
  {
    var log := Ramp(step);
    NineTimes(step);
    assert log[9].value[0] - log[0].value[0] == 9.0 * step;
    forall i: nat, j: nat | i < BUFFER_LEN && j < BUFFER_LEN
      ensures log[i].value[0] - log[j].value[0] <= 9.0 * step
    {
      MultipleGrows(i, 9, step);
      MultipleGrows(0, j, step);
    }
  }

  lemma RampIsNoisyIff(cfg: FdiConfig, step: real)
    requires step >= 0.0
    ensures IsNoisy(cfg, Ramp(step)) <==> step > cfg.noiseThreshold
  {
    if step <= cfg.noiseThreshold {
      RampIsSteady(step, cfg.noiseThreshold);
    } else {
      assert Multiple(1, step) == Multiple(0, step) + step;
      assert JumpAt(Ramp(step), 0, 1) > cfg.noiseThreshold;
    }
  }

  lemma RampIsStuckIff(cfg: FdiConfig, step: real)
    requires step >= 0.0
    ensures IsStuck(cfg, Ramp(step)) <==> 9.0 * step <= cfg.stuckThreshold
  {
    RampSpread(step);
    StuckIffSpread(cfg, Ramp(step), 9.0 * step);
  }

  /** A steady approach of `step` per sample, checked in time: STUCK exactly when the whole window covers at most
      the stuck threshold, otherwise NOISY exactly when one step exceeds the noise threshold, and only then a matter
      of the twin. Small steps alone make nothing stuck. */
  lemma SteadyApproach(cfg: FdiConfig, step: real, red: Option<Log>, now: uint64)
    requires step >= 0.0 && now <= 900_000 + cfg.delayTimeoutUs
    ensures Recordable(Ramp(step), US1)
    ensures Detect(cfg, Ramp(step), red, now)
            == if 9.0 * step <= cfg.stuckThreshold then Stuck
               else if step > cfg.noiseThreshold then Noisy
               else if IsContradictory(cfg, Ramp(step), red) then Contradictory
               else NoFault
  {
    RampIsNoisyIff(cfg, step);
    RampIsStuckIff(cfg, step);
  }

  /** Two centimetres per sample is less than the 3 cm stuck threshold, and healthy. */
  lemma SlowApproachIsHealthy()
    ensures Detect(US_CONFIG, Ramp(2.0), None, 900_000) == NoFault
  {
    SteadyApproach(US_CONFIG, 2.0, None, 900_000);
  }

  /** DELAYED is nothing on record or a newest sample more than the timeout old; a sample stamped later than the
      check never is. */
  lemma DelayedIffOlder(cfg: FdiConfig, log: Log, red: Option<Log>, now: uint64)
    ensures Detect(cfg, log, red, now).Delayed? <==> log == [] || log[|log| - 1].timestampUs + cfg.delayTimeoutUs < now
  {
  }

  // ---- What a contradiction takes ----

  /** The squared distance is at least the square of any shared difference. */
  lemma {:induction false} DistanceFromOne(a: seq<real>, b: seq<real>, n: nat, i: nat)
    requires i < n <= |a| && n <= |b|
    ensures SquaredDistance(a, b, n) >= (a[i] - b[i]) * (a[i] - b[i])
    decreases n
  {
    var last := (a[n - 1] - b[n - 1]) * (a[n - 1] - b[n - 1]);
    assert last >= 0.0 && SquaredDistance(a, b, n) == SquaredDistance(a, b, n - 1) + last;
    if i == n - 1 {
      assert (a[i] - b[i]) * (a[i] - b[i]) == last;
    } else {
      DistanceFromOne(a, b, n - 1, i);
    }
  }

  /** The squared distance is at most the number of components times the square of the largest difference. */
  lemma {:induction false} DistanceFromAll(a: seq<real>, b: seq<real>, n: nat, bound: real)
    requires n <= |a| && n <= |b| && bound >= 0.0
    requires forall i :: 0 <= i < n ==> Abs(a[i] - b[i]) <= bound
    ensures SquaredDistance(a, b, n) <= Multiple(n, bound * bound)
    decreases n
  {
    if n > 0 {
      DistanceFromAll(a, b, n - 1, bound);
      SquareWithin(a[n - 1] - b[n - 1], bound);
    }
  }

  lemma SquareWithin(d: real, bound: real)
    requires Abs(d) <= bound
    ensures d * d <= bound * bound
  {
    assert d * d == Abs(d) * Abs(d);
    if Abs(d) < bound {
      SquareGrows(Abs(d), bound);
    }
  }

  lemma SquareBeyond(d: real, bound: real)
    requires Abs(d) > bound >= 0.0
    ensures d * d > bound * bound
  {
    assert d * d == Abs(d) * Abs(d);
    SquareGrows(bound, Abs(d));
  }

  lemma SquareAtLeast(d: real, bound: real)
    requires Abs(d) >= bound >= 0.0
    ensures d * d >= bound * bound
  {
    assert d * d == Abs(d) * Abs(d);
    Scale(bound, Abs(d), bound);
    Scale(bound, Abs(d), Abs(d));
  }

  /** The newest samples of a pair and the number of components they share. */
  ghost predicate NewestPair(log: Log, red: Log, a: Sample, b: Sample, shared: nat) {
    && log != [] && a == log[|log| - 1] && red != [] && b == red[|red| - 1]
    && WellFormedSample(a) && WellFormedSample(b)
    && shared <= a.valueCount && shared <= b.valueCount && (shared == a.valueCount || shared == b.valueCount)
  }

  /** A contradiction takes two sensors with something on record. */
  lemma ContradictionTakesTwo(cfg: FdiConfig, log: Log, red: Option<Log>) returns (a: Sample, b: Sample, shared: nat)
    requires IsContradictory(cfg, log, red)
    ensures red.Some? && NewestPair(log, red.value, a, b, shared)
  {
    a, b := log[|log| - 1], red.value[|red.value| - 1];
    shared := Min(a.valueCount, b.valueCount);
  }

  /** One shared component that differs by more than the threshold is a contradiction, whichever it is. */
  lemma AnyComponentContradicts(cfg: FdiConfig, log: Log, red: Log, a: Sample, b: Sample, shared: nat, i: nat)
    requires NewestPair(log, red, a, b, shared) && i < shared
    requires Abs(a.value[i] - b.value[i]) > cfg.contradictionThreshold
    ensures IsContradictory(cfg, log, Some(red))
  {
    if cfg.contradictionThreshold >= 0.0 {
      SquareBeyond(a.value[i] - b.value[i], cfg.contradictionThreshold);
      DistanceFromOne(a.value, b.value, shared, i);
    }
  }

  /** If no shared component differs by more than `bound`, and that often the square of `bound` does not exceed the
      square of the threshold, there is no contradiction. */
  lemma AgreementIsSilent(cfg: FdiConfig, log: Log, red: Log, a: Sample, b: Sample, shared: nat, bound: real)
    requires NewestPair(log, red, a, b, shared) && cfg.contradictionThreshold >= 0.0 && bound >= 0.0
    requires forall i :: 0 <= i < shared ==> Abs(a.value[i] - b.value[i]) <= bound
    requires Multiple(shared, bound * bound) <= cfg.contradictionThreshold * cfg.contradictionThreshold
    ensures !IsContradictory(cfg, log, Some(red))
  {
    DistanceFromAll(a.value, b.value, shared, bound);
  }

  /** A pair that agrees within a third of the threshold in every component, up to six of them, is silent. */
  lemma ThirdOfThresholdIsSilent(cfg: FdiConfig, log: Log, red: Log, a: Sample, b: Sample, shared: nat)
    requires NewestPair(log, red, a, b, shared) && cfg.contradictionThreshold >= 0.0
    requires forall i :: 0 <= i < shared ==> Abs(a.value[i] - b.value[i]) <= cfg.contradictionThreshold / 3.0
    ensures !IsContradictory(cfg, log, Some(red))
  {
    var bound := cfg.contradictionThreshold / 3.0;
    NineThirds(cfg.contradictionThreshold, bound);
    MultipleGrows(shared, 9, bound * bound);
    NineTimes(bound * bound);
    AgreementIsSilent(cfg, log, red, a, b, shared, bound);
  }

  lemma NineThirds(t: real, third: real)
    requires t == 3.0 * third
    ensures third * third >= 0.0 && 9.0 * (third * third) == t * t
  {
  }

  /** Small differences add up: if every shared component differs by at least `bound` and that often its square
      exceeds the square of the threshold, there is a contradiction. */
  lemma DifferencesAddUp(cfg: FdiConfig, log: Log, red: Log, a: Sample, b: Sample, shared: nat, bound: real)
    requires NewestPair(log, red, a, b, shared) && bound >= 0.0
    requires forall i :: 0 <= i < shared ==> Abs(a.value[i] - b.value[i]) >= bound
    requires Multiple(shared, bound * bound) > cfg.contradictionThreshold * cfg.contradictionThreshold
    ensures IsContradictory(cfg, log, Some(red))
  {
    DistanceFromEach(a.value, b.value, shared, bound);
  }

  lemma {:induction false} DistanceFromEach(a: seq<real>, b: seq<real>, n: nat, bound: real)
    requires n <= |a| && n <= |b| && bound >= 0.0
    requires forall i :: 0 <= i < n ==> Abs(a[i] - b[i]) >= bound
    ensures SquaredDistance(a, b, n) >= Multiple(n, bound * bound)
    decreases n
  {
    if n > 0 {
      DistanceFromEach(a, b, n - 1, bound);
      SquareAtLeast(a[n - 1] - b[n - 1], bound);
    }
  }
}
