/** Exactly which detection histories isolate a sensor. */
module Isolation {
  import opened SensorTypes
  import opened FaultDetector
  import opened DetectorTask

  /** The state after the first `n` results of a detection history. */
  function Fold(cfg: FdiConfig, ds: seq<FaultType>, n: nat): Fsm
    requires n <= |ds|
  {
    if n == 0 then INIT else Evaluated(cfg, Fold(cfg, ds, n - 1), ds[n - 1])
  }

  ghost predicate FaultAt(ds: seq<FaultType>, i: int) {
    0 <= i < |ds| && !ds[i].NoFault?
  }

  /** Results k, ..., k+m-1 are all clean. */
  ghost predicate CleanStretch(ds: seq<FaultType>, k: int, m: int) {
    0 <= k && k + m <= |ds| && forall t :: k <= t < k + m ==> ds[t].NoFault?
  }

  /** A run of `m` clean results lies strictly after i and before `n`. */
  ghost predicate ClearedBefore(ds: seq<FaultType>, i: int, n: int, m: int) {
    exists k :: i < k && k + m <= n && CleanStretch(ds, k, m)
  }

  /** The delayed, stuck and noisy results among lo, ..., hi-1. */
  function Definitives(ds: seq<FaultType>, lo: nat, hi: nat): nat
    requires hi <= |ds|
  {
    if hi <= lo then 0 else Definitives(ds, lo, hi - 1) + if Definitive(ds[hi - 1]) then 1 else 0
  }

  /** A fault at i is followed, up to and including j, by enough definitive faults and never by enough
      consecutive clean results. */
  ghost predicate CondemnedBy(cfg: FdiConfig, ds: seq<FaultType>, i: int, j: int) {
    && 0 <= i < j < |ds| && FaultAt(ds, i)
    && !ClearedBefore(ds, i, j + 1, CleansToClear(cfg))
    && Definitives(ds, i + 1, j + 1) >= FaultsToCondemn(cfg)
  }

  ghost predicate CondemnedBefore(cfg: FdiConfig, ds: seq<FaultType>, n: int) {
    exists i, j :: j < n && CondemnedBy(cfg, ds, i, j)
  }

  /** `a` opened the current SUSPECT episode: the counters measure what followed it. */
  ghost predicate Anchor(cfg: FdiConfig, ds: seq<FaultType>, n: nat, s: Fsm, a: int)
    requires n <= |ds|
  {
    && 0 <= a < n && FaultAt(ds, a) && !ClearedBefore(ds, a, n, CleansToClear(cfg))
    && s.faultStreak == 1 + Definitives(ds, a + 1, n)
    && s.recoveryStreak < n - a
    && CleanStretch(ds, n - s.recoveryStreak, s.recoveryStreak)
    && FaultAt(ds, n - s.recoveryStreak - 1)
    && AllCleared(cfg, ds, a, n)
  }

  /** Every fault before `a` has been cleared by `n`. */
  ghost predicate AllCleared(cfg: FdiConfig, ds: seq<FaultType>, a: int, n: int) {
    forall i :: i < a && FaultAt(ds, i) ==> ClearedBefore(ds, i, n, CleansToClear(cfg))
  }

  ghost predicate Tracks(cfg: FdiConfig, ds: seq<FaultType>, n: nat)
    requires n <= |ds|
  {
    var s := Fold(cfg, ds, n);
    && CounterInvariant(cfg, s)
    && (s.state.Excluded? <==> CondemnedBefore(cfg, ds, n))
    && (s.state.Healthy? ==> AllCleared(cfg, ds, n, n))
    && (s.state.Suspect? ==> exists a :: Anchor(cfg, ds, n, s, a))
    && (s.state.Healthy? || s.state.Suspect? || s.state.Excluded?)
  }

  /** Folding the detector's evaluation over any detection history ends EXCLUDED exactly when the
      history holds a fault followed by enough definitive faults with no clearing run in between. */
  lemma ExcludedIffCondemned(cfg: FdiConfig, ds: seq<FaultType>)
    ensures Fold(cfg, ds, |ds|).state.Excluded? <==> exists i, j :: CondemnedBy(cfg, ds, i, j)
  {
    FoldTracks(cfg, ds, |ds|);
    assert CondemnedBefore(cfg, ds, |ds|) <==> exists i, j :: CondemnedBy(cfg, ds, i, j);
  }

  lemma {:induction false} FoldTracks(cfg: FdiConfig, ds: seq<FaultType>, n: nat)
    requires n <= |ds|
    ensures Tracks(cfg, ds, n)
  {
    if n > 0 {
      FoldTracks(cfg, ds, n - 1);
      var s := Fold(cfg, ds, n - 1);
      FaultedIsNeverVisible(cfg, s, ds[n - 1]);
      if s.state.Healthy? {
        HealthyStep(cfg, ds, n - 1);
      } else if s.state.Suspect? {
        SuspectStep(cfg, ds, n - 1);
      } else {
        ExcludedStep(cfg, ds, n - 1);
      }
    }
  }

  lemma ClearedStays(ds: seq<FaultType>, i: int, n: int, m: int)
    requires ClearedBefore(ds, i, n, m)
    ensures ClearedBefore(ds, i, n + 1, m)
  {
    var k :| i < k && k + m <= n && CleanStretch(ds, k, m);
    assert k + m <= n + 1;
  }

  lemma AllClearedStays(cfg: FdiConfig, ds: seq<FaultType>, a: int, n: int)
    requires AllCleared(cfg, ds, a, n)
    ensures AllCleared(cfg, ds, a, n + 1)
  {
    forall i | i < a && FaultAt(ds, i)
      ensures ClearedBefore(ds, i, n + 1, CleansToClear(cfg))
    {
      ClearedStays(ds, i, n, CleansToClear(cfg));
    }
  }

  /** A clearing run that ends at a fault must have ended before it. */
  lemma FaultEndsNoRun(ds: seq<FaultType>, i: int, n: nat, m: int)
    requires n < |ds| && m >= 1 && FaultAt(ds, n) && !ClearedBefore(ds, i, n, m)
    ensures !ClearedBefore(ds, i, n + 1, m)
  {
    forall k | i < k && k + m <= n + 1
      ensures !CleanStretch(ds, k, m)
    {
      assert k + m <= n || FaultAt(ds, k + m - 1);
    }
  }

  lemma {:induction false} LaterStartCountsLess(ds: seq<FaultType>, lo: nat, lo': nat, hi: nat)
    requires lo <= lo' && hi <= |ds|
    ensures Definitives(ds, lo', hi) <= Definitives(ds, lo, hi)
    decreases hi
  {
    if hi > lo' {
      LaterStartCountsLess(ds, lo, lo', hi - 1);
    }
  }

  lemma ExcludedStep(cfg: FdiConfig, ds: seq<FaultType>, n: nat)
    requires n < |ds| && Tracks(cfg, ds, n) && Fold(cfg, ds, n).state.Excluded?
    ensures Tracks(cfg, ds, n + 1)
  {
    var i, j :| j < n && CondemnedBy(cfg, ds, i, j);
    assert j < n + 1 && CondemnedBy(cfg, ds, i, j);
    FaultedIsNeverVisible(cfg, Fold(cfg, ds, n), ds[n]);
  }

  lemma HealthyStep(cfg: FdiConfig, ds: seq<FaultType>, n: nat)
    requires n < |ds| && Tracks(cfg, ds, n) && Fold(cfg, ds, n).state.Healthy?
    ensures Tracks(cfg, ds, n + 1)
  {
    var s' := Fold(cfg, ds, n + 1);
    FaultedIsNeverVisible(cfg, Fold(cfg, ds, n), ds[n]);
    AllClearedStays(cfg, ds, n, n);
    assert AllCleared(cfg, ds, n, n + 1);
    if FaultAt(ds, n) {
      assert Anchor(cfg, ds, n + 1, s', n);
    }
    NotCondemnedAtStep(cfg, ds, n, n);
  }

  /** With every earlier fault cleared and few definitive faults since `a`, result n condemns nobody. */
  lemma NotCondemnedAtStep(cfg: FdiConfig, ds: seq<FaultType>, n: nat, a: nat)
    requires n < |ds| && a <= n && AllCleared(cfg, ds, a, n + 1) && !CondemnedBefore(cfg, ds, n)
    requires Definitives(ds, a + 1, n + 1) < FaultsToCondemn(cfg)
    ensures !CondemnedBefore(cfg, ds, n + 1)
  {
    forall i, j | j < n + 1
      ensures !CondemnedBy(cfg, ds, i, j)
    {
      if i >= a {
        LaterStartCountsLess(ds, a + 1, i + 1, n + 1);
      }
    }
  }

  lemma SuspectStep(cfg: FdiConfig, ds: seq<FaultType>, n: nat)
    requires n < |ds| && Tracks(cfg, ds, n) && Fold(cfg, ds, n).state.Suspect?
    ensures Tracks(cfg, ds, n + 1)
  {
    var s := Fold(cfg, ds, n);
    var a :| Anchor(cfg, ds, n, s, a);
    FaultedIsNeverVisible(cfg, s, ds[n]);
    AllClearedStays(cfg, ds, a, n);
    if ds[n].NoFault? {
      CleanStep(cfg, ds, n, a);
    } else {
      FaultEndsNoRun(ds, a, n, CleansToClear(cfg));
      FaultStep(cfg, ds, n, a);
    }
  }

  lemma FaultStep(cfg: FdiConfig, ds: seq<FaultType>, n: nat, a: int)
    requires n < |ds| && Tracks(cfg, ds, n) && Fold(cfg, ds, n).state.Suspect? && FaultAt(ds, n)
    requires Anchor(cfg, ds, n, Fold(cfg, ds, n), a)
    requires AllCleared(cfg, ds, a, n + 1) && !ClearedBefore(ds, a, n + 1, CleansToClear(cfg))
    ensures Tracks(cfg, ds, n + 1)
  {
    var s' := Fold(cfg, ds, n + 1);
    FaultedIsNeverVisible(cfg, Fold(cfg, ds, n), ds[n]);
    if s'.state.Excluded? {
      assert CondemnedBy(cfg, ds, a, n);
    } else {
      assert Anchor(cfg, ds, n + 1, s', a);
      NotCondemnedAtStep(cfg, ds, n, a);
    }
  }

  lemma CleanStep(cfg: FdiConfig, ds: seq<FaultType>, n: nat, a: int)
    requires n < |ds| && Tracks(cfg, ds, n) && Fold(cfg, ds, n).state.Suspect? && ds[n].NoFault?
    requires Anchor(cfg, ds, n, Fold(cfg, ds, n), a) && AllCleared(cfg, ds, a, n + 1)
    ensures Tracks(cfg, ds, n + 1)
  {
    var s, s' := Fold(cfg, ds, n), Fold(cfg, ds, n + 1);
    var m := CleansToClear(cfg);
    FaultedIsNeverVisible(cfg, s, ds[n]);
    NotCondemnedAtStep(cfg, ds, n, a);
    assert CleanStretch(ds, n - s.recoveryStreak, s.recoveryStreak + 1);
    if s'.state.Healthy? {
      forall i | i < n + 1 && FaultAt(ds, i)
        ensures ClearedBefore(ds, i, n + 1, m)
      {
        assert i < n - s.recoveryStreak;
        assert CleanStretch(ds, n - s.recoveryStreak, m);
      }
    } else {
      forall k | a < k && k + m <= n + 1
        ensures !CleanStretch(ds, k, m)
      {
        assert k + m <= n || k <= n - s.recoveryStreak - 1 < k + m;
      }
      assert Anchor(cfg, ds, n + 1, s', a);
    }
  }

  // ---- Consecutive faults ----

  /** Results k, ..., k+m-1 are all faults. */
  ghost predicate FaultStretch(ds: seq<FaultType>, k: int, m: int) {
    0 <= k && k + m <= |ds| && forall t :: k <= t < k + m ==> FaultAt(ds, t)
  }

  /** The history holds `m` consecutive faults. */
  ghost predicate HasRun(ds: seq<FaultType>, m: int) {
    exists k :: FaultStretch(ds, k, m)
  }

  /** Isolation is documented to take consecutive faults, L of them (two if L is less). The code keeps that
      promise exactly when one clean result clears a SUSPECT sensor; the shipped limit of three breaks it. */
  lemma IsolationTakesConsecutiveFaultsIff(cfg: FdiConfig)
    ensures (forall ds :: Fold(cfg, ds, |ds|).state.Excluded? ==> HasRun(ds, FaultsToCondemn(cfg) + 1))
            <==> cfg.recoveryConfirmLimit <= 1
    ensures US_CONFIG.recoveryConfirmLimit > 1 && IMU_CONFIG.recoveryConfirmLimit > 1
  {
    if cfg.recoveryConfirmLimit <= 1 {
      forall ds | Fold(cfg, ds, |ds|).state.Excluded?
        ensures HasRun(ds, FaultsToCondemn(cfg) + 1)
      {
        ImpatientIsolationIsConsecutive(cfg, ds);
      }
    } else {
      var ds := Alternating(2 * FaultsToCondemn(cfg) + 1);
      AlternatingFaultsIsolate(cfg);
      var m := FaultsToCondemn(cfg) + 1;
      forall k
        ensures !FaultStretch(ds, k, m)
      {
        assert 0 <= k && k + m <= |ds| ==> !FaultAt(ds, k) || !FaultAt(ds, k + 1);
      }
    }
  }

  lemma ImpatientIsolationIsConsecutive(cfg: FdiConfig, ds: seq<FaultType>)
    requires cfg.recoveryConfirmLimit <= 1 && Fold(cfg, ds, |ds|).state.Excluded?
    ensures HasRun(ds, FaultsToCondemn(cfg) + 1)
  {
    ExcludedIffCondemned(cfg, ds);
    var i, j :| CondemnedBy(cfg, ds, i, j);
    AtMostTheirNumber(ds, i + 1, j + 1);
    forall t | i < t <= j
      ensures FaultAt(ds, t)
    {
      if ds[t].NoFault? {
        assert CleanStretch(ds, t, 1);
      }
    }
    assert FaultStretch(ds, i, FaultsToCondemn(cfg) + 1);
  }

  lemma {:induction false} AtMostTheirNumber(ds: seq<FaultType>, lo: nat, hi: nat)
    requires lo <= hi <= |ds|
    ensures Definitives(ds, lo, hi) <= hi - lo
    decreases hi
  {
    if hi > lo {
      AtMostTheirNumber(ds, lo, hi - 1);
    }
  }

  /** Stuck and clean results in turn, beginning with a stuck one. */
  function Alternating(n: nat): (ds: seq<FaultType>)
    ensures |ds| == n
    ensures forall t :: 0 <= t < n ==> ds[t] == if t % 2 == 0 then Stuck else NoFault
  {
    seq(n, t => if t % 2 == 0 then Stuck else NoFault)
  }

  lemma {:induction false} EverySecondIsDefinitive(n: nat, half: nat)
    requires 2 * half < n
    ensures Definitives(Alternating(n), 1, 2 * half + 1) == half
    decreases half
  {
    if half > 0 {
      EverySecondIsDefinitive(n, half - 1);
      var ds := Alternating(n);
      assert Definitives(ds, 1, 2 * half) == Definitives(ds, 1, 2 * half - 1);
      assert Definitives(ds, 1, 2 * half + 1) == Definitives(ds, 1, 2 * half) + 1;
    }
  }

  /** The input that breaks it, for every R of at least two: no two of its faults are adjacent, and the sensor
      is isolated. */
  lemma AlternatingFaultsIsolate(cfg: FdiConfig)
    requires cfg.recoveryConfirmLimit >= 2
    ensures var ds := Alternating(2 * FaultsToCondemn(cfg) + 1);
            && Fold(cfg, ds, |ds|).state.Excluded?
            && forall t :: 0 <= t < |ds| - 1 ==> !(FaultAt(ds, t) && FaultAt(ds, t + 1))
  {
    var n := 2 * FaultsToCondemn(cfg) + 1;
    var ds := Alternating(n);
    EverySecondIsDefinitive(n, FaultsToCondemn(cfg));
    forall k | 0 < k && k + CleansToClear(cfg) <= n
      ensures !CleanStretch(ds, k, CleansToClear(cfg))
    {
      assert FaultAt(ds, k) || FaultAt(ds, k + 1);
    }
    assert CondemnedBy(cfg, ds, 0, n - 1);
    ExcludedIffCondemned(cfg, ds);
  }

  /** The other direction of the documented rule does hold: L consecutive definitive faults (two if L is less),
      wherever they come, isolate the sensor. */
  lemma ConsecutiveDefinitivesIsolate(cfg: FdiConfig, ds: seq<FaultType>, k: nat)
    requires k + FaultsToCondemn(cfg) < |ds|
    requires forall t :: k <= t <= k + FaultsToCondemn(cfg) ==> Definitive(ds[t])
    ensures Fold(cfg, ds, |ds|).state.Excluded?
  {
    var j := k + FaultsToCondemn(cfg);
    AllDefinitive(ds, k + 1, j + 1);
    forall q | k < q && q + CleansToClear(cfg) <= j + 1
      ensures !CleanStretch(ds, q, CleansToClear(cfg))
    {
      assert FaultAt(ds, q);
    }
    assert CondemnedBy(cfg, ds, k, j);
    ExcludedIffCondemned(cfg, ds);
  }

  lemma {:induction false} AllDefinitive(ds: seq<FaultType>, lo: nat, hi: nat)
    requires lo <= hi <= |ds| && forall t :: lo <= t < hi ==> Definitive(ds[t])
    ensures Definitives(ds, lo, hi) == hi - lo
    decreases hi
  {
    if hi > lo {
      AllDefinitive(ds, lo, hi - 1);
    }
  }
}
