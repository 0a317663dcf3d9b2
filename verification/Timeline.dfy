/** The Logger: edge-triggered compression of the event stream into the fault timeline. */
module Timeline {
  import opened SensorTypes

  // ---- Specification ----

  /** One line of the timeline file. */
  datatype Line =
    | Transition(id: SensorId, timestampUs: uint64, from: SensorState, state: SensorState, fault: FaultType)
    | RecoveryTimeout(id: SensorId, timestampUs: uint64, attempts: int, state: SensorState)
    | Abandoned(id: SensorId, timestampUs: uint64, attempts: int, state: SensorState)

  const SENSOR_COUNT := 4

  function SensorIdx(id: SensorId): nat {
    match id
    case US1 => 0
    case US2 => 1
    case IMU1 => 2
    case IMU2 => 3
  }

  function LineFor(from: SensorState, ev: FaultEvent): Line {
    if ev.syntheticReason == 1 then RecoveryTimeout(ev.id, ev.timestampUs, ev.probeAttempts, ev.state)
    else if ev.syntheticReason == 2 then Abandoned(ev.id, ev.timestampUs, ev.probeAttempts, ev.state)
    else Transition(ev.id, ev.timestampUs, from, ev.state, ev.fault)
  }

  /** What a line says about its event, field by field: whose, when, which state, and by its kind either the fault
      of a normal event or the attempts of a timeout (reason 1) or permanent failure (reason 2). */
  ghost predicate Tells(l: Line, ev: FaultEvent) {
    && l.id == ev.id && l.timestampUs == ev.timestampUs && l.state == ev.state
    && (l.RecoveryTimeout? <==> ev.syntheticReason == 1)
    && (l.Abandoned? <==> ev.syntheticReason == 2)
    && (if l.Transition? then l.fault == ev.fault else l.attempts == ev.probeAttempts)
  }

  /** What one event does to the table of last recorded states, and the line it adds, if any. */
  function LogStep(last: seq<SensorState>, ev: FaultEvent): (seq<SensorState>, Option<Line>)
    requires |last| == SENSOR_COUNT
  {
    var from := last[SensorIdx(ev.id)];
    if ev.state != from || ev.syntheticReason != 0 then (last[SensorIdx(ev.id) := ev.state], Some(LineFor(from, ev)))
    else (last, None)
  }

  // ---- The task ----

  class Logger {
    const lastState: array<SensorState>

    constructor ()
      ensures lastState[..] == [Healthy, Healthy, Healthy, Healthy] && fresh(lastState)
    {
      lastState := new SensorState[SENSOR_COUNT](_ => Healthy);
    }

    /** The body of the Logger loop for one received event. */
    method Handle(ev: FaultEvent) returns (line: Option<Line>)
      requires lastState.Length == SENSOR_COUNT
      modifies lastState
      ensures (lastState[..], line) == LogStep(old(lastState[..]), ev)
      ensures line.Some? <==> ev.syntheticReason != 0 || ev.state != old(lastState[..])[SensorIdx(ev.id)]
      ensures line.Some? ==> Tells(line.value, ev)
      ensures line.Some? && line.value.Transition? ==> line.value.from == old(lastState[..])[SensorIdx(ev.id)]
      ensures lastState[..] == old(lastState[..])[SensorIdx(ev.id) := ev.state]
    {
      line := None;
      var idx := SensorIdx(ev.id);
      var shouldLog := ev.state != lastState[idx] || ev.syntheticReason != 0;
      if shouldLog {
        if ev.syntheticReason == 1 {
          line := Some(RecoveryTimeout(ev.id, ev.timestampUs, ev.probeAttempts, ev.state));
        } else if ev.syntheticReason == 2 {
          line := Some(Abandoned(ev.id, ev.timestampUs, ev.probeAttempts, ev.state));
        } else {
          line := Some(Transition(ev.id, ev.timestampUs, lastState[idx], ev.state, ev.fault));
        }
        lastState[idx] := ev.state;
      }
    }
  }

  // ---- Whole event streams ----

  function Append(lines: seq<Line>, line: Option<Line>): seq<Line> {
    match line
    case Some(l) => lines + [l]
    case None => lines
  }

  /** The table and the timeline after the first `k` events. */
  function Logged(events: seq<FaultEvent>, k: nat): (r: (seq<SensorState>, seq<Line>))
    requires k <= |events|
    ensures |r.0| == SENSOR_COUNT
  {
    if k == 0 then ([Healthy, Healthy, Healthy, Healthy], [])
    else
      var (last, lines) := Logged(events, k - 1);
      var (last', line) := LogStep(last, events[k - 1]);
      (last', Append(lines, line))
  }

  /** The states one sensor was reported in, from its initial HEALTHY on. */
  function Reported(events: seq<FaultEvent>, id: SensorId, k: nat): (states: seq<SensorState>)
    requires k <= |events|
    ensures |states| > 0
  {
    if k == 0 then [Healthy]
    else if events[k - 1].id == id then Reported(events, id, k - 1) + [events[k - 1].state]
    else Reported(events, id, k - 1)
  }

  /** The states a reader recovers for one sensor by replaying its lines of the timeline. */
  function Replay(lines: seq<Line>, id: SensorId): (states: seq<SensorState>)
    ensures |states| > 0
  {
    if lines == [] then [Healthy]
    else
      var l := lines[|lines| - 1];
      var earlier := Replay(lines[..|lines| - 1], id);
      if l.id == id then earlier + [l.state] else earlier
  }

  function LastOf(states: seq<SensorState>): SensorState
    requires |states| > 0
  {
    states[|states| - 1]
  }

  /** A sequence with its consecutive repeats collapsed. */
  function Destutter(s: seq<SensorState>): seq<SensorState> {
    if |s| <= 1 then s
    else if s[|s| - 1] == s[|s| - 2] then Destutter(s[..|s| - 1])
    else Destutter(s[..|s| - 1]) + [s[|s| - 1]]
  }

  lemma DestutterAppend(s: seq<SensorState>, x: SensorState)
    requires |s| > 0
    ensures Destutter(s + [x]) == if x == LastOf(s) then Destutter(s) else Destutter(s) + [x]
  {
    assert (s + [x])[..|s|] == s;
  }

  lemma ReplayAppend(lines: seq<Line>, l: Line, id: SensorId)
    ensures Replay(lines + [l], id) == if l.id == id then Replay(lines, id) + [l.state] else Replay(lines, id)
  {
    assert (lines + [l])[..|lines|] == lines;
  }

  /** Whether an event is worth a line. */
  predicate Logs(last: seq<SensorState>, ev: FaultEvent)
    requires |last| == SENSOR_COUNT
  {
    ev.state != last[SensorIdx(ev.id)] || ev.syntheticReason != 0
  }

  /** What one event does to one sensor's replay and to its slot of the table. */
  lemma ReplayStep(last: seq<SensorState>, lines: seq<Line>, ev: FaultEvent, id: SensorId)
    requires |last| == SENSOR_COUNT
    ensures var (last', line) := LogStep(last, ev);
            && last'[SensorIdx(id)] == (if ev.id == id then ev.state else last[SensorIdx(id)])
            && Replay(Append(lines, line), id)
               == if ev.id == id && Logs(last, ev) then Replay(lines, id) + [ev.state] else Replay(lines, id)
  {
    DistinctSlots(ev.id, id);
    ReplayAppend(lines, LineFor(last[SensorIdx(ev.id)], ev), id);
  }

  lemma DistinctSlots(a: SensorId, b: SensorId)
    ensures SensorIdx(a) == SensorIdx(b) <==> a == b
    ensures SensorIdx(a) < SENSOR_COUNT
  {
  }

  /** Adding a state to both sides, or a repetition to one side only, keeps them equal up to repetitions. */
  lemma SameUpToRepeats(replay: seq<SensorState>, reported: seq<SensorState>, x: SensorState)
    requires |replay| > 0 && |reported| > 0
    requires Destutter(replay) == Destutter(reported) && LastOf(replay) == LastOf(reported)
    ensures Destutter(replay + [x]) == Destutter(reported + [x])
    ensures x == LastOf(reported) ==> Destutter(replay) == Destutter(reported + [x])
  {
    DestutterAppend(replay, x);
    DestutterAppend(reported, x);
  }

  lemma FaithfulStep(last: seq<SensorState>, lines: seq<Line>, ev: FaultEvent, reported: seq<SensorState>, id: SensorId)
    requires |last| == SENSOR_COUNT && |reported| > 0 && SensorIdx(id) < SENSOR_COUNT
    requires Destutter(Replay(lines, id)) == Destutter(reported)
    requires LastOf(Replay(lines, id)) == LastOf(reported) == last[SensorIdx(id)]
    ensures var (last', line) := LogStep(last, ev);
            var replay' := Replay(Append(lines, line), id);
            var reported' := if ev.id == id then reported + [ev.state] else reported;
            Destutter(replay') == Destutter(reported') && LastOf(replay') == LastOf(reported') == last'[SensorIdx(id)]
  {
    ReplayStep(last, lines, ev, id);
    SameUpToRepeats(Replay(lines, id), reported, ev.state);
  }

  /** Lossless destuttering: for any interleaved event stream, replaying a sensor's lines of the timeline gives
      that sensor's state sequence up to repetitions, and the table holds its latest state. */
  lemma {:induction false} ReplayIsFaithful(events: seq<FaultEvent>, id: SensorId, k: nat)
    requires k <= |events|
    ensures Destutter(Replay(Logged(events, k).1, id)) == Destutter(Reported(events, id, k))
    ensures LastOf(Replay(Logged(events, k).1, id)) == LastOf(Reported(events, id, k)) == Logged(events, k).0[SensorIdx(id)]
  {
    DistinctSlots(id, id);
    if k > 0 {
      ReplayIsFaithful(events, id, k - 1);
      FaithfulStep(Logged(events, k - 1).0, Logged(events, k - 1).1, events[k - 1], Reported(events, id, k - 1), id);
    }
  }

  /** The lines of the timeline that concern one sensor, in order. */
  function LinesOf(lines: seq<Line>, id: SensorId): seq<Line> {
    if lines == [] then []
    else
      var earlier := LinesOf(lines[..|lines| - 1], id);
      if lines[|lines| - 1].id == id then earlier + [lines[|lines| - 1]] else earlier
  }

  /** The lines one sensor deserves, told from its own events alone: one for each event that is synthetic or
      changes its state, starting from the state it was last reported in. */
  function Deserved(events: seq<FaultEvent>, id: SensorId, k: nat): seq<Line>
    requires k <= |events|
  {
    if k == 0 then []
    else
      var ev, from := events[k - 1], LastOf(Reported(events, id, k - 1));
      if ev.id == id && (ev.syntheticReason != 0 || ev.state != from)
      then Deserved(events, id, k - 1) + [LineFor(from, ev)]
      else Deserved(events, id, k - 1)
  }

  lemma LinesOfStep(last: seq<SensorState>, lines: seq<Line>, ev: FaultEvent, id: SensorId)
    requires |last| == SENSOR_COUNT && SensorIdx(id) < SENSOR_COUNT
    ensures LinesOf(Append(lines, LogStep(last, ev).1), id)
            == if ev.id == id && Logs(last, ev) then LinesOf(lines, id) + [LineFor(last[SensorIdx(id)], ev)]
               else LinesOf(lines, id)
  {
    var l := LineFor(last[SensorIdx(ev.id)], ev);
    assert (lines + [l])[..|lines|] == lines;
  }

  /** For any interleaved stream, with synthetic events anywhere in it, each sensor's lines are exactly the ones
      it deserves: other sensors' events neither add, drop, reorder nor alter any. */
  lemma {:induction false} SensorLinesAreExact(events: seq<FaultEvent>, id: SensorId, k: nat)
    requires k <= |events|
    ensures LinesOf(Logged(events, k).1, id) == Deserved(events, id, k)
  {
    if k > 0 {
      SensorLinesAreExact(events, id, k - 1);
      ReplayIsFaithful(events, id, k - 1);
      DistinctSlots(id, id);
      LinesOfStep(Logged(events, k - 1).0, Logged(events, k - 1).1, events[k - 1], id);
    }
  }

  /** Event number `i` is synthetic or changes its sensor's state. */
  ghost predicate WorthALine(events: seq<FaultEvent>, i: nat)
    requires i < |events|
  {
    events[i].syntheticReason != 0 || events[i].state != LastOf(Reported(events, events[i].id, i))
  }

  /** The lines are, in order and one each, what the events numbered `origin` say. */
  ghost predicate ToldBy(lines: seq<Line>, events: seq<FaultEvent>, origin: seq<nat>, k: nat) {
    && |origin| == |lines|
    && (forall j :: 0 <= j < |lines| ==> origin[j] < k <= |events| && Tells(lines[j], events[origin[j]]))
    && (forall i, j :: 0 <= i < j < |origin| ==> origin[i] < origin[j])
  }

  lemma OneEventMore(events: seq<FaultEvent>, k: nat) returns (line: Line)
    requires k < |events|
    ensures Logged(events, k + 1).1 == Logged(events, k).1 + if WorthALine(events, k) then [line] else []
    ensures Tells(line, events[k])
  {
    ReplayIsFaithful(events, events[k].id, k);
    line := LineFor(LastOf(Reported(events, events[k].id, k)), events[k]);
  }

  lemma ToldByOneMore(lines: seq<Line>, line: Line, events: seq<FaultEvent>, origin: seq<nat>, k: nat)
    requires k < |events| && ToldBy(lines, events, origin, k) && Tells(line, events[k])
    ensures ToldBy(lines, events, origin, k + 1)
    ensures ToldBy(lines + [line], events, origin + [k], k + 1)
  {
  }

  /** Every event worth a line, and no other, is among those told. */
  ghost predicate TellsAll(events: seq<FaultEvent>, origin: seq<nat>, k: nat)
    requires k <= |events|
  {
    forall i :: 0 <= i < k ==> (i in origin <==> WorthALine(events, i))
  }

  lemma TellsAllOneMore(lines: seq<Line>, events: seq<FaultEvent>, origin: seq<nat>, k: nat)
    requires k < |events| && ToldBy(lines, events, origin, k) && TellsAll(events, origin, k)
    ensures TellsAll(events, if WorthALine(events, k) then origin + [k] else origin, k + 1)
  {
    assert k !in origin;
    forall i | 0 <= i < k
      ensures i in origin + [k] <==> i in origin
    {
    }
  }

  /** Reading the timeline back: its lines are, in order, exactly the events worth a line, each told field by
      field. */
  lemma {:induction false} LinesTellTheirEvents(events: seq<FaultEvent>, k: nat) returns (origin: seq<nat>)
    requires k <= |events|
    ensures ToldBy(Logged(events, k).1, events, origin, k) && TellsAll(events, origin, k)
  {
    if k == 0 {
      origin := [];
    } else {
      var earlier := LinesTellTheirEvents(events, k - 1);
      var line := OneEventMore(events, k - 1);
      ToldByOneMore(Logged(events, k - 1).1, line, events, earlier, k - 1);
      TellsAllOneMore(Logged(events, k - 1).1, events, earlier, k - 1);
      if WorthALine(events, k - 1) {
        origin := earlier + [k - 1];
      } else {
        origin := earlier;
        assert Logged(events, k).1 == Logged(events, k - 1).1;
      }
    }
  }

  lemma {:induction false} ReplayNeedsOwnLinesOnly(lines: seq<Line>, id: SensorId)
    ensures Replay(LinesOf(lines, id), id) == Replay(lines, id)
    decreases |lines|
  {
    if lines != [] {
      var earlier := lines[..|lines| - 1];
      ReplayNeedsOwnLinesOnly(earlier, id);
      ReplayAppend(LinesOf(earlier, id), lines[|lines| - 1], id);
    }
  }

  lemma {:induction false} NormalLinesDestutter(events: seq<FaultEvent>, id: SensorId, k: nat)
    requires k <= |events|
    requires forall j :: 0 <= j < k && events[j].id == id ==> events[j].syntheticReason == 0
    ensures Replay(Deserved(events, id, k), id) == Destutter(Reported(events, id, k))
  {
    if k > 0 {
      NormalLinesDestutter(events, id, k - 1);
      var ev, reported := events[k - 1], Reported(events, id, k - 1);
      DestutterAppend(reported, ev.state);
      ReplayAppend(Deserved(events, id, k - 1), LineFor(LastOf(reported), ev), id);
    }
  }

  /** Without synthetic events the replay repeats nothing: it is exactly the destuttered state sequence. */
  lemma NormalTimelineIsDestuttered(events: seq<FaultEvent>, id: SensorId, k: nat)
    requires k <= |events|
    requires forall j :: 0 <= j < k && events[j].id == id ==> events[j].syntheticReason == 0
    ensures Replay(Logged(events, k).1, id) == Destutter(Reported(events, id, k))
  {
    SensorLinesAreExact(events, id, k);
    ReplayNeedsOwnLinesOnly(Logged(events, k).1, id);
    NormalLinesDestutter(events, id, k);
  }

  // ---- Nothing synthetic is lost ----

  /** The lines the synthetic events alone would give. */
  function SyntheticOf(events: seq<FaultEvent>, k: nat): seq<Line>
    requires k <= |events|
  {
    if k == 0 then []
    else SyntheticOf(events, k - 1)
         + if events[k - 1].syntheticReason in {1, 2} then [LineFor(Healthy, events[k - 1])] else []
  }

  function SyntheticIn(lines: seq<Line>): seq<Line> {
    if lines == [] then []
    else
      var l := lines[|lines| - 1];
      SyntheticIn(lines[..|lines| - 1]) + if l.Transition? then [] else [l]
  }

  lemma SyntheticStep(last: seq<SensorState>, lines: seq<Line>, ev: FaultEvent)
    requires |last| == SENSOR_COUNT && SensorIdx(ev.id) < SENSOR_COUNT
    ensures SyntheticIn(Append(lines, LogStep(last, ev).1))
            == SyntheticIn(lines) + if ev.syntheticReason in {1, 2} then [LineFor(Healthy, ev)] else []
  {
    var l := LineFor(last[SensorIdx(ev.id)], ev);
    assert (lines + [l])[..|lines|] == lines;
  }

  /** Every timeout and every permanent failure is in the timeline, once, in order, and nothing else is marked
      as one. */
  lemma {:induction false} EverySyntheticEventIsLogged(events: seq<FaultEvent>, k: nat)
    requires k <= |events|
    ensures SyntheticIn(Logged(events, k).1) == SyntheticOf(events, k)
  {
    if k > 0 {
      EverySyntheticEventIsLogged(events, k - 1);
      SyntheticStep(Logged(events, k - 1).0, Logged(events, k - 1).1, events[k - 1]);
    }
  }

  // ---- Lines chain ----

  /** Each transition line starts in the state the sensor's previous line, of whatever kind, left it in. */
  ghost predicate Chained(lines: seq<Line>) {
    forall j :: 0 <= j < |lines| && lines[j].Transition? ==> lines[j].from == LastOf(Replay(lines[..j], lines[j].id))
  }

  lemma ChainStep(lines: seq<Line>, l: Line)
    requires Chained(lines) && (l.Transition? ==> l.from == LastOf(Replay(lines, l.id)))
    ensures Chained(lines + [l])
  {
    var lines' := lines + [l];
    forall j | 0 <= j < |lines'| && lines'[j].Transition?
      ensures lines'[j].from == LastOf(Replay(lines'[..j], lines'[j].id))
    {
      assert lines'[..j] == lines[..j];
      assert j == |lines| ==> lines[..j] == lines;
    }
  }

  lemma ChainLogStep(last: seq<SensorState>, lines: seq<Line>, ev: FaultEvent)
    requires |last| == SENSOR_COUNT && Chained(lines) && SensorIdx(ev.id) < SENSOR_COUNT
    requires LastOf(Replay(lines, ev.id)) == last[SensorIdx(ev.id)]
    ensures Chained(Append(lines, LogStep(last, ev).1))
  {
    ChainStep(lines, LineFor(last[SensorIdx(ev.id)], ev));
  }

  lemma {:induction false} LinesChain(events: seq<FaultEvent>, k: nat)
    requires k <= |events|
    ensures Chained(Logged(events, k).1)
  {
    if k > 0 {
      LinesChain(events, k - 1);
      ReplayIsFaithful(events, events[k - 1].id, k - 1);
      DistinctSlots(events[k - 1].id, events[k - 1].id);
      ChainLogStep(Logged(events, k - 1).0, Logged(events, k - 1).1, events[k - 1]);
    }
  }
}
