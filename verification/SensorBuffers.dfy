/** The ten-slot circular history of one sensor, proved against an unbounded append-only log. */
module SensorBuffers {
  import opened SensorTypes

  const BUFFER_LEN := 10
  const MAX_VALUES := 6

  /** `value` always has MAX_VALUES entries; only the first `valueCount` were supplied by the writer. */
  datatype Sample = Sample(
    sensorId: SensorId,
    timestampUs: uint64,
    sequence: uint32,
    valueCount: uint8,
    value: seq<real>)

  const ZERO_VALUES: seq<real> := [0.0, 0.0, 0.0, 0.0, 0.0, 0.0]
  const ZERO_SAMPLE := Sample(US1, 0, 0, 0, ZERO_VALUES)

  // ---- The log: what the buffer stands for ----

  type Log = seq<Sample>

  ghost predicate WellFormedSample(s: Sample) {
    1 <= s.valueCount <= MAX_VALUES && |s.value| == MAX_VALUES
  }

  /** Every entry is a well-formed sample of one sensor. */
  ghost predicate WellFormed(log: Log, id: SensorId) {
    forall k :: 0 <= k < |log| ==> WellFormedSample(log[k]) && log[k].sensorId == id
  }

  /** The most recent entries, oldest first: at most a buffer-full, at most `maxOut`. */
  function Window(log: Log, maxOut: nat): Log {
    log[|log| - Min(Min(|log|, BUFFER_LEN), maxOut)..]
  }

  /** The floats a slot held before the next write lands in it: nothing clears them. */
  function Residue(log: Log): seq<real> {
    if |log| < BUFFER_LEN then ZERO_VALUES else log[|log| - BUFFER_LEN].value
  }

  /** The entry that a write of `valueCount` values appends. */
  function Entry(log: Log, id: SensorId, timestampUs: uint64, values: seq<real>, valueCount: uint8): Sample
    requires 1 <= valueCount <= MAX_VALUES && valueCount <= |values|
    requires |Residue(log)| == MAX_VALUES
  {
    Sample(id, timestampUs, |log| % TWO_32, valueCount, values[..valueCount] + Residue(log)[valueCount..])
  }

  /** The sequence numbers count the log modulo 2^32. */
  ghost predicate Numbered(log: Log) {
    forall k :: 0 <= k < |log| ==> log[k].sequence == k % TWO_32
  }

  /** A log some run of writes by sensor `id`, with a clock that does not run backwards, can leave. */
  ghost predicate Recordable(log: Log, id: SensorId) {
    && WellFormed(log, id) && Numbered(log)
    && forall i, j :: 0 <= i < j < |log| ==> log[i].timestampUs <= log[j].timestampUs
  }

  lemma CountsOn(k: nat)
    ensures (k + 1) % TWO_32 == (k % TWO_32 + 1) % TWO_32
  {
  }

  /** Whatever window is read, its sequence numbers are consecutive modulo 2^32. */
  lemma WindowIsConsecutive(log: Log, maxOut: nat)
    requires Numbered(log)
    ensures forall i :: 0 < i < |Window(log, maxOut)| ==>
                          Window(log, maxOut)[i].sequence == (Window(log, maxOut)[i - 1].sequence + 1) % TWO_32
  {
    var w := Window(log, maxOut);
    forall i | 0 < i < |w|
      ensures w[i].sequence == (w[i - 1].sequence + 1) % TWO_32
    {
      var k := |log| - |w| + i;
      assert w[i] == log[k] && w[i - 1] == log[k - 1];
      CountsOn(k - 1);
    }
  }

  /** The slot written `back` writes before slot `writeIndex` will be: one lap around the ring. */
  function SlotBehind(writeIndex: uint8, back: nat): nat
    requires writeIndex < BUFFER_LEN && back < BUFFER_LEN
  {
    if back < writeIndex then writeIndex - 1 - back else writeIndex + BUFFER_LEN - 1 - back
  }

  /** The slots, walked backwards from `writeIndex`, are the log walked backwards from its end;
      the slots the log has not reached yet are still zeroed. */
  ghost predicate Holds(slots: seq<Sample>, writeIndex: uint8, log: Log) {
    && |slots| == BUFFER_LEN
    && writeIndex < BUFFER_LEN
    && (forall back :: 0 <= back < Min(|log|, BUFFER_LEN) ==>
                         slots[SlotBehind(writeIndex, back)] == log[|log| - 1 - back])
    && (forall back :: |log| <= back < BUFFER_LEN ==>
                         slots[SlotBehind(writeIndex, back)].value == ZERO_VALUES)
  }

  lemma AppendKeepsShape(log: Log, id: SensorId, entry: Sample)
    requires WellFormed(log, id) && Numbered(log)
    requires WellFormedSample(entry) && entry.sensorId == id && entry.sequence == |log| % TWO_32
    ensures WellFormed(log + [entry], id) && Numbered(log + [entry])
    ensures (|log| % TWO_32 + 1) % TWO_32 == |log + [entry]| % TWO_32
  {
    CountsOn(|log|);
  }

  /** The newest log entry is not later than `now`. */
  ghost predicate NotAfter(log: Log, now: uint64) {
    log == [] || log[|log| - 1].timestampUs <= now
  }

  /** The newest entry is what was written: by this sensor, at that time, that many values, over what the slot held. */
  ghost predicate NewestIs(log: Log, id: SensorId, timestampUs: uint64, values: seq<real>, residue: seq<real>)
    requires |values| <= |residue| == MAX_VALUES
  {
    && log != []
    && var s := log[|log| - 1];
    && s.sensorId == id && s.timestampUs == timestampUs && s.valueCount == |values|
    && s.sequence == (|log| - 1) % TWO_32
    && |s.value| == MAX_VALUES
    && (forall i :: 0 <= i < MAX_VALUES ==> s.value[i] == if i < |values| then values[i] else residue[i])
  }

  /** A clock that does not run backwards keeps a history one that runs of writes can leave. */
  lemma AppendKeepsRecordable(log: Log, id: SensorId, entry: Sample)
    requires Recordable(log, id) && NotAfter(log, entry.timestampUs)
    requires WellFormedSample(entry) && entry.sensorId == id && entry.sequence == |log| % TWO_32
    ensures Recordable(log + [entry], id)
  {
    AppendKeepsShape(log, id, entry);
    var log' := log + [entry];
    forall i, j | 0 <= i < j < |log'|
      ensures log'[i].timestampUs <= log'[j].timestampUs
    {
      if j == |log| && i < |log| - 1 {
        assert log[i].timestampUs <= log[|log| - 1].timestampUs;
      }
    }
  }

  /** What a write appends is what was written, and it keeps the history recordable. */
  lemma EntryIsNewest(log: Log, id: SensorId, timestampUs: uint64, values: seq<real>, valueCount: uint8)
    requires 1 <= valueCount <= MAX_VALUES && valueCount <= |values| && |Residue(log)| == MAX_VALUES
    ensures var log' := log + [Entry(log, id, timestampUs, values, valueCount)];
            && NewestIs(log', id, timestampUs, values[..valueCount], Residue(log))
            && (Recordable(log, id) && NotAfter(log, timestampUs) ==> Recordable(log', id))
  {
    if Recordable(log, id) && NotAfter(log, timestampUs) {
      AppendKeepsRecordable(log, id, Entry(log, id, timestampUs, values, valueCount));
    }
  }

  /** The slot about to be overwritten still holds the residue. */
  lemma NextSlotHoldsResidue(slots: seq<Sample>, writeIndex: uint8, log: Log)
    requires Holds(slots, writeIndex, log)
    ensures slots[writeIndex].value == Residue(log)
  {
    assert SlotBehind(writeIndex, BUFFER_LEN - 1) == writeIndex;
  }

  lemma CopyIndex(writeIndex: uint8, count: uint8, i: uint8)
    requires writeIndex < BUFFER_LEN && i < count <= BUFFER_LEN
    ensures ((writeIndex + BUFFER_LEN - count) % BUFFER_LEN + i) % BUFFER_LEN
            == SlotBehind(writeIndex, count - 1 - i)
  {
  }

  /** The copy loop's index arithmetic walks the ring from the oldest wanted entry to the newest. */
  lemma CopyEntry(slots: seq<Sample>, writeIndex: uint8, log: Log, count: uint8, i: uint8)
    requires Holds(slots, writeIndex, log) && i < count <= Min(|log|, BUFFER_LEN)
    ensures slots[((writeIndex + BUFFER_LEN - count) % BUFFER_LEN + i) % BUFFER_LEN] == log[|log| - count + i]
  {
    CopyIndex(writeIndex, count, i);
  }

  /** Overwriting the slot at `writeIndex` appends to the log and forgets only the oldest entry. */
  lemma OverwriteAppends(slots: seq<Sample>, writeIndex: uint8, log: Log, entry: Sample)
    requires Holds(slots, writeIndex, log)
    ensures Holds(slots[writeIndex := entry], (writeIndex + 1) % BUFFER_LEN, log + [entry])
  {
    var next: uint8 := if writeIndex == BUFFER_LEN - 1 then 0 else writeIndex + 1;
    var slots', log' := slots[writeIndex := entry], log + [entry];
    forall back | 0 <= back < BUFFER_LEN
      ensures back < |log'| ==> slots'[SlotBehind(next, back)] == log'[|log'| - 1 - back]
      ensures |log'| <= back ==> slots'[SlotBehind(next, back)].value == ZERO_VALUES
    {
      assert SlotBehind(next, back) == if back == 0 then writeIndex else SlotBehind(writeIndex, back - 1);
    }
  }

  function Latest(log: Log): Option<Sample> {
    if log == [] then None else Some(log[|log| - 1])
  }

  /** Behind the written values the newest sample still holds what the sample ten writes earlier held there. */
  lemma StaleValuesRemain(log: Log, id: SensorId, timestampUs: uint64, values: seq<real>, valueCount: uint8, i: nat)
    requires 1 <= valueCount <= i < MAX_VALUES && valueCount <= |values| && |Residue(log)| == MAX_VALUES
    ensures Entry(log, id, timestampUs, values, valueCount).value[i]
            == if |log| < 10 then 0.0 else log[|log| - 10].value[i]
  {
  }

  /** Writing and then reading: the new window is the old one with the new entry at its end and, once the
      window is full, without its oldest entry; the written values come back first in the newest sample. */
  lemma WriteThenRead(log: Log, id: SensorId, timestampUs: uint64, values: seq<real>, valueCount: uint8, maxOut: nat)
    requires 1 <= valueCount <= MAX_VALUES && valueCount <= |values| && |Residue(log)| == MAX_VALUES
    ensures var e := Entry(log, id, timestampUs, values, valueCount);
            var w, w' := Window(log, maxOut), Window(log + [e], maxOut);
            && Latest(log + [e]) == Some(e) && e.value[..valueCount] == values[..valueCount]
            && (maxOut == 0 ==> w' == [])
            && (0 < maxOut && |w| < Min(maxOut, BUFFER_LEN) ==> w' == w + [e])
            && (0 < maxOut && |w| == Min(maxOut, BUFFER_LEN) ==> w' == w[1..] + [e])
  {
    var e := Entry(log, id, timestampUs, values, valueCount);
    assert Window(log + [e], maxOut) == (log + [e])[|log| + 1 - |Window(log + [e], maxOut)|..];
  }

  // ---- The buffer ----

  class SensorBuffer {
    const sensorId: SensorId
    const expectedPeriodUs: uint32
    const samples: array<Sample>
    var writeIndex: uint8
    var sampleCount: uint8
    var nextSequence: uint32
    ghost var log: Log

    ghost predicate Valid()
      reads this, samples
    {
      && samples.Length == BUFFER_LEN
      && WellFormed(log, sensorId) && Numbered(log)
      && Holds(samples[..], writeIndex, log)
      && sampleCount == Min(|log|, BUFFER_LEN)
      && nextSequence == |log| % TWO_32
    }

    constructor (sensorId: SensorId, expectedPeriodUs: uint32)
      ensures Valid() && fresh(samples)
      ensures log == [] && this.sensorId == sensorId && this.expectedPeriodUs == expectedPeriodUs
    {
      this.sensorId := sensorId;
      this.expectedPeriodUs := expectedPeriodUs;
      samples := new Sample[BUFFER_LEN](_ => ZERO_SAMPLE);
      writeIndex, sampleCount, nextSequence := 0, 0, 0;
      log := [];
    }

    /** Rejects a value count outside 1..6; otherwise appends exactly one entry to the log. */
    method Write(timestampUs: uint64, values: seq<real>, valueCount: uint8) returns (ok: bool)
      requires Valid() && valueCount <= |values|
      modifies this, samples
      ensures Valid()
      ensures ok <==> 1 <= valueCount <= MAX_VALUES
      ensures |Residue(old(log))| == MAX_VALUES
      ensures ok ==> log == old(log) + [Entry(old(log), sensorId, timestampUs, values, valueCount)]
      ensures ok ==> NewestIs(log, sensorId, timestampUs, values[..valueCount], Residue(old(log)))
      ensures ok && Recordable(old(log), sensorId) && NotAfter(old(log), timestampUs) ==> Recordable(log, sensorId)
      ensures !ok ==> log == old(log) && samples[..] == old(samples[..])
    {
      ok := 1 <= valueCount <= MAX_VALUES;
      if !ok {
        return;
      }
      var slot := samples[writeIndex];
      NextSlotHoldsResidue(samples[..], writeIndex, log);
      var entry := Sample(sensorId, timestampUs, nextSequence, valueCount,
                          values[..valueCount] + slot.value[valueCount..]);
      OverwriteAppends(samples[..], writeIndex, log, entry);
      AppendKeepsShape(log, sensorId, entry);
      EntryIsNewest(log, sensorId, timestampUs, values, valueCount);
      samples[writeIndex] := entry;
      assert samples[..] == old(samples[..])[writeIndex := entry];
      nextSequence := (nextSequence + 1) % TWO_32;
      writeIndex := (writeIndex + 1) % BUFFER_LEN;
      if sampleCount < BUFFER_LEN {
        sampleCount := sampleCount + 1;
      }
      log := log + [entry];
    }

    /** Copies the last `min(n, 10, maxOut)` log entries, oldest first, and touches nothing else. */
    method ReadHistory(out: array<Sample>, maxOut: uint8) returns (count: uint8)
      requires Valid() && maxOut <= out.Length && out != samples
      modifies out
      ensures count == |Window(log, maxOut)|
      ensures out[..count] == Window(log, maxOut)
      ensures out[count..] == old(out[count..])
    {
      count := sampleCount;
      if count > maxOut {
        count := maxOut;
      }
      var start: uint8 := (writeIndex + BUFFER_LEN - count) % BUFFER_LEN;
      ghost var slots, window := samples[..], Window(log, maxOut);
      var i: uint8 := 0;
      while i < count
        invariant i <= count && samples[..] == slots
        invariant out[..i] == window[..i]
        invariant forall j :: count <= j < out.Length ==> out[j] == old(out[j])
      {
        var idx: uint8 := (start + i) % BUFFER_LEN;
        CopyEntry(slots, writeIndex, log, count, i);
        assert samples[idx] == slots[idx] == window[i];
        out[i] := samples[idx];
        i := i + 1;
      }
    }

    /** The newest log entry, or nothing when the log is empty. */
    method GetLatest() returns (sample: Option<Sample>)
      requires Valid()
      ensures sample == Latest(log)
    {
      if sampleCount == 0 {
        return None;
      }
      var latestIdx: uint8 := (writeIndex + BUFFER_LEN - 1) % BUFFER_LEN;
      assert latestIdx == SlotBehind(writeIndex, 0);
      return Some(samples[latestIdx]);
    }

    method Count() returns (count: uint8)
      requires Valid()
      ensures count == |Window(log, BUFFER_LEN)|
    {
      count := sampleCount;
    }

    /** The newest entry's timestamp; 0 before the first write. */
    method LastTimestamp() returns (ts: uint64)
      requires Valid()
      ensures ts == if log == [] then 0 else log[|log| - 1].timestampUs
    {
      ts := 0;
      if sampleCount > 0 {
        var latestIdx: uint8 := (writeIndex + BUFFER_LEN - 1) % BUFFER_LEN;
        assert latestIdx == SlotBehind(writeIndex, 0);
        ts := samples[latestIdx].timestampUs;
      }
    }
  }
}
