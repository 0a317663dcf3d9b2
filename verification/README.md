# Fault detection, isolation, recovery and fusion of the parking-assist sensors

This project models the decision-making core of the QNX parking assistant and proves properties of it:

- the ten-slot circular history of each sensor (`SensorBuffers.dfy`), against an unbounded append-only log;
- the detection engine with its four checks (`Detection.dfy`), against quantified statements over that log;
- the per-sensor debounced state machine (`FaultDetector.dfy`), with its three `uint8_t` streaks;
- the Fault Detector task (`DetectorTask.dfy`) and exactly which detection histories isolate a sensor (`Isolation.dfy`);
- the Recovery task with its timeout, backoff and permanent latch (`RecoveryTask.dfy`), and whole runs of one
  sensor under both tasks (`RecoveryRuns.dfy`);
- the two threads stepping one context without a lock, statement by statement (`Interleaving.dfy`);
- how such schedules relate to runs of whole calls (`Serialisation.dfy`), and how long a dead sensor can last under
  them (`SilentSensor.dfy`);
- the fusion ladder FULL / SINGLE / HOLDOVER / UNSAFE (`Fusion.dfy`), whole runs of it (`FusionRuns.dfy`) and the motion
  a holdover charges (`Drift.dfy`);
- the Logger's fault timeline (`Timeline.dfy`);
- statements that cross all of these (`EndToEnd.dfy`).

Objects the C code updates in place are classes (`SensorBuffer`, `FdiContext`, `RecoverySup`, `FusionEngine`,
`Logger`); their methods are proved equal to functions on values, and the lemmas are about those functions.

Conventions. `float` is `real`. `sqrtf` is a parameter `sqrt` of which only `sqrt(x) >= 0` and `sqrt(x)^2 == x`
for `x >= 0` is assumed (`IsSqrt`). `uint8_t`, `uint32_t` and `uint64_t` are bounded types and every increment or
subtraction that could wrap is written with its wrap-around (`Inc8`, `Sub64`, `Add64`). The clock is a parameter;
statements about runs assume that it never runs backwards (`Clocked`). All limits are symbolic: L is
`fault_confirm_limit`, R is `recovery_confirm_limit`, any values 0..255.

The theorems of `Isolation.dfy`, `RecoveryRuns.dfy` and `EndToEnd.dfy` are about runs of whole evaluations and whole
events. `QuietSchedulesSerialise` carries them over to the interleaved threads whenever the detector keeps out while
Recovery finishes an event; without that condition they can fail (`RaceDoesNotSerialise`, `SilenceBoundIsAttained`).

## Where the code differs from its comments

- A probe timeout does not force the sensor back to EXCLUDED (comments at src/main.c:30-36 and 411-415), because
  `fdi_isolate` acts only on FAULTED. The sensor stays in PROBING or VALIDATING for the rest of the run
  (`TrialEventExcludesIff`, `TimeoutDoesNotExclude`, `TimeoutFreezes`). As a consequence the exponential backoff and
  the latch test never hold back a probe (`EveryExcludedEventProbes`), and the latch closes with the fifth event
  that finds the trial late (`LatchClosesOnFifthTimeout`).
- Isolation is documented to take consecutive faults (src/fault_detector.h:30, README.md:103 and its state diagram). The
  code keeps that promise iff R is at most 1 (`IsolationTakesConsecutiveFaultsIff`); the shipped R is 3. For every
  R of at least 2 the history STUCK, clean, STUCK, clean, ... isolates a sensor none of whose faults are adjacent
  (`AlternatingFaultsIsolate`). `ExcludedIffCondemned` gives the exact rule, and consecutive definitive faults do
  isolate (`ConsecutiveDefinitivesIsolate`).
- NOISY is a jump between neighbours, not the max-minus-min of the project README. The spread of a window forces a
  NOISY verdict iff it exceeds nine thresholds and excludes one iff it does not exceed one (`SpreadForcesNoisyIff`,
  `SpreadExcludesNoisyIff`); `RampIsNotNoisy` gives windows in the gap.
- The conservative edge of a fused pair can lie beyond the nearer reading. `SafeEdgeAgainstNearest` says exactly when;
  `SafeEdgeCanPassNearest` is an input (SUSPECT at 100 cm, HEALTHY at 115 cm: zone SAFE).
- Losing the last contact can relax the report, and not only for one step or for a SUSPECT survivor. A holdover report
  is as cautious as the contact it follows iff the holdover uncertainty, 2 cm plus 25 cm per second, has reached the
  contact's own (`CautionSinceContactIff`): 120 ms after a HEALTHY survivor, 520 ms after a SUSPECT one, within half
  a second after an agreeing pair, and after a pair that disagrees by more than 39.5 cm never within the 1.5 s hold.
  `LosingTheLastSensorCanRelaxTheZone` goes from SLOW to CAUTION; `LosingADisagreeingPairRelaxesTheWholeHold` goes from
  STOP (200 and 400 cm) to SAFE at every moment of the hold. Among holdover reports themselves caution only grows
  (`HoldoverOnlyGrowsCautious`).
- Reintegration assigns `state` before it clears the streaks. Under statement-level interleaving the counter invariant
  of whole calls therefore survives exactly as long as the detector does not charge a first fault between that
  assignment and the clearing of `fault_streak` (`InvariantSurvivesWithoutRace`, `InvariantBreaksIffRace`), and every
  configuration can reach that point (`EveryConfigurationCanRace`). Ownership of `state` and the absence of wrap-around
  hold in every interleaving.

## Model

| member | source | states |
|---|---|---|
| SensorBuffers.SensorBuffer.constructor | src/sensor_buffer.c:13-28 | a fresh buffer stands for the empty log |
| SensorBuffers.SensorBuffer.Write | src/sensor_buffer.c:39-67 | appends exactly one entry: this sensor's, with the given stamp and count, the next sequence number modulo 2^32 and the values over whatever the reused slot held; with a stamp not earlier than the newest the history stays recordable; a count outside 1..6 is rejected and changes nothing |
| SensorBuffers.SensorBuffer.ReadHistory | src/sensor_buffer.c:69-96 | returns the last min(n, 10, max_out) log entries oldest first and touches nothing else; no index computation leaves `uint8_t` |
| SensorBuffers.SensorBuffer.GetLatest | src/sensor_buffer.c:98-117 | the newest log entry, or nothing when the log is empty |
| SensorBuffers.SensorBuffer.Count | src/sensor_buffer.c:119-130 | the number of entries a full read returns |
| SensorBuffers.SensorBuffer.LastTimestamp | src/sensor_buffer.c:141-158 | the newest entry's timestamp, 0 for an empty log |
| SensorBuffers.OverwriteAppends | src/sensor_buffer.c:50-62 | overwriting the slot at the write index represents the longer log: only the oldest entry is forgotten |
| SensorBuffers.CopyEntry | src/sensor_buffer.c:83-89 | the copy loop's modular index of position i is the slot of log entry n-count+i |
| SensorBuffers.WindowIsConsecutive | src/sensor_buffer.c:54 | the sequence numbers of any window are consecutive modulo 2^32 |
| SensorBuffers.WriteThenRead | src/sensor_buffer.c:39-117 | a read after a write sees the old window with the new entry last, less its oldest entry once full, and the written values come back |
| SensorBuffers.StaleValuesRemain | src/sensor_buffer.c:56 | behind the written values the sample still holds what the sample ten writes earlier held there |
| SensorBuffers.EntryIsNewest | src/sensor_buffer.c:50-57 | the newest entry holds the writer's identity, stamp, count and values, and a clock that does not run backwards keeps the history recordable |
| Detection.CheckDelayed | src/fault_detector.c:52-67 | true iff the log is empty or its newest entry is older than the timeout |
| Detection.DelayedIffOlder | src/fault_detector.c:52-67 | the engine says DELAYED iff nothing is on record or the newest sample is more than the timeout old |
| Detection.Extremes | src/fault_detector.c:88-95 | the loop's `mn` and `mx` are attained bounds of the component over the window |
| Detection.CheckStuck | src/fault_detector.c:74-105 | true iff ten samples exist and no component spreads over more than the threshold (read with StuckIffNarrow) |
| Detection.StuckIffNarrow | src/fault_detector.c:86-104 | STUCK is a full window no component of which has two samples further apart than the threshold |
| Detection.StuckIffSpread | src/fault_detector.c:88-100 | a history whose full window has spread s is STUCK iff s does not exceed the threshold, however the spread is distributed |
| Detection.SteadyApproach | src/fault_detector.c:171-186 | for every configuration and step, a steady ramp checked in time is STUCK iff nine steps fit the stuck threshold, else NOISY iff one step exceeds the noise threshold, else decided by the twin |
| Detection.SlowApproachIsHealthy | src/fault_detector.c:97-100 | 2 cm per sample under the shipped ultrasonic limits is healthy |
| Detection.CheckNoisy | src/fault_detector.c:108-136 | true iff ten samples exist and some two neighbours differ by more than the threshold in some component |
| Detection.CheckContradictory | src/fault_detector.c:142-165 | true iff both logs are non-empty and the squared distance of the shared components exceeds the squared threshold (or the threshold is negative) |
| Detection.AnyComponentContradicts | src/fault_detector.c:152-164 | one shared component differing by more than the threshold, whichever it is, is a contradiction |
| Detection.DifferencesAddUp | src/fault_detector.c:156-164 | n shared components each differing by at least b are a contradiction if n b^2 exceeds the squared threshold |
| Detection.AgreementIsSilent | src/fault_detector.c:156-164 | n shared components each differing by at most b are none if n b^2 does not exceed it |
| Detection.ThirdOfThresholdIsSilent | src/fault_detector.c:149-164 | agreement within a third of the threshold in every component is silent for up to six of them |
| Detection.ContradictionTakesTwo | src/fault_detector.c:145-151 | a contradiction takes a twin and a sample on both sides |
| Detection.FdiDetect | src/fault_detector.c:171-186 | returns the first fault whose specification over the logs holds |
| Detection.StuckAndNoisyExclude | src/fault_detector.c:178-182 | no recordable history is both stuck and noisy iff the stuck threshold does not exceed the noise threshold or is negative |
| Detection.CheckOrderMattersIff | src/fault_detector.c:180-183 | swapping the stuck and noisy checks changes the verdict on some recordable history iff the stuck threshold is non-negative and exceeds the noise threshold; in neither shipped configuration it does |
| Detection.ContradictionIsSymmetric | src/fault_detector.c:213-219 | the contradiction check fires for one member of a pair iff it fires for the other |
| Detection.QuietTelescopes | src/fault_detector.c:120-133 | in a window that is not noisy, samples d apart differ by at most d thresholds |
| Detection.QuietSpread | src/fault_detector.c:120-133 | a full window that is not noisy spreads over at most nine thresholds per component |
| Detection.SpreadForcesNoisyIff | src/fault_detector.c:108-136 | every full window of a given spread is NOISY iff the spread exceeds nine thresholds |
| Detection.SpreadExcludesNoisyIff | src/fault_detector.c:108-136 | no full window of a given spread is NOISY iff the spread does not exceed one threshold |
| Detection.RampIsNotNoisy | README.md:100 | for every spread up to nine thresholds, a history a buffer can hold that has this spread and is not NOISY |
| FaultDetector.FdiContext.constructor | src/fault_detector.c:28-46 | a context starts HEALTHY with all streaks zero, paired with its physical twin |
| FaultDetector.FdiContext.UpdateState | src/fault_detector.c:193-261 | the primary tick computes the specified transition |
| FaultDetector.FdiContext.Isolate | src/fault_detector.c:266-271 | acts on FAULTED only |
| FaultDetector.FdiContext.StartProbe | src/fault_detector.c:276-282 | acts on EXCLUDED only and restarts the validation streak |
| FaultDetector.FdiContext.ProbeEvaluate | src/fault_detector.c:289-323 | the secondary tick computes the specified transition |
| FaultDetector.CallsFollowTheDiagram | src/fault_detector.c:193-323 | no call in any state leaves the state diagram, and detector calls and recovery calls act on disjoint sets of states |
| FaultDetector.RunKeepsCounters | src/fault_detector.c:43-45 | every sequence of calls keeps the counter invariant, for all limits |
| FaultDetector.ReachableIffCounters | src/fault_detector.c:201-320 | the counter invariant is exact: calls reach every state it admits and no other |
| FaultDetector.IncrementsNeverWrap | src/fault_detector.c:230-309 | no `uint8_t` increment ever wraps, even at limits 0 or 255 |
| DetectorTask.EvaluateSensor | src/main.c:228-260 | one evaluation applies the specified transition to the engine's verdict on the logs |
| DetectorTask.EvaluateAndReport | src/main.c:296-316 | every evaluation is reported to the Logger and wakes Recovery exactly for the sensors Recovery owns |
| DetectorTask.FaultedIsNeverVisible | src/main.c:234-257 | FAULTED is never visible after an evaluation and sensors Recovery owns are left alone |
| Isolation.ExcludedIffCondemned | src/fault_detector.c:201-261 | folding evaluations over any history d ends EXCLUDED iff for some i < j, d[i] is a fault, d(i..j] has no run of max(R,1) clean results and holds at least max(L-1,1) definitive faults |
| Isolation.FoldTracks | src/fault_detector.c:201-245 | at every prefix the streaks measure exactly what followed the fault that opened the SUSPECT episode |
| Isolation.IsolationTakesConsecutiveFaultsIff | src/fault_detector.h:30 | every history that isolates holds max(L,2) consecutive faults iff R is at most 1, which neither shipped configuration satisfies |
| Isolation.AlternatingFaultsIsolate | src/fault_detector.c:236-245 | for every R of at least 2 an isolating history no two of whose faults are adjacent |
| Isolation.ConsecutiveDefinitivesIsolate | src/fault_detector.c:229-235 | max(L,2) consecutive definitive faults, wherever they come, isolate |
| RecoveryTask.HandleEvent | src/main.c:384-453 | one received event updates context and supervisor as specified; a timeout line is sent iff the attempts grow, a permanent-failure line after it iff the latch then holds, each with the sensor's id, state and last fault, the event's stamp and the new attempts; a timeout schedules the next probe 1, 2, 4 or 8 s ahead |
| RecoveryTask.LinesTellTheStep | src/main.c:340-358 | the same of the specification, for every sensor record and event |
| RecoveryTask.ProbeGate | src/main.c:387-404 | an EXCLUDED sensor is probed iff it is not latched and its backoff has passed; otherwise nothing changes |
| RecoveryTask.TrialAndRecord | src/main.c:406-449 | attempts grow iff an event finds the sensor on a trial begun more than 2 s earlier; on a younger trial the record changes only on HEALTHY, which clears it |
| RecoveryTask.BackoffCapNeverBinds | src/main.c:427-430 | every backoff is exactly 2^(attempts-1) s, at most 8 s, so the 30 s cap never binds |
| RecoveryRuns.RunKeepsSup | src/main.c:386-449 | in every run: attempts are on record only for a trial that has timed out, and the latch is set iff there are at least five |
| RecoveryRuns.EveryExcludedEventProbes | src/main.c:387-404 | in every run, each event that finds the sensor EXCLUDED starts a probe: neither backoff nor latch ever holds one back |
| RecoveryRuns.TimeoutFreezes | src/main.c:408-433 | after a timeout the state machine never moves again in that run and each further event is one more attempt |
| RecoveryRuns.LatchIsAbsorbing | src/main.c:422-426 | once permanent_fail is set it stays set and the sensor is never HEALTHY or SUSPECT again |
| RecoveryRuns.LatchClosesOnFifthTimeout | src/main.c:417-425 | the latch is closed iff at least five events, counting the first late one, have found the trial timed out |
| RecoveryRuns.TimeoutLinesAreNumbered | src/main.c:416-425 | in every run the timeout lines sent are numbered 1, 2, 3, ... without gap or repeat and the permanent-failure lines are exactly those of the fifth and every later timeout, all showing the state the trial is frozen in |
| RecoveryRuns.EveryLateEventIsTold | src/main.c:410-426 | from the first late event on, n events handled have sent n timeout lines and max(n-4, 0) permanent-failure lines |
| RecoveryRuns.TrialEventExcludesIff | src/main.c:406-439 | an event during a trial ends EXCLUDED iff it is in time and finds a fault; a timeout leaves the state machine alone |
| RecoveryRuns.TimeoutDoesNotExclude | src/main.c:411-416 | a concrete run in which a timeout leaves the sensor PROBING, contrary to the comment |
| RecoveryRuns.SessionEndsIffDecided | src/main.c:402-449 | a probe session leaves PROBING/VALIDATING iff an event within the timeout finds a fault or completes max(R,2) evaluations |
| RecoveryRuns.FirstDecisiveEnds | src/fault_detector.c:297-320 | the first such event ends it in EXCLUDED on a fault and in HEALTHY otherwise |
| RecoveryRuns.InTimeSessionEnds | src/fault_detector.c:297-320 | a session whose events are in time is over within max(R,2) evaluations |
| RecoveryRuns.ReintegrationIsEarned | src/main.c:436-447 | on every run, when Recovery returns a sensor to HEALTHY, the last probe started has been followed by exactly max(R,2) recovery evaluations of the sensor on trial, all clean and timely, and by no other event Recovery handled |
| Interleaving.SoloDetectorIsOneEvaluation | src/main.c:228-260 | without interference the detector's statements add up to exactly one whole evaluation |
| Interleaving.SoloRecoveryIsOneEvent | src/main.c:386-452 | without interference Recovery's statements have exactly the effect of one whole event on the state machine and the supervisor |
| Interleaving.ScheduleKeepsOwnership | src/main.c:228-260 | in every schedule each thread's last read of a `state` it owns is still current at each of its program points |
| Interleaving.EveryWriteIsALegalEdge | src/main.c:386-453 | in every interleaving each write of `state` is a legal edge from the value it overwrites, by the thread owning that value; no update is lost |
| Interleaving.FaultedOnlyMidEvaluation | src/main.c:234-245 | in every schedule FAULTED is visible only while the detector is inside an evaluation |
| Interleaving.StaleEventsAreHarmless | src/main.c:386-452 | a whole event that finds a state Recovery does not own, with any detector moves in between, leaves context and supervisor as the detector moves alone would |
| Interleaving.ScheduleKeepsBounds | src/fault_detector.c:205-314 | upper bounds on the streaks survive every interleaving of the counter statements |
| Interleaving.NoIncrementWraps | src/fault_detector.c:230-309 | no increment wraps even when the counter statements race |
| Interleaving.InvariantSurvivesWithoutRace | src/fault_detector.c:311-314 | in every schedule in which no first fault is charged between the assignment of HEALTHY and the clearing of fault_streak, the counter invariant of whole calls holds whenever both threads are at rest |
| Interleaving.InvariantSurvivesQuietClearing | src/fault_detector.c:311-314 | in particular when the detector does not move during the three clearing statements |
| Interleaving.InvariantBreaksIffRace | src/fault_detector.c:311-314 | after any race-free moves, one more move leaves both threads to come to rest with the invariant broken iff it is that race |
| Interleaving.EveryConfigurationCanRace | src/fault_detector.c:311-314 | for all limits a schedule reaches the race and then rests in SUSPECT with fault_streak 0, which whole calls never reach |
| Serialisation.QuietSchedulesSerialise | src/main.c:228-457 | if the detector keeps out while Recovery finishes an event, every rest state of context and supervisor is that of a run of whole evaluations and events, a clocked one when events are timely |
| Serialisation.ScheduleSerialises | src/main.c:228-457 | at every point of such a schedule that run exists for the calls already decided |
| Serialisation.RaceDoesNotSerialise | src/fault_detector.c:311-314 | without the condition a rest state is reachable, for all limits, that no run of whole calls leaves |
| SilentSensor.SurvivedVerdicts | src/main.c:228-260 | in every schedule a usable sensor has survived at most max(1, L-1+e) DELAYED verdicts, where e, at most max(L,2), were charged while Recovery was about to clear the streak |
| SilentSensor.DeadSensorInEverySchedule | src/fault_detector.c:52-67 | a sensor gone silent is out after max(L,2)+L verdicts in every schedule, after max(L,2) if the detector never moves before the clearing of fault_streak, and never comes back while silent |
| SilentSensor.SilenceBoundIsAttained | src/fault_detector.c:311-314 | for every L of at least 1 a schedule leaves it SUSPECT, both threads at rest, after max(L,2)+L-1 DELAYED verdicts |
| Fusion.ReadContributor | src/fusion.c:65-98 | contributes iff the sensor is usable and its newest sample is at most 300 ms old, with the state's uncertainty |
| Fusion.ReadLongAccel | src/fusion.c:102-140 | the dead-banded acceleration of the first usable IMU with a fresh sample |
| Fusion.FusePair | src/fusion.c:166-189 | nearer reading and whole spread for a disagreeing pair, inverse-variance mean otherwise (in numbers: DisagreementIsPessimistic, AgreementIsMean) |
| Fusion.FusionEngine.constructor | src/fusion.c:144-147 | the engine starts with nothing to hold over from |
| Fusion.FusionEngine.Coast | src/fusion.c:235-254 | a holdover call integrates the clamped time step and charges all motion, in centimetres, against the distance (in numbers: Drift) |
| Fusion.FusionEngine.Fuse | src/fusion.c:165-268 | the ladder computes the specified result and next state |
| Fusion.FusionEngine.FusionCompute | src/fusion.c:149-268 | one call is the ladder over what the contexts and logs show at that moment |
| Fusion.ContributesIffFresh | src/fusion.c:75-95 | a sensor contributes iff it is HEALTHY or SUSPECT and its newest sample at most 300 ms old: that reading, 2 or 6 cm, and its age |
| Fusion.AccelerationSource | src/fusion.c:110-136 | IMU1 whenever it is usable and fresh, IMU2 only when IMU1 is not, none otherwise; 9.80665 times the reading in g, 0 below 0.03 g |
| Fusion.DisagreementIsPessimistic | src/fusion.c:174-181 | every call with two fresh readings more than 20 cm apart reports the nearer one, the whole spread as uncertainty, their difference floored at 0 as safe edge, and the disagreement |
| Fusion.AgreementIsMean | src/fusion.c:182-189 | within 20 cm it reports the middle of equally trusted readings, else nine tenths of the way to the HEALTHY one, and half the spread plus the root of 2, 3.6 or 18 |
| Fusion.SingleIsReading | src/fusion.c:198-213 | with one fresh sensor its reading as it is, 5 cm (HEALTHY) or 15 cm (SUSPECT), and its age |
| Fusion.ZoneIntervals | src/fusion.c:281-291 | each zone is its interval of the safe edge: 100, 60, 30 and 15 cm; an invalid range is STOP |
| Fusion.MeanLiesBetween | src/fusion.c:174-189 | the fused distance lies between the two readings |
| Fusion.SafeEdgeAgainstNearest | src/fusion.c:174-189 | the safe edge passes the nearer reading iff the pair agrees, only the nearer sensor is SUSPECT and spread^2 > 22.5; then by at most 0.4 spread - sqrt(3.6), below 6.2 cm |
| Fusion.SafeEdgeCanPassNearest | src/fusion.c:182-189 | an input for it: SUSPECT at 100 cm and HEALTHY at 115 cm give a safe edge above 100 cm and zone SAFE |
| FusionRuns.ModeIsDecidedByContact | src/fusion.c:165-233 | in every run the mode is decided by this call's contributors and the time since the last contact alone |
| FusionRuns.FullReport | src/fusion.c:166-189 | a FULL call is reported pessimistically above 20 cm of spread and as the weighted mean otherwise, for every pair of readings and states |
| FusionRuns.EvidenceIsRecent | src/fusion.c:87-97 | every valid range rests on a sample of a usable ultrasonic sensor, at most 300 ms old when taken and at most 1.8 s old now; the contact's distance was the survivor's reading or lay between the two, and has not grown since |
| FusionRuns.UnsafeUntilContact | src/fusion.c:220-233 | once UNSAFE, every call is UNSAFE until an ultrasonic sensor contributes |
| FusionRuns.HoldoverIsCoasting | src/fusion.c:215-263 | a holdover episode is a chain of coasting steps from the last contact, and its reports show the coasted state |
| Drift.HoldoverDrift | src/fusion.c:235-251 | in every episode, for any call schedule: with accelerations between lo and hi (no trusted IMU counts as 0) the velocity lies between lo tau and hi tau, and the fall between the least and the greatest magnitude times the reach |
| Drift.ReachIsSquares | src/fusion.c:240-249 | the reach is exactly 50 (tau^2 + q) cm per m/s^2, q the squares of the time steps added up |
| Drift.UniformAcceleration | src/fusion.c:240-250 | under uniform acceleration a the velocity is exactly a tau and the fall exactly |a| times the reach |
| Drift.HoldoverGainsSpeed | src/fusion.c:240-241 | accelerations of at least A in one direction give a speed of at least A tau in it |
| Drift.HoldoverChargesMotion | src/fusion.c:246-250 | and the distance has then fallen by at least 50 A tau^2 cm |
| Drift.HoldoverDriftIsBounded | src/fusion.c:235-251 | with accelerations of at most A, speed is at most A tau and the distance has fallen by at most 100 A tau^2 (and 50 A (tau^2 + tau/2)), tau at most the time since contact and 1.5 s |
| Drift.HoldoverWithoutImu | src/fusion.c:240-250 | without a trusted IMU from some call on, the velocity v stays and each further integrated second costs exactly 100 abs(v) cm |
| Drift.SecondsAreElapsedIff | src/fusion.c:235-238 | the integrated time never exceeds the elapsed time and equals it iff no two neighbouring calls are more than half a second apart |
| Drift.HalfASecondOfMotion | src/fusion.c:235-250 | one holdover call half a second after the contact charges exactly 25 cm per m/s^2 |
| Drift.MotionIsChargedInCentimetres | src/fusion.c:102-262 | an input for it: 200 cm, then half a second at 0.2 g, reports 150.96675 cm with 14.5 cm of uncertainty |
| FusionRuns.HoldoverReportIs | src/fusion.c:245-267 | a HOLDOVER report in numbers: the carried distance, never negative; 2 cm plus 25 cm for every second since the contact; that time as age |
| FusionRuns.UnsafeReportIs | src/fusion.c:220-233 | an UNSAFE report in numbers: all zero but the time since the last contact, above 1.5 s, or 0 if there never was one |
| FusionRuns.HoldoverOnlyGrowsCautious | src/fusion.c:245-267 | from any HOLDOVER call on, until contact: distance and safe edge never increase, uncertainty never decreases while valid, the zone never relaxes |
| FusionRuns.CautionSinceContactIff | src/fusion.c:198-267 | at every call of a holdover episode: the safe edge is no further out than the contact's iff distance less travel is used up by the uncertainty or travel plus uncertainty have outgrown the contact's uncertainty; the report is more cautious in every respect iff the holdover uncertainty has reached the contact's |
| FusionRuns.UnsafeIsMoreCautiousThanContact | src/fusion.c:228-233 | an UNSAFE report is more cautious than any contact |
| FusionRuns.CautionAfterSingleIff | src/fusion.c:198-213 | after SINGLE caution is restored iff 120 ms (HEALTHY) or 520 ms (SUSPECT) have passed, whatever the IMUs report |
| FusionRuns.CautionAfterAgreementIff | src/fusion.c:182-189 | after an agreeing pair iff the holdover uncertainty has reached half the spread plus the root of 2, 3.6 or 18 for two HEALTHY, mixed or two SUSPECT sensors; always within 500 ms |
| FusionRuns.CautionAfterDisagreementIff | src/fusion.c:174-181 | after a disagreeing pair iff the holdover uncertainty has reached the spread, never within the hold above 39.5 cm |
| FusionRuns.LosingTheLastSensorCanRelaxTheZone | src/fusion.c:201-262 | an input for it: a SUSPECT survivor at 40 cm goes stale, SLOW becomes CAUTION |
| FusionRuns.LosingADisagreeingPairRelaxesTheWholeHold | src/fusion.c:174-262 | an input for it: a pair at 200 and 400 cm goes stale, STOP becomes SAFE at every moment of the hold |
| Timeline.Logger.constructor | src/main.c:475 | the Logger starts from HEALTHY for every sensor |
| Timeline.Logger.Handle | src/main.c:488-517 | one event is logged iff it changes the state or is synthetic; the line shows its sensor, stamp and state and, by its kind, the change and fault of a normal event or the attempts of a timeout (reason 1) or permanent failure (reason 2); only its own slot is updated |
| Timeline.ReplayIsFaithful | src/main.c:475-517 | for any interleaved event stream, replaying one sensor's lines gives its state sequence up to repetitions |
| Timeline.NormalTimelineIsDestuttered | src/main.c:490-495 | without synthetic events the replay is exactly the state sequence with repeats removed |
| Timeline.SensorLinesAreExact | src/main.c:488-517 | for any mixed stream one sensor's lines are exactly its events that are synthetic or change its state, in order |
| Timeline.LinesTellTheirEvents | src/main.c:488-517 | the timeline read back: its lines are, in order, exactly the events that are synthetic or change their sensor's reported state, each told field by field |
| Timeline.EverySyntheticEventIsLogged | src/main.c:490-507 | every timeout and permanent failure is in the timeline once, in order, and nothing else is marked as one |
| Timeline.LinesChain | src/main.c:507-516 | each normal line starts in the state that the sensor's previous line left it in |
| EndToEnd.WriteIsHeard | src/fusion.c:83-95 | after a write stamped t the sensor is DELAYED iff the timeout after t has passed, and while usable it contributes exactly the first value written, with its age, until t + 300 ms |
| EndToEnd.DeadSensorIsCondemned | src/main.c:228-260 | in runs of whole calls a sensor silent beyond the timeout reads DELAYED at every evaluation, is out of HEALTHY/SUSPECT after max(L,2) of them, and no step makes it usable while it stays silent |
| EndToEnd.SilentPairEndsUnsafe | src/fusion.c:214-233 | when neither ultrasonic sensor delivers after t0, every call later than t0 + 1.8 s is UNSAFE |
| EndToEnd.TimedOutSensorNeverContributes | src/fusion.c:75-76 | a sensor whose probe timed out contributes nothing for the rest of the run |
| EndToEnd.DisagreementNeverCondemns | src/fault_detector.c:213-227 | with only clean and contradictory results a sensor never leaves HEALTHY/SUSPECT, whatever events Recovery gets |
| EndToEnd.DisagreementKeepsFull | src/fusion.c:166-172 | over any such runs, fresh samples from both sensors give FULL |
| EndToEnd.ContradictionIsSpread | src/fault_detector.c:149-164 | for single-valued sensors a contradiction is exactly a spread above the threshold |
| EndToEnd.ContradictionIsReportedPessimistically | src/fusion.c:174-181 | whenever the engine calls the ultrasonic pair contradictory, fusion over the same samples reports the nearer reading less the whole spread, floored at 0 |

## Left out

- The drivers, GPIO pulses, I2C, calibration and clock sources: hardware; readings and timestamps are parameters.
- Channels, `MsgSend` mechanics, priorities and mutexes: replaced by one event at a time and atomic buffer operations.
- The four-sensor loop of the Fault Detector thread: its body is modelled per sensor, the iteration itself is not.
- The endless receive loops of the threads: their bodies are methods, whole runs are sequences of events.
- `sensor_manager.c` beyond the pairing of sensors with buffers: a fixed map.
- Text output: zones and lines are datatypes, `op_mode_name` and the name tables are not modelled.
- NULL-argument guards, floating-point rounding, NaN and infinity, and `attempts` beyond a C `int`.
- An IMU is read before the ladder is entered rather than inside the holdover branch: the read has no effect.
- A corrected timeout that would exclude the sensor: only the code as it stands is modelled.
- `last_fault` under statement-level interleaving: both threads write it and nothing decides on it; it is modelled per call only.
- Interleaving.InvariantBreaksIffRace: what becomes of the counters after the first race is not followed further; the bounds of `ScheduleKeepsBounds` still hold.
- FusionRuns.EvidenceIsRecent: a sample stamped in the future counts as age 0, as in the code.
- Fusion.ReadContributor: the code reads `ctx->state` twice (src/fusion.c:75 and 94) with the detector running beside it, so a sensor leaving SUSPECT in between can contribute with the HEALTHY uncertainty; the model takes one view of the state per call.
