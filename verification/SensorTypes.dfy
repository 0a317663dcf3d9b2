/** Identifiers, states, machine words and configuration shared by every component. */
module SensorTypes {

  // ---- Machine words ----

  type uint8 = x: int | 0 <= x < 0x100
  type uint32 = x: int | 0 <= x < TWO_32
  type uint64 = x: int | 0 <= x < TWO_64

  const TWO_32: int := 0x1_0000_0000
  const TWO_64: int := 0x1_0000_0000_0000_0000

  /** `x++` on a `uint8_t`. */
  function Inc8(x: uint8): uint8 {
    (x + 1) % 0x100
  }

  /** `a - b` on `uint64_t`. */
  function Sub64(a: uint64, b: uint64): uint64 {
    if a >= b then a - b else a - b + TWO_64
  }

  /** `a + b` on `uint64_t`. */
  function Add64(a: uint64, b: uint64): uint64 {
    if a + b < TWO_64 then a + b else a + b - TWO_64
  }

  // ---- Small helpers ----

  datatype Option<+T> = None | Some(value: T)

  function Max(a: int, b: int): int {
    if a >= b then a else b
  }

  function Min(a: int, b: int): int {
    if a <= b then a else b
  }

  function Abs(x: real): real {
    if x < 0.0 then -x else x
  }

  lemma Scale(a: real, b: real, x: real)
    requires a <= b && x >= 0.0
    ensures a * x <= b * x && x * a <= x * b
  {
  }

  lemma SquareGrows(a: real, b: real)
    requires 0.0 <= a < b
    ensures a * a < b * b
  {
    var d := b - a;
    assert b * b == a * a + d * (a + b);
    assert d * (a + b) > 0.0;
  }

  /** All the model assumes of the C library's `sqrtf`. */
  ghost predicate IsSqrt(sqrt: real -> real) {
    forall x: real :: x >= 0.0 ==> sqrt(x) >= 0.0 && sqrt(x) * sqrt(x) == x
  }

  // ---- Sensors, faults and states ----

  datatype SensorId = US1 | US2 | IMU1 | IMU2

  datatype FaultType = NoFault | Delayed | Stuck | Noisy | Contradictory

  datatype SensorState = Healthy | Suspect | Faulted | Excluded | Probing | Validating

  predicate IsUltrasonic(id: SensorId) {
    id.US1? || id.US2?
  }

  /** The other sensor of the same kind. */
  function RedundantPair(id: SensorId): (twin: SensorId)
    ensures twin != id && (IsUltrasonic(twin) <==> IsUltrasonic(id))
  {
    match id
    case US1 => US2
    case US2 => US1
    case IMU1 => IMU2
    case IMU2 => IMU1
  }

  /** A fault that blames this sensor rather than the pair. */
  predicate Definitive(f: FaultType) {
    f.Delayed? || f.Stuck? || f.Noisy?
  }

  /** The states in which fusion listens to a sensor. */
  predicate Usable(s: SensorState) {
    s.Healthy? || s.Suspect?
  }

  /** The states the Recovery thread owns. */
  predicate RecoveryOwned(s: SensorState) {
    s.Excluded? || s.Probing? || s.Validating?
  }

  predicate OnTrial(s: SensorState) {
    s.Probing? || s.Validating?
  }

  datatype FdiConfig = FdiConfig(
    delayTimeoutUs: uint32,
    stuckThreshold: real,
    noiseThreshold: real,
    contradictionThreshold: real,
    faultConfirmLimit: uint8,
    recoveryConfirmLimit: uint8)

  const US_CONFIG := FdiConfig(500000, 3.0, 30.0, 70.0, 3, 3)
  const IMU_CONFIG := FdiConfig(500000, 0.01, 5.0, 5.0, 3, 3)

  /** One line of traffic to the Logger and to Recovery; `syntheticReason` is 0 for the
      Fault Detector's own events, 1 for a recovery timeout and 2 for a permanent failure. */
  datatype FaultEvent = FaultEvent(
    id: SensorId,
    state: SensorState,
    fault: FaultType,
    timestampUs: uint64,
    syntheticReason: int,
    probeAttempts: int)
}
