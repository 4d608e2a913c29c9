/** The bookkeeping part of `processIMU` in `joycon_from_cs.ts`: the guard,
    the time step between reports with its 8-bit wrap-around, the
    handedness flip, the recenter branch, and what the fusion leaves in the
    exposed readings. The direction-cosine fusion itself (floating-point
    vector algebra) is not modelled; the body frame records only which time
    steps it was advanced by. */
module Imu {
  import opened Js
  import opened Bits
  import opened Lifecycle
  import opened Reports

  /** The body frame: never set (the three axes start as zero vectors),
      or set to the identity and then advanced by the listed time steps. */
  datatype Basis = Zero | Fused(steps: seq<int>)

  const Identity := Fused([])

  /** A reading the driver exposes as `accel` or `gyro`, in the units of
      the raw words. `processIMU` stores each sub-sample there, and the
      fusion step then changes the stored vector in place: the accelerometer
      is normalised and negated, the gyroscope multiplied by 0.005 times the
      time step and negated. */
  datatype Reading =
    | Raw(v: Vec3)
      /** The unit vector opposite `v`; a zero vector stays zero. */
    | Opposed(v: Vec3)
      /** `v` multiplied by `-0.005 * dt`. */
    | Scaled(v: Vec3, dt: int)

  datatype RVec3 = RVec3(x: real, y: real, z: real)

  function Real(v: Vec3): RVec3
  {
    RVec3(v.x as real, v.y as real, v.z as real)
  }

  /** The vector of reals a reading stands for. A unit vector opposite a
      non-zero `v` is the one parallel to `v` (all cross-product terms
      vanish), pointing away from it, of squared length 1. */
  predicate Denotes(r: Reading, u: RVec3)
  {
    match r
    case Raw(v) => u == Real(v)
    case Scaled(v, dt) =>
      var k := -0.005 * dt as real;
      u == RVec3(k * v.x as real, k * v.y as real, k * v.z as real)
    case Opposed(v) =>
      if v == Vec3(0, 0, 0) then u == RVec3(0.0, 0.0, 0.0)
      else
        var w := Real(v);
        && u.y * w.z == u.z * w.y && u.z * w.x == u.x * w.z && u.x * w.y == u.y * w.x
        && u.x * w.x + u.y * w.y + u.z * w.z < 0.0
        && u.x * u.x + u.y * u.y + u.z * u.z == 1.0
  }

  /** A right Joy-Con lying flat: the accelerometer words (0, 0, 4096)
      leave the reading (0, 0, -1), and the gyroscope words (100, 0, 0) at a
      step of 1 leave (-0.5, 0, 0). */
  lemma DenotesExamples()
    ensures Denotes(Opposed(Vec3(0, 0, 4096)), RVec3(0.0, 0.0, -1.0))
    ensures !Denotes(Opposed(Vec3(0, 0, 4096)), RVec3(0.0, 0.0, 1.0))
    ensures Denotes(Scaled(Vec3(100, 0, 0), 1), RVec3(-0.5, 0.0, 0.0))
  {
  }

  datatype ImuState = ImuState(accel: Reading, gyro: Reading, basis: Basis, recenter: bool)

  /** A new driver: zero vectors, and the recenter flag raised. */
  const InitialImu := ImuState(Raw(Vec3(0, 0, 0)), Raw(Vec3(0, 0, 0)), Zero, true)

  /** The time step between two report timestamps, which count modulo 256. */
  function Dt(ts: int, last: int): int
  {
    if ts < last then ts - last + 0x100 else ts - last
  }

  /** For timestamps that are bytes, the step is their difference modulo
      256. */
  lemma DtIsModular(ts: byte, last: byte)
    ensures Dt(ts, last) == (ts - last) % 256
    ensures 0 <= Dt(ts, last) < 256
  {
  }

  /** A timestamp that wrapped past 255 still gives a small forward step. */
  lemma DtWrapExample()
    ensures Dt(0x05, 0xFE) == 7 && Dt(0xFE, 0x05) == 0xF9 && Dt(0x42, 0x42) == 0
  {
  }

  /** The left Joy-Con's sensor is mounted mirrored: its y and z axes are
      negated. */
  function Flip(v: Vec3, left: bool): (w: Vec3)
    ensures w.x == v.x
    ensures left ==> w.y == -v.y && w.z == -v.z
    ensures !left ==> w == v
  {
    if left then Vec3(v.x, -v.y, -v.z) else v
  }

  /** Flipping twice gives the reading back. */
  lemma FlipInvolution(v: Vec3, left: bool)
    ensures Flip(Flip(v, left), left) == v
  {
  }

  /** One sub-sample's effect on the body frame. */
  function Advance(b: Basis, dt: int): Basis
  {
    match b
    case Zero => Zero
    case Fused(steps) => Fused(steps + [dt])
  }

  /** One sub-sample: the flipped words are stored, and then either the
      recenter resets the body frame or the fusion advances it, changing
      the stored readings in place. */
  function SubSample(imu: ImuState, a: Vec3, g: Vec3, left: bool, dt: int): ImuState
  {
    if imu.recenter then ImuState(Raw(Flip(a, left)), Raw(Flip(g, left)), Identity, false)
    else ImuState(Opposed(Flip(a, left)), Scaled(Flip(g, left), dt), Advance(imu.basis, dt), false)
  }

  /** Sub-samples `n`, `n + 1`, ... 2 of a report, the first with time step
      `dt` and the rest with 1. The third sub-sample always goes through the
      fusion once an earlier one has run, so the readings left behind are
      its accelerometer words as a unit vector opposite them and its
      gyroscope words scaled by -0.005. */
  function SubSamples(imu: ImuState, buf: seq<byte>, left: bool, neutral: Vec3, n: nat, dt: int): (r: ImuState)
    requires n <= 3
    ensures !r.recenter || (n == 3 && r == imu)
    ensures var (a, g) := ImuSample(buf, 2, neutral);
            && (n < 2 ==> r.accel == Opposed(Flip(a, left)) && r.gyro == Scaled(Flip(g, left), 1))
            && (n == 2 && !imu.recenter ==> r.accel == Opposed(Flip(a, left)) && r.gyro == Scaled(Flip(g, left), dt))
            && (n == 2 && imu.recenter ==> r.accel == Raw(Flip(a, left)) && r.gyro == Raw(Flip(g, left)))
    decreases 3 - n
  {
    if n == 3 then imu
    else
      var (a, g) := ImuSample(buf, n, neutral);
      SubSamples(SubSample(imu, a, g, left, dt), buf, left, neutral, n + 1, 1)
  }

  /** `processIMU(buf, lastMessageTime)`: nothing happens (and -1 is
      returned) unless the IMU is enabled, data has arrived and the report
      is a 0x30 report; otherwise the three sub-samples are taken in order
      and the report's timestamp plus 2 is returned. */
  function ProcessImu(imu: ImuState, enableImu: bool, state: Attachment, left: bool, neutral: Vec3,
                      buf: Frame, last: int): (r: (ImuState, int))
    ensures !enableImu || state.Ord() < ImuDataOk.Ord() || buf[0] != 0x30 ==> r == (imu, -1)
    ensures enableImu && state == ImuDataOk && buf[0] == 0x30 ==>
              && r.1 == (buf[1] as int) + 2
              && !r.0.recenter
              && r.0.accel == Opposed(Flip(ImuSample(buf, 2, neutral).0, left))
              && r.0.gyro == Scaled(Flip(ImuSample(buf, 2, neutral).1, left), 1)
  {
    if !enableImu || state.Ord() < ImuDataOk.Ord() then (imu, -1)
    else if buf[0] != 0x30 then (imu, -1)
    else (SubSamples(imu, buf, left, neutral, 0, Dt(buf[1], last)), (buf[1] as int) + 2)
  }

  /** Recenter: the first sub-sample after a recenter resets the body frame
      to the identity and the two after it advance it by one step each;
      without a recenter, the frame advances by the report's time step and
      then by 1 twice. */
  lemma {:induction false} ProcessImuBasis(imu: ImuState, left: bool, neutral: Vec3, buf: Frame, last: int)
    requires buf[0] == 0x30
    ensures var r := ProcessImu(imu, true, ImuDataOk, left, neutral, buf, last).0;
            && (imu.recenter ==> r.basis == Fused([1, 1]))
            && (!imu.recenter && imu.basis.Fused? ==> r.basis == Fused(imu.basis.steps + [Dt(buf[1], last), 1, 1]))
            && (!imu.recenter && imu.basis.Zero? ==> r.basis == Zero)
  {
    var dt := Dt(buf[1], last);
    var s1 := SubSamples(imu, buf, left, neutral, 0, dt);
    var (a0, g0) := ImuSample(buf, 0, neutral);
    var i1 := SubSample(imu, a0, g0, left, dt);
    var (a1, g1) := ImuSample(buf, 1, neutral);
    var i2 := SubSample(i1, a1, g1, left, 1);
    var (a2, g2) := ImuSample(buf, 2, neutral);
    var i3 := SubSample(i2, a2, g2, left, 1);
    assert s1 == SubSamples(i1, buf, left, neutral, 1, 1);
    assert SubSamples(i1, buf, left, neutral, 1, 1) == SubSamples(i2, buf, left, neutral, 2, 1);
    assert SubSamples(i2, buf, left, neutral, 2, 1) == SubSamples(i3, buf, left, neutral, 3, 1) == i3;
    if !imu.recenter && imu.basis.Fused? {
      assert imu.basis.steps + [dt] + [1] + [1] == imu.basis.steps + [dt, 1, 1];
    }
  }

  /** The value handed back to the drain loop is the timestamp plus 2, so
      when the next report's timestamp is one more, its time step is 255
      rather than 1. */
  lemma NextStepAfterConsecutiveReports(ts: byte)
    requires ts < 255
    ensures Dt(ts + 1, ts + 2) == 255
  {
  }
}
