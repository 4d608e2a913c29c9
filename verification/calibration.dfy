/** Calibration decoding of `joycon_from_cs.ts`: the nine-byte stick block,
    the choice between user and factory blocks, the deadzone, the gyro
    neutral point, and the centring of a raw stick sample. */
module Calibration {
  import opened Js
  import opened Bits

  /** Stick calibration in the driver's layout: indices 0/1 hold the x/y
      distance above centre, 2/3 the x/y centre, 4/5 the x/y distance below
      centre. */
  type StickCal = s: seq<int> | |s| == 6 witness [0, 0, 0, 0, 0, 0]

  /** The three 12-bit pairs stored in the nine bytes of a stick block. */
  function Triples(b: seq<byte>): (t: seq<Pair12>)
    ensures |t| == 3
  {
    [Unpack12(At(b, 0), At(b, 1), At(b, 2)),
     Unpack12(At(b, 3), At(b, 4), At(b, 5)),
     Unpack12(At(b, 6), At(b, 7), At(b, 8))]
  }

  /** The six values of a stick block in the order of the block. */
  function Flatten(t: seq<Pair12>): (s: seq<int>)
    requires |t| == 3
    ensures |s| == 6
  {
    [t[0].x, t[0].y, t[1].x, t[1].y, t[2].x, t[2].y]
  }

  /** `getCalibration`'s stick array. The left stick stores (above, centre,
      below) and the right stick (centre, below, above), so the left block
      is taken in order and the right block is rotated by two values so that
      both land in the driver's layout. */
  function StickCalOf(b: seq<byte>, left: bool): (cal: StickCal)
    ensures forall i :: 0 <= i < 6 ==> Is12(cal[i])
    ensures left ==> cal == Flatten(Triples(b))
    ensures !left ==> cal[2..] == Flatten(Triples(b))[..4] && cal[..2] == Flatten(Triples(b))[4..]
  {
    var t := Triples(b);
    if left then Flatten(t)
    else [t[2].x, t[2].y, t[0].x, t[0].y, t[1].x, t[1].y]
  }

  /** The nine bytes of a stick block holding six 12-bit values in block
      order. */
  function EncodeStickBlock(v: seq<int>): (b: seq<byte>)
    requires |v| == 6 && forall i :: 0 <= i < 6 ==> Is12(v[i])
    ensures |b| == 9
  {
    Pack12(v[0], v[1]) + Pack12(v[2], v[3]) + Pack12(v[4], v[5])
  }

  /** Decoding an encoded block gives back the six values (left order). */
  lemma StickBlockRoundTrip(v: seq<int>)
    requires |v| == 6 && forall i :: 0 <= i < 6 ==> Is12(v[i])
    ensures StickCalOf(EncodeStickBlock(v), true) == v
  {
    var b := EncodeStickBlock(v);
    var p0, p1, p2 := Pack12(v[0], v[1]), Pack12(v[2], v[3]), Pack12(v[4], v[5]);
    assert b == (p0 + p1) + p2 && |p0 + p1| == 6;
    assert b[0] == p0[0] && b[1] == p0[1] && b[2] == p0[2];
    assert b[3] == p1[0] && b[4] == p1[1] && b[5] == p1[2];
    assert b[6] == p2[0] && b[7] == p2[1] && b[8] == p2[2];
    assert Triples(b) == [Pair12(v[0], v[1]), Pair12(v[2], v[3]), Pair12(v[4], v[5])];
  }

  /** Encoding the decoded values gives back any nine-byte block. */
  lemma StickBlockEncodeDecode(b: seq<byte>)
    requires |b| == 9
    ensures EncodeStickBlock(Flatten(Triples(b))) == b
  {
    PackUnpack(b[0], b[1], b[2]);
    PackUnpack(b[3], b[4], b[5]);
    PackUnpack(b[6], b[7], b[8]);
    assert b == b[0..3] + b[3..6] + b[6..9];
  }

  /** A right stick's array is the left reading of the same block rotated by
      four: what the left layout calls "below" holds the right stick's
      "above". */
  lemma RightIsRotatedLeft(b: seq<byte>)
    ensures StickCalOf(b, false) == StickCalOf(b, true)[4..] + StickCalOf(b, true)[..4]
  {
  }

  /** A block that was never written: its nine bytes all read 0xFF. A
      missing byte is `undefined`, which differs from 0xFF. */
  predicate IsBlank(b: seq<byte>)
  {
    forall i :: 0 <= i < 9 ==> ElementIs(b, i, 0xFF)
  }

  /** The scan over the user block: it stops at the first byte that is not
      0xFF and reports whether there was one. */
  method HasUserStickData(b: seq<byte>) returns (found: bool, scanned: nat)
    ensures found <==> !IsBlank(b)
    ensures found ==> scanned < 9 && !ElementIs(b, scanned, 0xFF)
    ensures forall i :: 0 <= i < scanned ==> ElementIs(b, i, 0xFF)
    ensures !found ==> scanned == 9
  {
    found := false;
    var i := 0;
    while i < 9
      invariant 0 <= i <= 9
      invariant forall j :: 0 <= j < i ==> ElementIs(b, j, 0xFF)
    {
      if !ElementIs(b, i, 0xFF) {
        found := true;
        scanned := i;
        return;
      }
      i := i + 1;
    }
    scanned := i;
  }

  /** The block the stick calibration is decoded from: the user block unless
      it is blank. */
  function SelectStickBlock(user: seq<byte>, factory: seq<byte>): (b: seq<byte>)
    ensures b == user <==> !IsBlank(user) || user == factory
    ensures b == factory <==> IsBlank(user) || user == factory
  {
    if IsBlank(user) then factory else user
  }

  /** The stick deadzone: a 12-bit value at offsets 3..4 of its block. */
  function Deadzone(b: seq<byte>): (dz: int)
    ensures Is12(dz)
    ensures dz % 256 == At(b, 3) && dz / 256 == At(b, 4) % 16
  {
    Low12(At(b, 3), At(b, 4))
  }

  function Abs(x: int): nat { if x < 0 then -x else x }

  /** The user gyro neutral point is discarded when its three values sum to
      -3 or any of them exceeds 100 in magnitude. */
  predicate GyroNeutralImplausible(g: Vec3)
  {
    g.x + g.y + g.z == -3 || Abs(g.x) > 100 || Abs(g.y) > 100 || Abs(g.z) > 100
  }

  /** The gyro neutral point: the user block's words 0..2, or, when those are
      implausible, the factory block's words at bytes 3..8. */
  function GyroNeutral(user: seq<byte>, factory: seq<byte>): (g: Vec3)
    ensures VecInRange(g)
    ensures !GyroNeutralImplausible(Int16Vec(user, 0)) ==> g == Int16Vec(user, 0)
    ensures GyroNeutralImplausible(Int16Vec(user, 0)) ==> g == Int16Vec(factory, 3)
  {
    var u := Int16Vec(user, 0);
    if GyroNeutralImplausible(u) then Int16Vec(factory, 3) else u
  }

  /** A user neutral point that is accepted lies within 100 of zero on every
      axis. */
  lemma AcceptedUserGyroIsSmall(user: seq<byte>, factory: seq<byte>)
    requires !GyroNeutralImplausible(Int16Vec(user, 0))
    ensures var g := GyroNeutral(user, factory);
            -100 <= g.x <= 100 && -100 <= g.y <= 100 && -100 <= g.z <= 100
  {
  }

  /** A blank user block (all bytes 0xFF) reads as (-1, -1, -1), which sums to
      -3 and so falls back to the factory block. */
  lemma BlankUserGyroFallsBack(user: seq<byte>, factory: seq<byte>)
    requires |user| >= 6 && forall i :: 0 <= i < 6 ==> user[i] == 0xFF
    ensures Int16Vec(user, 0) == Vec3(-1, -1, -1)
    ensures GyroNeutral(user, factory) == Int16Vec(factory, 3)
  {
  }

  // ---------------------------------------------------------------------
  // Centring
  // ---------------------------------------------------------------------

  /** A JavaScript number produced by dividing two integers. */
  datatype Num = Finite(v: real) | PosInf | NegInf | NaN

  /** `n / d` in JavaScript for integers; a zero divisor is +0 here. */
  function Divide(n: int, d: int): (q: Num)
    ensures d != 0 ==> q.Finite? && q.v * d as real == n as real
    ensures d == 0 ==> (q == PosInf <==> n > 0) && (q == NegInf <==> n < 0) && (q == NaN <==> n == 0)
  {
    if d != 0 then Finite(n as real / d as real)
    else if n > 0 then PosInf
    else if n < 0 then NegInf
    else NaN
  }

  /** One axis of `centerSticks`: zero inside the deadzone, otherwise the
      offset from centre divided by the distance above (for a positive
      offset) or below (otherwise). A zero distance, as an all-zero block
      decodes to, gives an infinity of the offset's sign, or NaN on the
      centre. */
  function CenterAxis(raw: int, center: int, above: int, below: int, deadzone: int): (s: Num)
    ensures Abs(raw - center) < deadzone ==> s == Finite(0.0)
    ensures Abs(raw - center) >= deadzone && raw > center && above != 0 ==>
              s.Finite? && center as real + s.v * above as real == raw as real
    ensures Abs(raw - center) >= deadzone && raw > center && above > 0 ==> s.Finite? && s.v > 0.0
    ensures Abs(raw - center) >= deadzone && raw <= center && below != 0 ==>
              s.Finite? && center as real + s.v * below as real == raw as real
    ensures Abs(raw - center) >= deadzone && raw <= center && below > 0 ==> s.Finite? && s.v <= 0.0
    ensures Abs(raw - center) >= deadzone && raw > center && above == 0 ==> s == PosInf
    ensures Abs(raw - center) >= deadzone && raw < center && below == 0 ==> s == NegInf
    ensures Abs(raw - center) >= deadzone && raw == center && below == 0 ==> s == NaN
  {
    var diff := raw - center;
    if Abs(diff) < deadzone then Finite(0.0)
    else if diff > 0 then Divide(diff, above)
    else Divide(diff, below)
  }

  /** `centerSticks`: each axis is centred on its own calibration entries. */
  function CenterSticks(raw: Pair12, cal: StickCal, deadzone: int): (s: (Num, Num))
    ensures s.0 == CenterAxis(raw.x, cal[2], cal[0], cal[4], deadzone)
    ensures s.1 == CenterAxis(raw.y, cal[3], cal[1], cal[5], deadzone)
  {
    (CenterAxis(raw.x, cal[2], cal[0], cal[4], deadzone),
     CenterAxis(raw.y, cal[3], cal[1], cal[5], deadzone))
  }

  /** With positive calibration distances, an axis is zero exactly when the
      sample is inside the deadzone or on the centre, and its sign follows
      the offset. */
  lemma CenterAxisZeroIff(raw: int, center: int, above: int, below: int, deadzone: int)
    requires above > 0 && below > 0
    ensures (CenterAxis(raw, center, above, below, deadzone) == Finite(0.0))
              == (Abs(raw - center) < deadzone || raw == center)
    ensures CenterAxis(raw, center, above, below, deadzone).Finite?
  {
  }

  /** No clamping: outside the calibrated range the magnitude exceeds one,
      and within it the magnitude is at most one. */
  lemma CenterAxisMagnitude(raw: int, center: int, above: int, below: int, deadzone: int)
    requires above > 0 && below > 0 && Abs(raw - center) >= deadzone
    ensures var s := CenterAxis(raw, center, above, below, deadzone);
            s.Finite? && (-1.0 <= s.v <= 1.0 <==> center - below <= raw <= center + above)
  {
    var s := CenterAxis(raw, center, above, below, deadzone);
    if raw > center {
      UnitIff(s.v, above as real, (raw - center) as real);
    } else {
      UnitIff(s.v, below as real, (raw - center) as real);
    }
  }

  /** A quotient lies in [-1, 1] exactly when its dividend lies within the
      (positive) divisor of zero. */
  lemma UnitIff(v: real, d: real, x: real)
    requires d > 0.0 && v * d == x
    ensures -1.0 <= v <= 1.0 <==> -d <= x <= d
  {
    if -1.0 <= v <= 1.0 {
      ScaleBounds(v, d);
    } else {
      ScaleOutside(v, d);
    }
  }

  lemma ScaleBounds(v: real, d: real)
    requires d > 0.0 && -1.0 <= v <= 1.0
    ensures -d <= v * d <= d
  {
  }

  lemma ScaleOutside(v: real, d: real)
    requires d > 0.0 && !(-1.0 <= v <= 1.0)
    ensures v * d < -d || v * d > d
  {
    if v < -1.0 {
      assert (v + 1.0) * d < 0.0;
    } else {
      assert (v - 1.0) * d > 0.0;
    }
  }

  /** One axis depends only on its own sample and calibration entries. */
  lemma CenterSticksAxesIndependent(raw: Pair12, raw': Pair12, cal: StickCal, cal': StickCal, deadzone: int)
    requires raw.x == raw'.x && cal[0] == cal'[0] && cal[2] == cal'[2] && cal[4] == cal'[4]
    ensures CenterSticks(raw, cal, deadzone).0 == CenterSticks(raw', cal', deadzone).0
  {
  }

  /** Centre 2048, distances 500 and deadzone 50; then zero distances,
      where a sample off the centre is infinite and the centre itself is
      NaN. */
  lemma CenterAxisExamples()
    ensures CenterAxis(2048, 2048, 500, 500, 50) == Finite(0.0)
    ensures CenterAxis(2088, 2048, 500, 500, 50) == Finite(0.0)
    ensures CenterAxis(2148, 2048, 500, 500, 50) == Finite(0.2)
    ensures CenterAxis(1948, 2048, 500, 500, 50) == Finite(-0.2)
    ensures CenterAxis(100, 0, 0, 0, 0) == PosInf && CenterAxis(0, 0, 0, 0, 0) == NaN
  {
  }
}
