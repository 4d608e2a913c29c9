/** Input-report decoding of `joycon_from_cs.ts`: the handedness-dependent
    button table, the three-byte stick sample, and the raw accelerometer and
    gyroscope words of the three sub-samples in a 0x30 report. */
module Reports {
  import opened Js
  import opened Bits
  import opened Calibration

  datatype Button =
    | DpadDown | DpadRight | DpadLeft | DpadUp | SL | SR
    | Minus | Home | Plus | Capture | Stick | Shoulder1 | Shoulder2

  /** The byte holding the d-pad, shoulder, SL and SR bits. */
  function SideByte(left: bool): nat { 3 + (if left then 2 else 0) }

  /** Where `parseButtons` reads each button. Capture is not read. */
  function ButtonTable(left: bool): (t: map<Button, BitRef>)
    ensures t.Keys == {DpadDown, DpadRight, DpadLeft, DpadUp, SL, SR, Minus, Home, Plus, Stick, Shoulder1, Shoulder2}
    ensures forall b :: b in t && b in {Home, Minus, Plus, Stick} ==> t[b].offset == 4
    ensures forall b :: b in t && b !in {Home, Minus, Plus, Stick} ==> t[b].offset == SideByte(left)
  {
    var side := SideByte(left);
    map[
      DpadDown := Ref(side, if left then 0x01 else 0x04),
      DpadRight := Ref(side, if left then 0x04 else 0x08),
      DpadUp := Ref(side, 0x02),
      DpadLeft := Ref(side, if left then 0x08 else 0x01),
      Home := Ref(4, 0x10),
      Minus := Ref(4, 0x01),
      Plus := Ref(4, 0x02),
      Stick := Ref(4, if left then 0x08 else 0x04),
      Shoulder1 := Ref(side, 0x40),
      Shoulder2 := Ref(side, 0x80),
      SR := Ref(side, 0x10),
      SL := Ref(side, 0x20)]
  }

  /** The button a bit of a report belongs to, if any: the reverse lookup of
      ButtonTable. */
  function ButtonOwner(left: bool, r: BitRef): Option<Button>
  {
    var side := SideByte(left);
    if r.offset == 4 then
      if r.bit == 4 then Some(Home)
      else if r.bit == 0 then Some(Minus)
      else if r.bit == 1 then Some(Plus)
      else if r.bit == (if left then 3 else 2) then Some(Stick)
      else None
    else if r.offset == side then
      if r.bit == 6 then Some(Shoulder1)
      else if r.bit == 7 then Some(Shoulder2)
      else if r.bit == 4 then Some(SR)
      else if r.bit == 5 then Some(SL)
      else if r.bit == 1 then Some(DpadUp)
      else if left then
        if r.bit == 0 then Some(DpadDown) else if r.bit == 2 then Some(DpadRight)
        else if r.bit == 3 then Some(DpadLeft) else None
      else
        if r.bit == 2 then Some(DpadDown) else if r.bit == 3 then Some(DpadRight)
        else if r.bit == 0 then Some(DpadLeft) else None
    else None
  }

  /** No two buttons share a bit, for either hand: every button's bit leads
      back to that button. */
  lemma ButtonTableWellFormed(left: bool)
    ensures WellFormed(ButtonTable(left))
    ensures forall b :: b in ButtonTable(left) ==> ButtonOwner(left, ButtonTable(left)[b]) == Some(b)
  {
    var t := ButtonTable(left);
    forall b | b in t
      ensures ButtonOwner(left, t[b]) == Some(b)
    {
    }
    WellFormedByOwner(t, r => ButtonOwner(left, r));
  }

  /** `parseButtons`: a report whose id byte is 0 is rejected; otherwise each
      button is its bit in the table. */
  function ParseButtons(buf: Frame, left: bool): (r: Outcome<map<Button, bool>>)
    ensures r.Threw? <==> buf[0] == 0
    ensures r.Returned? ==> r.value.Keys == ButtonTable(left).Keys
    ensures r.Returned? ==> forall b :: b in r.value ==> r.value[b] == IsSet(buf, ButtonTable(left)[b])
  {
    if buf[0] == 0 then Threw else Returned(Decode(ButtonTable(left), buf))
  }

  /** Pressing a button in a report makes exactly that button read as
      pressed; the others keep their state. */
  lemma ParseButtonsPress(buf: Frame, left: bool, b: Button)
    requires buf[0] != 0 && b != Capture && ButtonTable(left)[b].offset < |buf|
    ensures var buf' := Press(buf, ButtonTable(left)[b]);
            |buf'| >= 2 && buf'[0] != 0 &&
            ParseButtons(buf', left) == Returned(ParseButtons(buf, left).value[b := true])
  {
    ButtonTableWellFormed(left);
    DecodePress(ButtonTable(left), buf, b);
  }

  /** Releasing a button in a report makes exactly that button read as
      released; the others keep their state. */
  lemma ParseButtonsRelease(buf: Frame, left: bool, b: Button)
    requires buf[0] != 0 && b != Capture && ButtonTable(left)[b].offset < |buf|
    ensures var buf' := Release(buf, ButtonTable(left)[b]);
            |buf'| >= 2 && buf'[0] != 0 &&
            ParseButtons(buf', left) == Returned(ParseButtons(buf, left).value[b := false])
  {
    ButtonTableWellFormed(left);
    DecodeRelease(ButtonTable(left), buf, b);
  }

  /** The first of the three stick bytes. */
  function StickOffset(left: bool): nat { 6 + (if left then 0 else 3) }

  /** The raw 12-bit stick sample of a report. */
  function RawStick(buf: seq<byte>, left: bool): (p: Pair12)
    ensures Is12(p.x) && Is12(p.y)
  {
    var o := StickOffset(left);
    Unpack12(At(buf, o), At(buf, o + 1), At(buf, o + 2))
  }

  /** A report carrying the stick bytes of a sample. */
  function WithStick(buf: seq<byte>, left: bool, x: int, y: int): (buf': seq<byte>)
    requires Is12(x) && Is12(y) && StickOffset(left) + 3 <= |buf|
    ensures |buf'| == |buf|
    ensures forall i :: 0 <= i < |buf| && !(StickOffset(left) <= i < StickOffset(left) + 3) ==> buf'[i] == buf[i]
  {
    var o := StickOffset(left);
    var bs := Pack12(x, y);
    buf[o := bs[0]][o + 1 := bs[1]][o + 2 := bs[2]]
  }

  /** The stick bytes written by WithStick read back as the sample. */
  lemma RawStickRoundTrip(buf: seq<byte>, left: bool, x: int, y: int)
    requires Is12(x) && Is12(y) && StickOffset(left) + 3 <= |buf|
    ensures RawStick(WithStick(buf, left, x, y), left) == Pair12(x, y)
  {
  }

  /** `parseStick`: a report whose id byte is 0 is rejected; otherwise the
      raw sample at the hand's offset is centred against the calibration. */
  function ParseStick(buf: Frame, left: bool, cal: StickCal, deadzone: int): (r: Outcome<(Num, Num)>)
    ensures r.Threw? <==> buf[0] == 0
    ensures r.Returned? ==> r.value == CenterSticks(RawStick(buf, left), cal, deadzone)
  {
    if buf[0] == 0 then Threw else Returned(CenterSticks(RawStick(buf, left), cal, deadzone))
  }

  /** The stick of one hand does not depend on the other hand's bytes. */
  lemma ParseStickReadsOwnBytes(buf: Frame, buf': Frame, left: bool, cal: StickCal, deadzone: int)
    requires buf[0] == buf'[0]
    requires forall i :: StickOffset(left) <= i < StickOffset(left) + 3 ==> At(buf, i) == At(buf', i)
    ensures ParseStick(buf, left, cal, deadzone) == ParseStick(buf', left, cal, deadzone)
  {
    var o := StickOffset(left);
    assert At(buf, o) == At(buf', o) && At(buf, o + 1) == At(buf', o + 1) && At(buf, o + 2) == At(buf', o + 2);
  }

  // ---------------------------------------------------------------------
  // IMU sub-samples
  // ---------------------------------------------------------------------

  function AccelStart(n: nat): nat { 13 + 12 * n }
  function GyroStart(n: nat): nat { 19 + 12 * n }

  /** The integer part of `extractIMUValues` for sub-sample `n`: the raw
      accelerometer words, and the raw gyroscope words minus the neutral
      point. The fixed scale factors are not modelled. */
  function ImuSample(buf: seq<byte>, n: nat, neutral: Vec3): (s: (Vec3, Vec3))
    ensures s.0 == Int16Vec(buf, AccelStart(n))
    ensures var g := Int16Vec(buf, GyroStart(n));
            s.1 == Vec3(g.x - neutral.x, g.y - neutral.y, g.z - neutral.z)
  {
    var g := Int16Vec(buf, GyroStart(n));
    (Int16Vec(buf, AccelStart(n)), Vec3(g.x - neutral.x, g.y - neutral.y, g.z - neutral.z))
  }

  /** A buffer with a signed word stored at `start`. */
  function WithInt16(buf: seq<byte>, start: nat, v: int): (buf': seq<byte>)
    requires start + 2 <= |buf| && InDriverInt16Range(v)
    ensures |buf'| == |buf|
    ensures forall i :: 0 <= i < |buf| && i != start && i != start + 1 ==> buf'[i] == buf[i]
    ensures Int16LE(buf'[start], buf'[start + 1]) == v
  {
    var e := EncodeInt16LE(v);
    buf[start := e[0]][start + 1 := e[1]]
  }

  /** A buffer with a vector of three signed words stored at `start`. */
  function WithVec(buf: seq<byte>, start: nat, v: Vec3): (buf': seq<byte>)
    requires start + 6 <= |buf| && VecInRange(v)
    ensures |buf'| == |buf|
    ensures forall i :: 0 <= i < |buf| && !(start <= i < start + 6) ==> buf'[i] == buf[i]
    ensures Int16Vec(buf', start) == v
  {
    var b1 := WithInt16(buf, start, v.x);
    var b2 := WithInt16(b1, start + 2, v.y);
    WithInt16(b2, start + 4, v.z)
  }

  /** Storing raw accelerometer and gyroscope words as sub-sample `n` and
      extracting sub-sample `n` gives them back (with the neutral point
      subtracted from the gyroscope), and leaves the other two sub-samples
      as they were. */
  lemma ImuSampleRoundTrip(buf: seq<byte>, n: nat, m: nat, accel: Vec3, gyro: Vec3, neutral: Vec3)
    requires n < 3 && m < 3 && |buf| >= 49 && VecInRange(accel) && VecInRange(gyro)
    ensures var buf' := WithVec(WithVec(buf, AccelStart(n), accel), GyroStart(n), gyro);
            && ImuSample(buf', n, neutral)
               == (accel, Vec3(gyro.x - neutral.x, gyro.y - neutral.y, gyro.z - neutral.z))
            && (m != n ==> ImuSample(buf', m, neutral) == ImuSample(buf, m, neutral))
  {
    var b1 := WithVec(buf, AccelStart(n), accel);
    var buf' := WithVec(b1, GyroStart(n), gyro);
    assert Int16Vec(buf', AccelStart(n)) == Int16Vec(b1, AccelStart(n)) by {
      forall i | AccelStart(n) <= i < AccelStart(n) + 6
        ensures At(buf', i) == At(b1, i)
      {
      }
    }
    if m != n {
      forall i | AccelStart(m) <= i < AccelStart(m) + 12
        ensures At(buf', i) == At(buf, i)
      {
      }
      assert Int16Vec(buf', AccelStart(m)) == Int16Vec(buf, AccelStart(m));
      assert Int16Vec(buf', GyroStart(m)) == Int16Vec(buf, GyroStart(m));
    }
  }
}
