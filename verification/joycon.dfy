/** The second, partly finished driver, `joy-con.ts`: device matching, its
    own packet framing with a pre-incremented counter, the factory stick
    calibration with explicit minimum and maximum, the sensor calibration
    words, and the integer parts of its two input-report decoders. Where it
    decodes the same kind of block or report as `joycon_from_cs.ts`, lemmas
    show what the two decoders make of the same bytes. Its `spiRead` does
    not return flash data, so the decoders here take the block as an
    input. */
module JoyCon {
  import opened Js
  import opened Bits
  import opened Calibration
  import Reports
  import Channel
  import Driver

  // ---------------------------------------------------------------------
  // Device matching
  // ---------------------------------------------------------------------

  /** A HID device as listed by the transport. */
  datatype Device = Device(vendorId: int, productId: int)

  predicate IsController(productId: int)
  {
    productId in {Channel.ProductLeft, Channel.ProductRight, Channel.ProductPro}
  }

  /** `isJoyCon`: a Nintendo device with one of the three controller
      product ids. */
  predicate IsJoyCon(d: Device)
  {
    d.vendorId == Channel.VendorNintendo && IsController(d.productId)
  }

  /** `getAllJoyCons`: the controllers among the listed devices, in list
      order, each as often as it is listed. */
  function AllJoyCons(devices: seq<Device>): (r: seq<Device>)
    ensures |r| <= |devices|
    ensures forall d :: d in r <==> d in devices && IsJoyCon(d)
    ensures forall d :: multiset(r)[d] == if IsJoyCon(d) then multiset(devices)[d] else 0
    decreases |devices|
  {
    if |devices| == 0 then []
    else
      var rest := AllJoyCons(devices[..|devices| - 1]);
      var d := devices[|devices| - 1];
      assert devices == devices[..|devices| - 1] + [d];
      if IsJoyCon(d) then rest + [d] else rest
  }

  /** A list of controllers passes the filter unchanged. */
  lemma {:induction false} ControllersPass(devices: seq<Device>)
    requires forall i :: 0 <= i < |devices| ==> IsJoyCon(devices[i])
    ensures AllJoyCons(devices) == devices
    decreases |devices|
  {
    if |devices| > 0 {
      var init := devices[..|devices| - 1];
      assert forall i :: 0 <= i < |init| ==> init[i] == devices[i];
      ControllersPass(init);
      assert devices == init + [devices[|devices| - 1]];
    }
  }

  /** The order is the list's: filtering a concatenation filters each part
      and keeps the parts in order. With LastStep, which keeps a single
      device exactly when it is a controller, this fixes the result. */
  lemma {:induction false} AllJoyConsAppend(a: seq<Device>, b: seq<Device>)
    ensures AllJoyCons(a + b) == AllJoyCons(a) + AllJoyCons(b)
    decreases |b|
  {
    if |b| == 0 {
      assert a + b == a;
    } else {
      var init, d := b[..|b| - 1], b[|b| - 1];
      var ab := a + b;
      assert ab[..|ab| - 1] == a + init && ab[|ab| - 1] == d;
      LastStep(ab);
      LastStep(b);
      AllJoyConsAppend(a, init);
    }
  }

  /** One step of the filter: the last device is kept exactly when it is a
      controller. */
  lemma LastStep(devices: seq<Device>)
    requires |devices| > 0
    ensures var d := devices[|devices| - 1];
            AllJoyCons(devices) == AllJoyCons(devices[..|devices| - 1]) + (if IsJoyCon(d) then [d] else [])
  {
  }

  /** Filtering twice is filtering once. */
  lemma AllJoyConsIdempotent(devices: seq<Device>)
    ensures AllJoyCons(AllJoyCons(devices)) == AllJoyCons(devices)
  {
    var r := AllJoyCons(devices);
    assert forall i :: 0 <= i < |r| ==> r[i] in r;
    ControllersPass(r);
  }

  // ---------------------------------------------------------------------
  // Packet framing
  // ---------------------------------------------------------------------

  /** The write side of the HID handle: the global packet number and every
      packet written so far. */
  datatype Hid = Hid(packetNumber: nat, written: seq<seq<int>>)

  const Fresh := Hid(0, [])

  /** `send(data)`: the packet number advances first (modulo 16) and goes
      into byte 1 of a copy of the data; nothing else of the data changes.
      The only caller passes 64 bytes. */
  function Send(h: Hid, data: seq<int>): (h': Hid)
    requires |data| >= 2
    ensures h'.packetNumber == (h.packetNumber + 1) % 16
    ensures |h'.written| == |h.written| + 1 && h'.written[..|h.written|] == h.written
    ensures var p := h'.written[|h.written|];
            |p| == |data| && p[1] == h'.packetNumber
            && forall i :: 0 <= i < |data| && i != 1 ==> p[i] == data[i]
  {
    var n := (h.packetNumber + 1) % 16;
    Hid(n, h.written + [data[1 := n]])
  }

  /** Several sends in a row. */
  function SendAll(h: Hid, packets: seq<seq<int>>): (h': Hid)
    requires forall i :: 0 <= i < |packets| ==> |packets[i]| >= 2
    decreases |packets|
  {
    if |packets| == 0 then h
    else Send(SendAll(h, packets[..|packets| - 1]), packets[|packets| - 1])
  }

  /** From a fresh handle, packet `k` carries `(k + 1) % 16`: the first
      carries 1, and every number lies in 0..15. */
  lemma {:induction false} SendNumbering(packets: seq<seq<int>>)
    requires forall i :: 0 <= i < |packets| ==> |packets[i]| >= 2
    ensures var h := SendAll(Fresh, packets);
            && |h.written| == |packets|
            && h.packetNumber == |packets| % 16
            && forall k :: 0 <= k < |packets| ==> |h.written[k]| >= 2 && h.written[k][1] == (k + 1) % 16
    decreases |packets|
  {
    if |packets| > 0 {
      SendNumbering(packets[..|packets| - 1]);
    }
  }

  /** The other driver numbers from 0: packet `k` of `joy-con.ts` carries the
      number `joycon_from_cs.ts` gives its packet `k + 1`. */
  lemma NumberingIsOneAhead(packets: seq<seq<int>>, k: nat)
    requires forall i :: 0 <= i < |packets| ==> |packets[i]| >= 2
    requires k < |packets|
    ensures |SendAll(Fresh, packets).written| == |packets|
    ensures |SendAll(Fresh, packets).written[k]| >= 2
    ensures SendAll(Fresh, packets).written[k][1] == Channel.AdvanceCounter(0, k + 1)
  {
    SendNumbering(packets);
    Channel.AdvanceCounterMod(0, k + 1);
  }

  /** The 64-byte subcommand frame before numbering. */
  function SubcommandFrame(subcommand: int, value: int): (p: seq<int>)
    ensures |p| == 64
  {
    seq(64, i => if i == 0 then 1 else if i == 10 then subcommand else if i == 11 then value else 0)
  }

  /** `sendSubcommand(subcommand, value)`. */
  function SendSubcommand(h: Hid, subcommand: int, value: int): (h': Hid)
    ensures h' == Send(h, SubcommandFrame(subcommand, value))
  {
    Send(h, SubcommandFrame(subcommand, value))
  }

  /** A packet as the controller reads it: the packet number, the
      subcommand and its value, provided the frame has the subcommand
      layout (64 bytes, type 1, zeros elsewhere). */
  function ParseSubcommand(p: seq<int>): (r: Option<(int, int, int)>)
    ensures r.Some? ==> |p| == 64 && p[0] == 1 && r.value == (p[1], p[10], p[11])
  {
    if |p| == 64 && p[0] == 1 && forall i :: 2 <= i < 64 && i != 10 && i != 11 ==> p[i] == 0
    then Some((p[1], p[10], p[11]))
    else None
  }

  /** A sent subcommand parses back to its packet number, subcommand and
      value, and a packet that parses is exactly the frame of what it parses
      to. */
  lemma SubcommandRoundTrip(h: Hid, subcommand: int, value: int, p: seq<int>)
    ensures var h' := SendSubcommand(h, subcommand, value);
            ParseSubcommand(h'.written[|h.written|]) == Some((h'.packetNumber, subcommand, value))
    ensures ParseSubcommand(p).Some? ==>
              var (n, s, v) := ParseSubcommand(p).value;
              p == SubcommandFrame(s, v)[1 := n]
  {
    if ParseSubcommand(p).Some? {
      var (n, s, v) := ParseSubcommand(p).value;
      assert forall i :: 0 <= i < 64 ==> p[i] == SubcommandFrame(s, v)[1 := n][i];
    }
  }

  /** A packet that parses as the given subcommand and value. */
  predicate Carries(p: seq<int>, command: (int, int))
  {
    ParseSubcommand(p).Some? && ParseSubcommand(p).value.1 == command.0 && ParseSubcommand(p).value.2 == command.1
  }

  /** A list of subcommands, each with its value. */
  function SendSubcommands(h: Hid, commands: seq<(int, int)>): (h': Hid)
    ensures |h'.written| == |h.written| + |commands| && h'.written[..|h.written|] == h.written
    ensures forall i :: 0 <= i < |commands| ==> Carries(h'.written[|h.written| + i], commands[i])
    decreases |commands|
  {
    if |commands| == 0 then h
    else
      var n := |commands| - 1;
      var h1 := SendSubcommands(h, commands[..n]);
      var h2 := SendSubcommand(h1, commands[n].0, commands[n].1);
      assert forall i :: 0 <= i < n ==> commands[..n][i] == commands[i];
      SubcommandsStep(h, h1, h2, commands);
      h2
  }

  /** The last step of SendSubcommands. */
  lemma SubcommandsStep(h: Hid, h1: Hid, h2: Hid, commands: seq<(int, int)>)
    requires |commands| > 0
    requires |h1.written| == |h.written| + |commands| - 1 && h1.written[..|h.written|] == h.written
    requires forall i :: 0 <= i < |commands| - 1 ==> Carries(h1.written[|h.written| + i], commands[i])
    requires h2 == SendSubcommand(h1, commands[|commands| - 1].0, commands[|commands| - 1].1)
    ensures |h2.written| == |h.written| + |commands| && h2.written[..|h.written|] == h.written
    ensures forall i :: 0 <= i < |commands| ==> Carries(h2.written[|h.written| + i], commands[i])
  {
    var n := |commands| - 1;
    SubcommandRoundTrip(h1, commands[n].0, commands[n].1, []);
    SendKeepsWritten(h, h1, h2);
    forall i | 0 <= i < |commands|
      ensures Carries(h2.written[|h.written| + i], commands[i])
    {
      if i < n {
        assert h2.written[|h.written| + i] == h1.written[|h.written| + i];
      }
    }
  }

  /** A send keeps what was written before it. */
  lemma SendKeepsWritten(h: Hid, h1: Hid, h2: Hid)
    requires |h1.written| >= |h.written| && h1.written[..|h.written|] == h.written
    requires |h2.written| > |h1.written| && h2.written[..|h1.written|] == h1.written
    ensures h2.written[..|h.written|] == h.written
    ensures forall i :: |h.written| <= i < |h1.written| ==> h2.written[i] == h1.written[i]
  {
    forall i | |h.written| <= i < |h1.written|
      ensures h2.written[i] == h1.written[i]
    {
      assert h2.written[..|h1.written|][i] == h2.written[i];
    }
    assert h2.written[..|h.written|] == h2.written[..|h1.written|][..|h.written|];
  }

  /** What the constructor sends: enable vibration, enable the IMU, switch
      to the full 0x30 report mode. */
  const OpenCommands: seq<(int, int)> :=
    [(Channel.EnableVibration, 1), (Channel.EnableImu, 1), (Channel.SetInputReportMode, 0x30)]

  /** What `close` sends before closing the handle: LEDs off, IMU off,
      vibration off. */
  const CloseCommands: seq<(int, int)> :=
    [(Channel.SetLed, 0), (Channel.EnableImu, 0), (Channel.EnableVibration, 0)]

  /** Closing undoes what opening switched on: every feature the
      constructor enables with 1 is sent 0 on close. */
  lemma CloseUndoesOpen()
    ensures forall i :: 0 <= i < |OpenCommands| && OpenCommands[i].1 == 1 ==>
              (OpenCommands[i].0, 0) in CloseCommands
  {
    assert CloseCommands[2] == (OpenCommands[0].0, 0);
    assert CloseCommands[1] == (OpenCommands[1].0, 0);
  }

  // ---------------------------------------------------------------------
  // Calibration
  // ---------------------------------------------------------------------

  /** One axis of a stick calibration: index 0 the minimum, 1 the centre,
      2 the maximum. */
  datatype Axis = Axis(min: int, center: int, max: int)

  datatype StickAxes = StickAxes(x: Axis, y: Axis)

  predicate Ordered(a: Axis) { a.min <= a.center <= a.max }

  /** The left stick (left Joy-Con and Pro Controller) from the 18 bytes
      read at 0x603D: centre at bytes 3..5, the distance below it at 6..8,
      the distance above it at 0..2. The y distance above is taken as
      `(b[2] << 4) | (b[2] >> 4)`, as written. */
  function LeftFactoryStick(b: seq<byte>): (s: StickAxes)
    ensures Is12(s.x.center) && Is12(s.y.center)
    ensures Ordered(s.x) && Ordered(s.y)
    ensures s.x.center - s.x.min < 4096 && s.x.max - s.x.center < 4096 && s.y.center - s.y.min < 4096
  {
    var xc, yc := Low12(At(b, 3), At(b, 4)), High12(At(b, 4), At(b, 5));
    StickAxes(
      Axis(xc - Low12(At(b, 6), At(b, 7)), xc, xc + Low12(At(b, 0), At(b, 1))),
      Axis(yc - High12(At(b, 7), At(b, 8)), yc, yc + (At(b, 2) * 16 + At(b, 2) / 16)))
  }

  /** The right stick (right Joy-Con and Pro Controller) from bytes 9..17 of
      the same read: centre at 9..11, the distance below at 12..14, the
      distance above at 15..17. */
  function RightFactoryStick(b: seq<byte>): (s: StickAxes)
    ensures Is12(s.x.center) && Is12(s.y.center)
    ensures Ordered(s.x) && Ordered(s.y)
    ensures s.x.center - s.x.min < 4096 && s.x.max - s.x.center < 4096
    ensures s.y.center - s.y.min < 4096 && s.y.max - s.y.center < 4096
  {
    var xc, yc := Low12(At(b, 9), At(b, 10)), High12(At(b, 10), At(b, 11));
    StickAxes(
      Axis(xc - Low12(At(b, 12), At(b, 13)), xc, xc + Low12(At(b, 15), At(b, 16))),
      Axis(yc - High12(At(b, 13), At(b, 14)), yc, yc + High12(At(b, 16), At(b, 17))))
  }

  /** The sticks `initializeCalibration` fills in: the left one for a left
      Joy-Con or a Pro Controller, the right one for a right Joy-Con or a
      Pro Controller. */
  function FactoryStickCal(productId: int, b: seq<byte>): (r: (Option<StickAxes>, Option<StickAxes>))
    ensures r.0.Some? <==> productId == Channel.ProductLeft || productId == Channel.ProductPro
    ensures r.1.Some? <==> productId == Channel.ProductRight || productId == Channel.ProductPro
    ensures r.0.Some? ==> r.0.value == LeftFactoryStick(b)
    ensures r.1.Some? ==> r.1.value == RightFactoryStick(b)
  {
    (if productId == Channel.ProductLeft || productId == Channel.ProductPro then Some(LeftFactoryStick(b)) else None,
     if productId == Channel.ProductRight || productId == Channel.ProductPro then Some(RightFactoryStick(b)) else None)
  }

  /** The bytes from offset `n` on, or none. */
  function Skip(b: seq<byte>, n: nat): (r: seq<byte>)
    ensures forall i: nat :: At(r, i) == At(b, n + i)
  {
    if |b| <= n then [] else b[n..]
  }

  /** Given the same factory block, the two decoders agree: the centres and
      the extents match the six values `joycon_from_cs.ts` decodes, except
      the left y maximum, which agrees exactly when the two high nibbles of
      bytes 1 and 2 are equal. */
  lemma FactoryStickAgrees(b: seq<byte>)
    ensures var s, cal := LeftFactoryStick(b), StickCalOf(b, true);
            && s.x == Axis(cal[2] - cal[4], cal[2], cal[2] + cal[0])
            && s.y.min == cal[3] - cal[5] && s.y.center == cal[3]
            && (s.y.max == cal[3] + cal[1] <==> At(b, 2) / 16 == At(b, 1) / 16)
    ensures var s, cal := RightFactoryStick(b), StickCalOf(Skip(b, 9), false);
            s == StickAxes(Axis(cal[2] - cal[4], cal[2], cal[2] + cal[0]),
                           Axis(cal[3] - cal[5], cal[3], cal[3] + cal[1]))
  {
    var r := Skip(b, 9);
    assert At(r, 0) == At(b, 9) && At(r, 1) == At(b, 10) && At(r, 2) == At(b, 11);
    assert At(r, 3) == At(b, 12) && At(r, 4) == At(b, 13) && At(r, 5) == At(b, 14);
    assert At(r, 6) == At(b, 15) && At(r, 7) == At(b, 16) && At(r, 8) == At(b, 17);
  }

  /** A block where the as-written left y maximum is one more than the
      packed value: bytes 1 and 2 with different high nibbles. */
  lemma LeftYMaxExample()
    ensures var b: seq<byte> := [0, 0x00, 0x10, 0, 0, 0, 0, 0, 0];
            LeftFactoryStick(b).y.max == 0x101 && StickCalOf(b, true)[1] == 0x100
  {
  }

  /** The SPI address of the deadzone block: the left Joy-Con's block, or
      the right one for every other product. It is the address
      `joycon_from_cs.ts` asks for. */
  function DeadzoneAddress(productId: int): (a: int)
    ensures a == Driver.SpiFactory * 256 + Driver.DeadzoneBlock(productId == Channel.ProductLeft)
    ensures a == 0x6086 || a == 0x6098
  {
    if productId == Channel.ProductLeft then 0x6086 else 0x6098
  }

  /** The accelerometer and gyroscope offsets of the 24 bytes read at
      0x6020: signed words at bytes 0..5 and 12..17. */
  function SensorCal(f: seq<byte>): (c: (Vec3, Vec3))
    ensures VecInRange(c.0) && VecInRange(c.1)
  {
    (Int16Vec(f, 0), Int16Vec(f, 12))
  }

  /** Offsets stored in a block read back unchanged. */
  lemma SensorCalRoundTrip(f: seq<byte>, accel: Vec3, gyro: Vec3)
    requires |f| >= 18 && VecInRange(accel) && VecInRange(gyro)
    ensures SensorCal(Reports.WithVec(Reports.WithVec(f, 0, accel), 12, gyro)) == (accel, gyro)
  {
    var f1 := Reports.WithVec(f, 0, accel);
    var f2 := Reports.WithVec(f1, 12, gyro);
    forall i | 0 <= i < 6 ensures At(f2, i) == At(f1, i) { }
    assert Int16Vec(f2, 0) == Int16Vec(f1, 0);
  }

  /** The gyroscope neutral point read at 0x8034, taken as it is: no check
      for a blank block. */
  function GyroNeutralOf(g: seq<byte>): (v: Vec3)
    ensures VecInRange(v)
  {
    Int16Vec(g, 0)
  }

  /** Given the same user neutral point block, the two decoders agree when
      it is plausible, and a blank block, which `joycon_from_cs.ts` replaces by
      the factory one, reads here as (-1, -1, -1). */
  lemma GyroNeutralAgrees(user: seq<byte>, factory: seq<byte>)
    ensures !GyroNeutralImplausible(GyroNeutralOf(user)) ==> GyroNeutralOf(user) == GyroNeutral(user, factory)
    ensures |user| >= 6 && (forall i :: 0 <= i < 6 ==> user[i] == 0xFF) ==>
              GyroNeutralOf(user) == Vec3(-1, -1, -1) && GyroNeutral(user, factory) == Int16Vec(factory, 3)
  {
  }

  // ---------------------------------------------------------------------
  // Input report 0x30
  // ---------------------------------------------------------------------

  /** The integer part of `_readInputReport30`: the button words, the raw
      stick, the battery level, and the first sub-sample's accelerometer
      words and gyroscope words less the gyroscope calibration words. */
  datatype Report30 = Report30(
    buttons: Option<int>, buttons2: Option<int>, rawStick: Pair12, battery: int, accel: Vec3, gyro: Vec3)

  /** Where the stick bytes start: 6 for a left Joy-Con, 9 for a right one,
      0 otherwise. */
  function StickStart(productId: int): nat
  {
    if productId == Channel.ProductLeft then 6 else if productId == Channel.ProductRight then 9 else 0
  }

  function ReadReport30(productId: int, bytes: seq<byte>, gyroCal: Vec3): (r: Report30)
    ensures r.buttons.Some? <==> IsController(productId)
    ensures r.buttons2.Some? <==> productId == Channel.ProductPro
    ensures productId == Channel.ProductLeft || productId == Channel.ProductPro ==>
              r.buttons == Some(Word16(At(bytes, 5), At(bytes, 4)))
    ensures productId == Channel.ProductRight ==> r.buttons == Some(Word16(At(bytes, 3), At(bytes, 4)))
    ensures productId == Channel.ProductPro ==> r.buttons2 == Some(Word16(At(bytes, 3), At(bytes, 4)))
    ensures 0 <= r.battery < 16 && r.battery * 16 <= At(bytes, 2) < r.battery * 16 + 16
    ensures Is12(r.rawStick.x) && Is12(r.rawStick.y)
  {
    var o := StickStart(productId);
    var hi := At(bytes, 4);
    var (buttons, buttons2) :=
      if productId == Channel.ProductLeft then (Some(Word16(At(bytes, 5), hi)), None)
      else if productId == Channel.ProductRight then (Some(Word16(At(bytes, 3), hi)), None)
      else if productId == Channel.ProductPro then (Some(Word16(At(bytes, 5), hi)), Some(Word16(At(bytes, 3), hi)))
      else (None, None);
    var g := Int16Vec(bytes, 19);
    Report30(buttons, buttons2, Unpack12(At(bytes, o), At(bytes, o + 1), At(bytes, o + 2)),
             At(bytes, 2) / 16, Int16Vec(bytes, 13),
             Vec3(g.x - gyroCal.x, g.y - gyroCal.y, g.z - gyroCal.z))
  }

  /** A byte pair's bits: bit `k` of `hi * 2^n + lo` is bit `k` of `lo`
      below `n` and bit `k - n` of `hi` from `n` on. */
  lemma {:induction false} BitOfConcat(hi: nat, lo: nat, n: nat, k: nat)
    requires lo < Pow2(n)
    ensures Bit(hi * Pow2(n) + lo, k) == if k < n then Bit(lo, k) else Bit(hi, k - n)
    decreases n
  {
    if n > 0 {
      var m := hi * Pow2(n - 1);
      assert hi * Pow2(n) == 2 * m;
      var x := 2 * m + lo;
      assert x % 2 == lo % 2 && x / 2 == m + lo / 2;
      if k > 0 {
        BitOfConcat(hi, lo / 2, n - 1, k - 1);
      }
    }
  }

  /** The bits of a little-endian word: its low byte, then its high byte. */
  lemma WordBits(lo: byte, hi: byte, k: BitIndex)
    ensures Bit(Word16(lo, hi), k) == Bit(lo, k)
    ensures Bit(Word16(lo, hi), 8 + k) == Bit(hi, k)
  {
    assert Pow2(8) == 256;
    BitOfConcat(hi, lo, 8, k);
    BitOfConcat(hi, lo, 8, 8 + k);
  }

  /** The position in the button word of a flag read from byte 4 or from
      the side byte. */
  function WordBit(r: BitRef): nat
  {
    if r.offset == 4 then 8 + r.bit else r.bit
  }

  /** Every flag of `joycon_from_cs.ts`'s button table is a bit of the word
      made of byte 4 (high) and the side byte (low). */
  lemma TableBitsInWord(left: bool, bytes: seq<byte>)
    ensures var t := Reports.ButtonTable(left);
            var w := Word16(At(bytes, Reports.SideByte(left)), At(bytes, 4));
            forall btn :: btn in t ==> IsSet(bytes, t[btn]) == Bit(w, WordBit(t[btn]))
  {
    var t := Reports.ButtonTable(left);
    var side := Reports.SideByte(left);
    forall btn | btn in t
      ensures IsSet(bytes, t[btn]) == Bit(Word16(At(bytes, side), At(bytes, 4)), WordBit(t[btn]))
    {
      WordBits(At(bytes, side), At(bytes, 4), t[btn].bit);
    }
  }

  /** For a Joy-Con, the button word of a 0x30 report carries every button
      `joycon_from_cs.ts` reads: the side byte in the low 8 bits and byte 4
      in the high 8 bits. */
  lemma ButtonWordCarriesTable(productId: int, bytes: seq<byte>, gyroCal: Vec3)
    requires productId == Channel.ProductLeft || productId == Channel.ProductRight
    ensures var t := Reports.ButtonTable(productId == Channel.ProductLeft);
            var w := ReadReport30(productId, bytes, gyroCal).buttons.value;
            forall btn :: btn in t ==> IsSet(bytes, t[btn]) == Bit(w, WordBit(t[btn]))
  {
    var left := productId == Channel.ProductLeft;
    assert ReadReport30(productId, bytes, gyroCal).buttons.value
        == Word16(At(bytes, Reports.SideByte(left)), At(bytes, 4));
    TableBitsInWord(left, bytes);
  }

  /** For a Joy-Con the raw stick is the sample `joycon_from_cs.ts` reads;
      any other product reads the first three bytes of the report. */
  lemma StickAgrees(productId: int, bytes: seq<byte>, gyroCal: Vec3)
    ensures var r := ReadReport30(productId, bytes, gyroCal);
            && (productId == Channel.ProductLeft ==> r.rawStick == Reports.RawStick(bytes, true))
            && (productId == Channel.ProductRight ==> r.rawStick == Reports.RawStick(bytes, false))
            && (productId != Channel.ProductLeft && productId != Channel.ProductRight ==>
                  r.rawStick == Unpack12(At(bytes, 0), At(bytes, 1), At(bytes, 2)))
  {
  }

  /** The motion values are the first of the three sub-samples, with the
      gyroscope calibration words (`sensorCal[1]`) in the place of the
      neutral point. */
  lemma MotionIsFirstSubSample(productId: int, bytes: seq<byte>, gyroCal: Vec3)
    ensures var r := ReadReport30(productId, bytes, gyroCal);
            (r.accel, r.gyro) == Reports.ImuSample(bytes, 0, gyroCal)
  {
  }

  // ---------------------------------------------------------------------
  // Input report 0x3F
  // ---------------------------------------------------------------------

  /** The buttons of the simple report, by the names `joy-con.ts` gives
      them. */
  datatype SimpleButton =
    | DpadLeft | DpadDown | DpadUp | DpadRight | Minus | Screenshot | L | ZL
    | A | X | B | Y | Plus | Home | R | ZR | SL | SR | StickPress

  /** Where `_buttonsFromInputReport3F` reads each button of a left or a
      right Joy-Con: byte 1 for the face buttons or d-pad and SL/SR, byte 2
      for the rest. */
  function SideTable(left: bool): (t: map<SimpleButton, BitRef>)
    ensures left ==> t.Keys == {DpadLeft, DpadDown, DpadUp, DpadRight, Minus, Screenshot, SL, SR, L, ZL, StickPress}
    ensures !left ==> t.Keys == {A, X, B, Y, Plus, Home, SL, SR, R, ZR, StickPress}
    ensures forall b :: b in t ==> (t[b].offset == 1 || t[b].offset == 2)
  {
    if left then
      map[DpadLeft := Ref(1, 0x01), DpadDown := Ref(1, 0x02), DpadUp := Ref(1, 0x04), DpadRight := Ref(1, 0x08),
          Minus := Ref(2, 0x01), Screenshot := Ref(2, 0x20),
          SL := Ref(1, 0x10), SR := Ref(1, 0x20),
          L := Ref(2, 0x40), ZL := Ref(2, 0x80),
          StickPress := Ref(2, 0x04)]
    else
      map[A := Ref(1, 0x01), X := Ref(1, 0x02), B := Ref(1, 0x04), Y := Ref(1, 0x08),
          Plus := Ref(2, 0x02), Home := Ref(2, 0x10),
          SL := Ref(1, 0x10), SR := Ref(1, 0x20),
          R := Ref(2, 0x40), ZR := Ref(2, 0x80),
          StickPress := Ref(2, 0x08)]
  }

  /** The table for a product: other products have no buttons. */
  function SimpleTable(productId: int): (t: map<SimpleButton, BitRef>)
    ensures forall b :: b in t ==> (t[b].offset == 1 || t[b].offset == 2)
  {
    if productId == Channel.ProductLeft then SideTable(true)
    else if productId == Channel.ProductRight then SideTable(false)
    else map[]
  }

  /** The button a bit of the simple report belongs to: the reverse lookup
      of SimpleTable. */
  function SimpleOwner(left: bool, r: BitRef): Option<SimpleButton>
  {
    if r.offset == 1 then
      if r.bit == 4 then Some(SL) else if r.bit == 5 then Some(SR)
      else if r.bit == 0 then Some(if left then DpadLeft else A)
      else if r.bit == 1 then Some(if left then DpadDown else X)
      else if r.bit == 2 then Some(if left then DpadUp else B)
      else if r.bit == 3 then Some(if left then DpadRight else Y)
      else None
    else if r.offset == 2 then
      if r.bit == 6 then Some(if left then L else R)
      else if r.bit == 7 then Some(if left then ZL else ZR)
      else if r.bit == 0 && left then Some(Minus)
      else if r.bit == 5 && left then Some(Screenshot)
      else if r.bit == 2 && left then Some(StickPress)
      else if r.bit == 1 && !left then Some(Plus)
      else if r.bit == 4 && !left then Some(Home)
      else if r.bit == 3 && !left then Some(StickPress)
      else None
    else None
  }

  /** Every button of the left table leads back to itself. */
  lemma LeftTableOwned()
    ensures forall b :: b in SideTable(true) ==> SimpleOwner(true, SideTable(true)[b]) == Some(b)
  {
    var t := SideTable(true);
    forall b | b in t
      ensures SimpleOwner(true, t[b]) == Some(b)
    {
    }
  }

  /** Every button of the right table leads back to itself. */
  lemma RightTableOwned()
    ensures forall b :: b in SideTable(false) ==> SimpleOwner(false, SideTable(false)[b]) == Some(b)
  {
    var t := SideTable(false);
    forall b | b in t
      ensures SimpleOwner(false, t[b]) == Some(b)
    {
    }
  }

  /** No two buttons of the simple report share a bit. */
  lemma SideTableWellFormed(left: bool)
    ensures WellFormed(SideTable(left))
  {
    if left { LeftTableOwned(); } else { RightTableOwned(); }
    WellFormedByOwner(SideTable(left), r => SimpleOwner(left, r));
  }

  datatype SimpleReport = SimpleReport(buttons: map<SimpleButton, bool>, analogStick: Option<int>)

  /** `_buttonsFromInputReport3F`: each button is its bit, and the hat
      direction is byte 3 as it is (missing if the report is short). Other
      products give an empty result. */
  function ButtonsFromReport3F(productId: int, bytes: seq<byte>): (r: SimpleReport)
    ensures r.buttons.Keys == SimpleTable(productId).Keys
    ensures forall b :: b in r.buttons ==> r.buttons[b] == IsSet(bytes, SimpleTable(productId)[b])
    ensures productId == Channel.ProductLeft || productId == Channel.ProductRight ==>
              (r.analogStick.Some? <==> |bytes| > 3) && (r.analogStick.Some? ==> r.analogStick.value == bytes[3])
    ensures productId != Channel.ProductLeft && productId != Channel.ProductRight ==> r == SimpleReport(map[], None)
  {
    var t := SimpleTable(productId);
    if t == map[] then SimpleReport(map[], None)
    else SimpleReport(Decode(t, bytes), if |bytes| > 3 then Some(bytes[3]) else None)
  }

  /** Pressing one button in a simple report turns exactly that button on. */
  lemma SimplePress(productId: int, bytes: seq<byte>, b: SimpleButton)
    requires b in SimpleTable(productId) && |bytes| > 3
    ensures ButtonsFromReport3F(productId, Press(bytes, SimpleTable(productId)[b])).buttons
              == ButtonsFromReport3F(productId, bytes).buttons[b := true]
  {
    var t := SideTable(productId == Channel.ProductLeft);
    assert SimpleTable(productId) == t;
    SideTableWellFormed(productId == Channel.ProductLeft);
    DecodePress(t, bytes, b);
  }

  /** Releasing one button in a simple report turns exactly that button
      off. */
  lemma SimpleRelease(productId: int, bytes: seq<byte>, b: SimpleButton)
    requires b in SimpleTable(productId) && |bytes| > 3
    ensures ButtonsFromReport3F(productId, Release(bytes, SimpleTable(productId)[b])).buttons
              == ButtonsFromReport3F(productId, bytes).buttons[b := false]
  {
    var t := SideTable(productId == Channel.ProductLeft);
    assert SimpleTable(productId) == t;
    SideTableWellFormed(productId == Channel.ProductLeft);
    DecodeRelease(t, bytes, b);
  }
}
