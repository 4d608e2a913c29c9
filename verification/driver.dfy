/** The `Joycon` class of `joycon_from_cs.ts` as a record advanced by step
    functions: reading the calibration, `attach`, `detach`, one `poll`,
    `readReportsQueue` and one tick of the consumer loop. The HID device is
    the oracle in `Link`; timers are not modelled, and a step that would
    arm one returns what it would have scheduled. */
module Driver {
  import opened Js
  import opened Bits
  import opened Calibration
  import opened Reports
  import opened Channel
  import opened Lifecycle
  import opened Rumble
  import opened Imu

  // SPI flash: the high address byte selects the region, the low byte the
  // block in it
  const SpiUser := 0x80
  const SpiFactory := 0x60
  const UserGyroNeutral := 0x34
  const FactoryGyroNeutral := 0x29

  function UserStickBlock(left: bool): int { if left then 0x12 else 0x1d }
  function FactoryStickBlock(left: bool): int { if left then 0x3d else 0x46 }
  function DeadzoneBlock(left: bool): int { if left then 0x86 else 0x98 }

  /** The interval of the consumer loop, in milliseconds: `1000/60` as the
      double nearest to it, 4691249611844267 / 2^48 = 16.666666666666668,
      slightly more than 50/3. */
  const TickRate: real := 4691249611844267.0 / 281474976710656.0

  datatype CalibrationData = CalibrationData(stick: StickCal, deadzone: int, gyroNeutral: Vec3)

  /** A queued input report and the time it was read. */
  datatype Report = Report(bytes: Frame, time: int)

  datatype Driver = Driver(
    productId: int,
    enableImu: bool,
    localizeImu: bool,
    state: Attachment,
    link: Link,
    cal: CalibrationData,
    rumble: Settings,
    pendingRumble: seq<Pending>,
    reports: seq<Report>,
    buttons: map<Button, bool>,
    stick: (Num, Num),
    imu: ImuState,
    prevDequeueMessageTime: int,
    prevDequeueTime: int,
    /** The attempt number of the poll a pending timer will run. */
    pollTimer: Option<nat>)
  {
    predicate IsLeft() { productId == ProductLeft }
  }

  /** A driver as constructed: detached, with zeroed calibration, stick and
      rumble and an empty button map. With no rumble time remaining, the
      first polls send no rumble packet. */
  function New(productId: int, enableImu: bool, localizeImu: bool, inbox: seq<Option<Frame>>, now: int): (d: Driver)
    ensures d.state == NotAttached && d.reports == [] && d.pollTimer == None
    ensures d.rumble == Rumble.Initial && d.rumble.remaining == 0.0 && d.pendingRumble == []
    ensures d.stick == (Finite(0.0), Finite(0.0)) && d.buttons == map[]
    ensures d.cal.stick == [0, 0, 0, 0, 0, 0] && d.cal.deadzone == 0 && d.cal.gyroNeutral == Vec3(0, 0, 0)
    ensures d.link == Link(0, [], inbox, 0)
    ensures d.imu.recenter
  {
    Driver(productId, enableImu, localizeImu, NotAttached, Link(0, [], inbox, 0),
           CalibrationData([0, 0, 0, 0, 0, 0], 0, Vec3(0, 0, 0)),
           Rumble.Initial, [], [], map[], (Finite(0.0), Finite(0.0)), InitialImu, 0, now, None)
  }

  // ---------------------------------------------------------------------
  // Calibration
  // ---------------------------------------------------------------------

  /** One `readSPI(addrHigh, addrLow, len)` call. */
  datatype SpiAccess = SpiAccess(addrHigh: int, addrLow: int, len: nat)

  /** One flash read: the link afterwards and the data. */
  function SpiStep(l: Link, a: SpiAccess): (Link, seq<byte>)
  {
    var r := ReadSpi(l, a.addrHigh, a.addrLow, a.len);
    (r.link, r.data)
  }

  /** The effect of one flash read on the link, and the data it returns. */
  type SpiReader = (Link, SpiAccess) -> (Link, seq<byte>)

  /** Successive flash reads: the link afterwards and the data of each. */
  function ReadSpis(step: SpiReader, l: Link, accesses: seq<SpiAccess>): (r: (Link, seq<seq<byte>>))
    ensures |r.1| == |accesses|
    decreases |accesses|
  {
    if |accesses| == 0 then (l, [])
    else
      var first := step(l, accesses[0]);
      var rest := ReadSpis(step, first.0, accesses[1..]);
      (rest.0, [first.1] + rest.1)
  }

  /** Reading two lists of blocks one after the other. */
  lemma {:induction false} ReadSpisAppend(step: SpiReader, l: Link, p1: seq<SpiAccess>, p2: seq<SpiAccess>)
    ensures var r1 := ReadSpis(step, l, p1);
            var r2 := ReadSpis(step, r1.0, p2);
            ReadSpis(step, l, p1 + p2) == (r2.0, r1.1 + r2.1)
    decreases |p1|
  {
    if |p1| == 0 {
      assert p1 == [] && p1 + p2 == p2;
      assert ReadSpis(step, l, p1).1 + ReadSpis(step, l, p2).1 == ReadSpis(step, l, p2).1;
    } else {
      var first := step(l, p1[0]);
      ReadSpisAppend(step, first.0, p1[1..], p2);
      assert (p1 + p2)[1..] == p1[1..] + p2;
      var r1 := ReadSpis(step, first.0, p1[1..]);
      var r2 := ReadSpis(step, r1.0, p2);
      assert [first.1] + (r1.1 + r2.1) == ([first.1] + r1.1) + r2.1;
    }
  }

  /** Reading a block only when its data is present. */
  lemma ReadOptional(step: SpiReader, l: Link, a: SpiAccess, o: Option<seq<byte>>, l': Link)
    requires o.None? ==> l' == l
    requires o.Some? ==> step(l, a) == (l', o.value)
    ensures ReadSpis(step, l, if o.Some? then [a] else []) == (l', OptionalList(o))
  {
    if o.Some? {
      assert [a][1..] == [];
      assert ReadSpis(step, l', []) == (l', []);
      assert [o.value] + [] == [o.value];
    }
  }

  /** The data of the flash blocks `getCalibration` reads; the factory
      blocks are read only when the user blocks are unusable. */
  datatype CalibrationBlocks = CalibrationBlocks(
    userStick: seq<byte>, factoryStick: Option<seq<byte>>, deadzone: seq<byte>,
    userGyro: seq<byte>, factoryGyro: Option<seq<byte>>)

  function OptionalList<T>(o: Option<T>): seq<T>
  {
    match o case None => [] case Some(v) => [v]
  }

  /** The reads `getCalibration` performs, in order. */
  function CalibrationPlan(left: bool, b: CalibrationBlocks): (plan: seq<SpiAccess>)
    ensures 3 <= |plan| <= 5
  {
    [SpiAccess(SpiUser, UserStickBlock(left), 9)]
    + (if b.factoryStick.Some? then [SpiAccess(SpiFactory, FactoryStickBlock(left), 9)] else [])
    + [SpiAccess(SpiFactory, DeadzoneBlock(left), 16)]
    + [SpiAccess(SpiUser, UserGyroNeutral, 10)]
    + (if b.factoryGyro.Some? then [SpiAccess(SpiFactory, FactoryGyroNeutral, 10)] else [])
  }

  /** The data those reads return, in the same order. */
  function BlockData(b: CalibrationBlocks): seq<seq<byte>>
  {
    [b.userStick] + OptionalList(b.factoryStick) + [b.deadzone] + [b.userGyro] + OptionalList(b.factoryGyro)
  }

  datatype Calibrated = Calibrated(link: Link, cal: CalibrationData, blocks: CalibrationBlocks)

  /** `getCalibration`, for any flash reader: the stick block is the user
      block unless that is blank, the deadzone comes from the factory
      region, and the gyro neutral point is the user one unless it is
      implausible. */
  function ReadCalibration(step: SpiReader, l: Link, left: bool): (r: Calibrated)
    ensures ReadSpis(step, l, CalibrationPlan(left, r.blocks)) == (r.link, BlockData(r.blocks))
    ensures r.blocks.factoryStick.Some? <==> IsBlank(r.blocks.userStick)
    ensures r.blocks.factoryGyro.Some? <==> GyroNeutralImplausible(Int16Vec(r.blocks.userGyro, 0))
    ensures r.cal.stick == StickCalOf(match r.blocks.factoryStick case Some(f) => f case None => r.blocks.userStick, left)
    ensures r.cal.deadzone == Deadzone(r.blocks.deadzone)
    ensures r.cal.gyroNeutral ==
              match r.blocks.factoryGyro case Some(f) => Int16Vec(f, 3) case None => Int16Vec(r.blocks.userGyro, 0)
  {
    var (l0, userStick) := step(l, SpiAccess(SpiUser, UserStickBlock(left), 9));
    var factoryStick :=
      if IsBlank(userStick) then Some(step(l0, SpiAccess(SpiFactory, FactoryStickBlock(left), 9))) else None;
    var l1 := match factoryStick case Some(f) => f.0 case None => l0;
    var (l2, deadzone) := step(l1, SpiAccess(SpiFactory, DeadzoneBlock(left), 16));
    var (l3, userGyro) := step(l2, SpiAccess(SpiUser, UserGyroNeutral, 10));
    var factoryGyro :=
      if GyroNeutralImplausible(Int16Vec(userGyro, 0)) then Some(step(l3, SpiAccess(SpiFactory, FactoryGyroNeutral, 10))) else None;
    var l4 := match factoryGyro case Some(f) => f.0 case None => l3;
    var blocks := CalibrationBlocks(
      userStick, match factoryStick case Some(f) => Some(f.1) case None => None,
      deadzone, userGyro, match factoryGyro case Some(f) => Some(f.1) case None => None);
    var stickBlock := SelectStickBlock(userStick, match factoryStick case Some(f) => f.1 case None => []);
    var gyroBlock := match factoryGyro case Some(f) => f.1 case None => [];
    PlanReads(step, l, left, blocks, l0, l1, l2, l3, l4);
    Calibrated(l4, CalibrationData(StickCalOf(stickBlock, left), Deadzone(deadzone), GyroNeutral(userGyro, gyroBlock)), blocks)
  }

  /** `getCalibration` over the controller's flash: three to five reads,
      each only appending packets to the link. */
  function GetCalibration(l: Link, left: bool): (r: Calibrated)
    ensures r == ReadCalibration(SpiStep, l, left)
    ensures Extends(l, r.link) && |r.link.sent| >= |l.sent| + 3
  {
    var r := ReadCalibration(SpiStep, l, left);
    ReadSpisExtends(l, CalibrationPlan(left, r.blocks));
    r
  }

  /** Flash reads only append packets, at least one per read. */
  lemma {:induction false} ReadSpisExtends(l: Link, accesses: seq<SpiAccess>)
    ensures var l' := ReadSpis(SpiStep, l, accesses).0;
            |l'.sent| >= |l.sent| + |accesses| && l'.sent[..|l.sent|] == l.sent
    decreases |accesses|
  {
    if |accesses| > 0 {
      var first := SpiStep(l, accesses[0]);
      ReadSpisExtends(first.0, accesses[1..]);
      PrefixChain(l.sent, first.0.sent, ReadSpis(SpiStep, first.0, accesses[1..]).0.sent);
    }
  }

  /** The successive reads of GetCalibration, unrolled. */
  lemma PlanReads(step: SpiReader, l: Link, left: bool, b: CalibrationBlocks, l0: Link, l1: Link, l2: Link, l3: Link, l4: Link)
    requires step(l, SpiAccess(SpiUser, UserStickBlock(left), 9)) == (l0, b.userStick)
    requires b.factoryStick.None? ==> l1 == l0
    requires b.factoryStick.Some? ==>
               step(l0, SpiAccess(SpiFactory, FactoryStickBlock(left), 9)) == (l1, b.factoryStick.value)
    requires step(l1, SpiAccess(SpiFactory, DeadzoneBlock(left), 16)) == (l2, b.deadzone)
    requires step(l2, SpiAccess(SpiUser, UserGyroNeutral, 10)) == (l3, b.userGyro)
    requires b.factoryGyro.None? ==> l4 == l3
    requires b.factoryGyro.Some? ==>
               step(l3, SpiAccess(SpiFactory, FactoryGyroNeutral, 10)) == (l4, b.factoryGyro.value)
    ensures ReadSpis(step, l, CalibrationPlan(left, b)) == (l4, BlockData(b))
  {
    var a0 := [SpiAccess(SpiUser, UserStickBlock(left), 9)];
    var a1 := if b.factoryStick.Some? then [SpiAccess(SpiFactory, FactoryStickBlock(left), 9)] else [];
    var a2 := [SpiAccess(SpiFactory, DeadzoneBlock(left), 16)];
    var a3 := [SpiAccess(SpiUser, UserGyroNeutral, 10)];
    var a4 := if b.factoryGyro.Some? then [SpiAccess(SpiFactory, FactoryGyroNeutral, 10)] else [];
    ReadOptional(step, l, a0[0], Some(b.userStick), l0);
    ReadOptional(step, l0, SpiAccess(SpiFactory, FactoryStickBlock(left), 9), b.factoryStick, l1);
    ReadOptional(step, l1, a2[0], Some(b.deadzone), l2);
    ReadOptional(step, l2, a3[0], Some(b.userGyro), l3);
    ReadOptional(step, l3, SpiAccess(SpiFactory, FactoryGyroNeutral, 10), b.factoryGyro, l4);
    ReadSpisAppend(step, l, a0, a1);
    ReadSpisAppend(step, l, a0 + a1, a2);
    ReadSpisAppend(step, l, a0 + a1 + a2, a3);
    ReadSpisAppend(step, l, a0 + a1 + a2 + a3, a4);
  }

  // ---------------------------------------------------------------------
  // attach / detach
  // ---------------------------------------------------------------------

  /** The subcommands `attach` sends after reading the calibration. */
  function AttachCommands(leds: byte, enableImu: bool): (commands: seq<(int, seq<int>)>)
    ensures |commands| == 7
  {
    [(BluetoothManualPairing, [0x01]), (BluetoothManualPairing, [0x02]), (BluetoothManualPairing, [0x03]),
     (SetLed, [leds]), (EnableImu, [if enableImu then 0x01 else 0x00]),
     (SetInputReportMode, [0x30]), (EnableVibration, [0x01])]
  }

  /** The subcommands `detach` sends to a connected controller. */
  const DetachCommands: seq<(int, seq<int>)> :=
    [(SetLed, [0x00]), (EnableImu, [0x00]), (EnableVibration, [0x00]), (SetInputReportMode, [0x03])]

  /** The setup subcommands `attach` sends once the calibration is read. */
  function Configure(l: Link, leds: byte, enableImu: bool): (l': Link)
    ensures |l'.sent| == |l.sent| + 7 && l'.sent[..|l.sent|] == l.sent
    ensures CommandsOf(l'.sent[|l.sent|..]) == AttachCommands(leds, enableImu)
  {
    var l' := SendSubcommands(l, AttachCommands(leds, enableImu));
    SubcommandRun(l, l', AttachCommands(leds, enableImu));
    l'
  }

  /** A run of subcommands appends one packet per command, each carrying
      its command. */
  lemma SubcommandRun(l: Link, l': Link, commands: seq<(int, seq<int>)>)
    requires l' == SendSubcommands(l, commands)
    ensures CommandsOf(l'.sent[|l.sent|..]) == commands
  {
    var tail := l'.sent[|l.sent|..];
    forall i | 0 <= i < |commands|
      ensures CommandOf(tail[i]) == commands[i]
    {
      var p := SubcommandPacket(AdvanceCounter(l.counter, i), commands[i].0, commands[i].1);
      assert tail[i] == l'.sent[|l.sent| + i] == p;
    }
  }

  /** `attach(leds)`: mark attached, switch to the simple report mode, read
      the calibration, then pair, set the LEDs, configure the IMU, switch to
      the full 0x30 report mode and enable vibration. The handle is opened
      only by the constructor: after a `detach` has closed it, the first
      write throws, so the driver is marked attached but nothing is written,
      read or configured. */
  function Attach(d: Driver, leds: byte): (r: (Driver, Outcome<()>))
    ensures r.0.state == Attached
    ensures r.1.Returned? <==> d.link.Open()
    ensures d.link.Open() ==>
              var l1 := SendSubcommand(d.link, SetInputReportMode, [0x03]).0;
              var c := GetCalibration(l1, d.IsLeft());
              r.0.cal == c.cal && r.0.link == Configure(c.link, leds, d.enableImu)
    ensures !d.link.Open() ==> r.0 == d.(state := Attached, link := SendRawClosed(d.link))
    ensures r.0 == d.(state := Attached, link := r.0.link, cal := r.0.cal)
  {
    if !d.link.Open() then (d.(state := Attached, link := SendRawClosed(d.link)), Threw)
    else
      var l1 := SendSubcommand(d.link, SetInputReportMode, [0x03]).0;
      var c := GetCalibration(l1, d.IsLeft());
      (d.(state := Attached, link := Configure(c.link, leds, d.enableImu), cal := c.cal), Returned(()))
  }

  /** What `attach` writes. On an open handle: the switch to the simple
      report mode first, then the calibration reads (three or more
      packets), then the seven setup subcommands, after the packets written
      before. On a closed handle: nothing. */
  lemma AttachPackets(d: Driver, leds: byte)
    ensures d.link.Open() ==> Attach(d, leds).1.Returned? && AttachWrites(d.link, Attach(d, leds).0.link, leds, d.enableImu)
    ensures !d.link.Open() ==> Attach(d, leds).1.Threw? && Attach(d, leds).0.link.sent == d.link.sent
  {
    var r := Attach(d, leds);
    if d.link.Open() {
      var l1 := SendSubcommand(d.link, SetInputReportMode, [0x03]).0;
      var cal := GetCalibration(l1, d.IsLeft());
      var l2 := r.0.link;
      AttachPacketsAfter(d.link, l1, cal.link, l2, leds, d.enableImu);
      assert r.1.Returned?;
    }
  }

  /** The packets `attach` appends to `l` to give `l2`: the switch to the
      simple report mode first, at least three more, and the seven setup
      subcommands last. */
  predicate AttachWrites(l: Link, l2: Link, leds: byte, enableImu: bool)
  {
    && |l2.sent| >= |l.sent| + 11 && l2.sent[..|l.sent|] == l.sent
    && l2.sent[|l.sent|] == SubcommandPacket(l.counter, SetInputReportMode, [0x03])
    && CommandsOf(l2.sent[|l2.sent| - 7..]) == AttachCommands(leds, enableImu)
  }

  /** The packet order of `attach`, for any calibration reads that extend
      the link by three or more packets (as GetCalibration's do). */
  lemma AttachPacketsAfter(l: Link, l1: Link, lc: Link, l2: Link, leds: byte, enableImu: bool)
    requires l1 == SendSubcommand(l, SetInputReportMode, [0x03]).0
    requires Extends(l1, lc) && |lc.sent| >= |l1.sent| + 3
    requires l2 == Configure(lc, leds, enableImu)
    ensures AttachWrites(l, l2, leds, enableImu)
  {
    PrefixChain(l.sent, l1.sent, lc.sent);
    PrefixChain(l.sent, lc.sent, l2.sent);
    PrefixChain(l1.sent, lc.sent, l2.sent);
    assert l1.sent == l.sent + [SubcommandPacket(l.counter, SetInputReportMode, [0x03])];
    assert l2.sent[|l.sent|] == l1.sent[|l.sent|];
    assert |l2.sent| - 7 == |lc.sent|;
  }

  /** The subcommand id and payload a subcommand packet carries. */
  function CommandOf(p: seq<int>): (int, seq<int>)
  {
    if |p| >= 11 then (p[10], p[11..]) else (-1, [])
  }

  /** The subcommands a run of packets carries. */
  function CommandsOf(packets: seq<seq<int>>): (c: seq<(int, seq<int>)>)
    ensures |c| == |packets|
  {
    seq(|packets|, i requires 0 <= i < |packets| => CommandOf(packets[i]))
  }


  /** Extending an extension of a sequence extends the sequence. */
  lemma PrefixChain<T>(a: seq<T>, b: seq<T>, c: seq<T>)
    requires |a| <= |b| <= |c| && b[..|a|] == a && c[..|b|] == b
    ensures c[..|a|] == a && forall i :: 0 <= i < |a| ==> c[i] == a[i]
  {
    assert c[..|a|] == c[..|b|][..|a|];
  }

  /** `l'` is `l` with more packets written after the ones already sent. */
  predicate Extends(l: Link, l': Link)
  {
    |l.sent| < |l'.sent| && l'.sent[..|l.sent|] == l.sent
  }

  /** `detach()`: cancel the poll timer, disable the controller's features
      if it is connected, close the handle if it is open, and forget the
      state. A connected driver whose handle an earlier `detach` closed
      throws at its first write, after the timer is cancelled and before
      the state is forgotten. */
  function Detach(d: Driver): (r: (Driver, Outcome<()>))
    ensures r.0.pollTimer == None
    ensures r.1.Threw? <==> !d.link.Open() && Above(d.state, NoJoyCons)
    ensures r.1.Threw? ==> r.0 == d.(pollTimer := None, link := SendRawClosed(d.link))
    ensures r.1.Returned? ==> r.0.state == NotAttached
    ensures r.1.Returned? && Above(d.state, NoJoyCons) ==>
              r.0.link == SendSubcommands(d.link, DetachCommands).(closes := d.link.closes + 1)
    ensures !Above(d.state, NoJoyCons) ==> r.0.link == d.link.(closes := r.0.link.closes)
    ensures r.1.Returned? ==> r.0.link.closes == d.link.closes + (if d.state in {NotAttached, Dropped} then 0 else 1)
    ensures r.0 == d.(state := r.0.state, pollTimer := None, link := r.0.link)
  {
    var (state, effects) := Lifecycle.Detach(d.state);
    if effects.disable && !d.link.Open() then (d.(pollTimer := None, link := SendRawClosed(d.link)), Threw)
    else
      var l1 := if effects.disable then SendSubcommands(d.link, DetachCommands) else d.link;
      var l2 := if effects.close then l1.(closes := l1.closes + 1) else l1;
      (d.(state := state, pollTimer := None, link := l2), Returned(()))
  }

  /** A `detach` that returns leaves a driver on which a second one sends
      nothing and closes nothing. */
  lemma DetachTwice(d: Driver)
    ensures Detach(d).1.Returned? ==> Detach(Detach(d).0) == (Detach(d).0, Returned(()))
  {
  }

  /** Detaching, attaching and detaching again: the second `attach` is cut
      short by the closed handle, and so is the second `detach`, which
      leaves the driver marked attached. */
  lemma ReattachAfterDetach(d: Driver, leds: byte)
    requires d.link.Open() && Above(d.state, NoJoyCons)
    ensures var d1 := Detach(d).0;
            var (d2, c2) := Attach(d1, leds);
            var (d3, c3) := Detach(d2);
            && !d1.link.Open() && c2.Threw? && d2.link.sent == d1.link.sent
            && c3.Threw? && d3.state == Attached && d3.link.sent == d1.link.sent
  {
  }

  // ---------------------------------------------------------------------
  // Polling
  // ---------------------------------------------------------------------

  /** `ReceiveRaw`: one blocking read; a report is queued with the time it
      was read and its timestamp byte returned, and a failed read returns
      0. */
  function ReceiveRaw(d: Driver, now: int): (r: (Driver, int))
    ensures r.0 == d.(link := r.0.link, reports := r.0.reports)
    ensures r.0.link == d.link.(inbox := Consume(d.link.inbox, 1))
    ensures r.0.reports == d.reports + Queued(ReplyAt(d.link.inbox, 0), now)
    ensures r.1 == Timestamp(ReplyAt(d.link.inbox, 0))
  {
    var (l, reply) := ReadSync(d.link);
    match reply
    case Some(f) => (d.(link := l, reports := d.reports + [Report(f, now)]), f[1])
    case None => (d.(link := l), 0)
  }

  /** The reports a read adds to the queue. */
  function Queued(reply: Option<Frame>, now: int): (q: seq<Report>)
    ensures |q| <= 1
  {
    match reply case Some(f) => [Report(f, now)] case None => []
  }

  /** The value `ReceiveRaw` returns for a reply. */
  function Timestamp(reply: Option<Frame>): (t: int)
    ensures 0 <= t < 256
    ensures t != 0 ==> reply.Some?
  {
    match reply case Some(f) => f[1] case None => 0
  }

  /** `poll(attempt)` run by its timer: send the rumble packet if a rumble
      is running, read twice, then decide from the second timestamp. The
      `encoded` block is what `getRumblePacket` computes for a non-zero
      amplitude. On a closed handle the rumble write throws, which ends the
      poll loop, and each read fails, so the poll counts as silent. */
  function Poll(d: Driver, attempt: nat, now: int, encoded: Block4): (r: (Driver, Schedule))
    ensures !Above(d.state, NoJoyCons) ==> r == (d.(pollTimer := None), Stop)
    ensures Above(d.state, NoJoyCons) && d.link.Open() ==>
              && |r.0.link.sent| == |d.link.sent| + (if d.rumble.remaining != 0.0 then 1 else 0)
              && r.0.link.sent[..|d.link.sent|] == d.link.sent
              && (d.rumble.remaining != 0.0 ==>
                    r.0.link.sent[|d.link.sent|] == [SendTypeRumble, d.link.counter] + RumblePacket(d.rumble.amplitude, encoded))
              && r.0.link.inbox == Consume(d.link.inbox, 2)
              && r.0.link.counter == (if d.rumble.remaining != 0.0 then NextCounter(d.link.counter) else d.link.counter)
              && r.0.link.closes == d.link.closes
              && r.0.reports == d.reports + Queued(ReplyAt(d.link.inbox, 0), now) + Queued(ReplyAt(d.link.inbox, 1), now)
              && (r.0.state, r.1) == PollOutcome(d.state, attempt, Timestamp(ReplyAt(d.link.inbox, 1)))
    ensures Above(d.state, NoJoyCons) && !d.link.Open() && d.rumble.remaining != 0.0 ==>
              r == (d.(pollTimer := None, link := SendRawClosed(d.link)), Stop)
    ensures Above(d.state, NoJoyCons) && !d.link.Open() && d.rumble.remaining == 0.0 ==>
              r.0.link == d.link && r.0.reports == d.reports && (r.0.state, r.1) == PollOutcome(d.state, attempt, 0)
    ensures r.0.pollTimer == (match r.1 case Reschedule(a) => Some(a) case Stop => None)
    ensures r.0 == d.(link := r.0.link, reports := r.0.reports, state := r.0.state, pollTimer := r.0.pollTimer)
  {
    if !Above(d.state, NoJoyCons) then (d.(pollTimer := None), Stop)
    else if !d.link.Open() then
      if d.rumble.remaining != 0.0 then (d.(pollTimer := None, link := SendRawClosed(d.link)), Stop)
      else
        var (state, next) := PollOutcome(d.state, attempt, 0);
        (d.(state := state, pollTimer := match next case Reschedule(a) => Some(a) case Stop => None), next)
    else
      var l1 := if d.rumble.remaining != 0.0
                then SendRaw(d.link, RumblePacket(d.rumble.amplitude, encoded), SendTypeRumble)
                else d.link;
      var (d1, _) := ReceiveRaw(d.(link := l1), now);
      var (d2, t) := ReceiveRaw(d1, now);
      assert ReplyAt(d1.link.inbox, 0) == ReplyAt(d.link.inbox, 1);
      ConsumeTwice(d.link.inbox, 1, 1);
      var (state, next) := PollOutcome(d2.state, attempt, t);
      (d2.(state := state, pollTimer := match next case Reschedule(a) => Some(a) case Stop => None), next)
  }

  /** A poll whose second read returns a report with a non-zero timestamp
      marks the data as flowing and schedules a fresh poll, whatever the
      attempt number. */
  lemma PollSeesData(d: Driver, attempt: nat, now: int, encoded: Block4, f: Frame)
    requires Above(d.state, NoJoyCons) && d.link.Open() && ReplyAt(d.link.inbox, 1) == Some(f) && f[1] != 0
    ensures Poll(d, attempt, now, encoded).0.state == ImuDataOk
    ensures Poll(d, attempt, now, encoded).1 == Reschedule(0)
  {
  }

  /** On a closed handle no poll sees data, whatever the device would
      reply: without a rumble running, a poll after attempt 1000 drops the
      connection and an earlier one tries again; with a rumble running, the
      poll loop ends in the exception and the state stays. */
  lemma PollOnClosedHandle(d: Driver, attempt: nat, now: int, encoded: Block4)
    requires Above(d.state, NoJoyCons) && !d.link.Open()
    ensures var (r, next) := Poll(d, attempt, now, encoded);
            && r.reports == d.reports && r.link.sent == d.link.sent
            && (d.rumble.remaining == 0.0 && attempt > PollAttemptLimit ==> r.state == Dropped && next == Stop)
            && (d.rumble.remaining == 0.0 && attempt <= PollAttemptLimit ==> r.state == d.state && next == Reschedule(attempt + 1))
            && (d.rumble.remaining != 0.0 ==> r.state == d.state && next == Stop)
  {
  }

  // ---------------------------------------------------------------------
  // The report queue
  // ---------------------------------------------------------------------

  /** The IMU step for one dequeued report, and the timestamp the next one
      is measured against. */
  function ImuStep(d: Driver, rep: Report, last: int): (r: (ImuState, int))
    ensures !d.enableImu ==> r == (d.imu, last)
    ensures d.enableImu && !d.localizeImu ==>
              r == (d.imu.(accel := Raw(ImuSample(rep.bytes, 0, d.cal.gyroNeutral).0),
                           gyro := Raw(ImuSample(rep.bytes, 0, d.cal.gyroNeutral).1)), last)
    ensures d.enableImu && d.localizeImu ==>
              r == ProcessImu(d.imu, true, d.state, d.IsLeft(), d.cal.gyroNeutral, rep.bytes, last)
  {
    if !d.enableImu then (d.imu, last)
    else if d.localizeImu then ProcessImu(d.imu, true, d.state, d.IsLeft(), d.cal.gyroNeutral, rep.bytes, last)
    else
      var (a, g) := ImuSample(rep.bytes, 0, d.cal.gyroNeutral);
      (d.imu.(accel := Raw(a), gyro := Raw(g)), last)
  }

  /** The motion state after the IMU steps of the given reports, in
      order, starting from timestamp `last`. The steps read only the
      driver's configuration, state and calibration, which the loop does
      not change. */
  function ImuAfter(d: Driver, imu: ImuState, reps: seq<Report>, last: int): ImuState
    decreases |reps|
  {
    if |reps| == 0 then imu
    else
      var (imu', last') := ImuStep(d.(imu := imu), reps[0], last);
      ImuAfter(d, imu', reps[1..], last')
  }

  /** Without the IMU the motion state is untouched; with it but without
      the fusion, the accelerometer and gyroscope hold the first sub-sample
      of the last report processed; with the fusion, once data flows and
      the last report is a 0x30 report, they hold what the fusion made of
      that report's third sub-sample. */
  lemma {:induction false} ImuAfterLast(d: Driver, imu: ImuState, reps: seq<Report>, last: int)
    ensures !d.enableImu ==> ImuAfter(d, imu, reps, last) == imu
    ensures |reps| >= 1 && d.enableImu && !d.localizeImu ==>
              var r := ImuAfter(d, imu, reps, last);
              (r.accel, r.gyro) == (Raw(ImuSample(reps[|reps| - 1].bytes, 0, d.cal.gyroNeutral).0),
                                    Raw(ImuSample(reps[|reps| - 1].bytes, 0, d.cal.gyroNeutral).1))
    ensures |reps| >= 1 && d.enableImu && d.localizeImu && d.state == ImuDataOk && reps[|reps| - 1].bytes[0] == 0x30 ==>
              var r := ImuAfter(d, imu, reps, last);
              var (a, g) := ImuSample(reps[|reps| - 1].bytes, 2, d.cal.gyroNeutral);
              r.accel == Opposed(Flip(a, d.IsLeft())) && r.gyro == Scaled(Flip(g, d.IsLeft()), 1)
    decreases |reps|
  {
    if |reps| > 0 {
      var (imu', last') := ImuStep(d.(imu := imu), reps[0], last);
      ImuAfterLast(d, imu', reps[1..], last');
      if |reps| >= 2 {
        assert reps[1..][|reps| - 2] == reps[|reps| - 1];
      }
    }
  }

  /** What the drain loop records besides the queue and the motion state:
      the report the stick and buttons were last parsed from, and the two
      dequeue timestamps. */
  datatype Inputs = Inputs(parsed: Option<Frame>, messageTime: int, time: int)

  /** The loop of `readReportsQueue` without the motion state: take each
      report off the queue `q` and record its timestamps; the stick and
      buttons are parsed from the report whose removal leaves exactly one
      queued, and a report id of 0 there throws out of the loop. The
      result is the queue left, the inputs, and whether it threw. */
  function DrainReports(q: seq<Report>, acc: Inputs): (r: (seq<Report>, Inputs, bool))
    decreases |q|
  {
    if |q| == 0 then ([], acc, false)
    else
      var rep := q[0];
      var acc1 := acc.(messageTime := rep.bytes[1] as int, time := rep.time);
      if |q| == 2 then
        if rep.bytes[0] == 0 then (q[1..], acc1, true)
        else DrainReports(q[1..], acc1.(parsed := Some(rep.bytes)))
      else
        DrainReports(q[1..], acc1)
  }

  /** The loop throws exactly when the second-to-last report has id 0,
      and then leaves the newest report queued; otherwise it empties the
      queue. */
  lemma {:induction false} DrainOutcome(q: seq<Report>, acc: Inputs)
    ensures var r := DrainReports(q, acc);
            && (r.2 <==> |q| >= 2 && q[|q| - 2].bytes[0] == 0)
            && (r.2 ==> r.0 == [q[|q| - 1]])
            && (!r.2 ==> r.0 == [])
    decreases |q|
  {
    if |q| > 0 {
      var acc1 := acc.(messageTime := q[0].bytes[1] as int, time := q[0].time);
      if |q| == 2 {
        if q[0].bytes[0] != 0 {
          DrainOutcome(q[1..], acc1.(parsed := Some(q[0].bytes)));
        }
      } else {
        DrainOutcome(q[1..], acc1);
        if |q| > 2 {
          assert q[1..][|q| - 3] == q[|q| - 2];
          assert q[1..][|q| - 2] == q[|q| - 1];
        }
      }
    }
  }

  /** The stick and buttons are parsed from the second-to-last report, if
      there is one and the loop did not throw; otherwise the last parse
      stands. */
  lemma {:induction false} DrainParses(q: seq<Report>, acc: Inputs)
    ensures var r := DrainReports(q, acc);
            && (|q| <= 1 || r.2 ==> r.1.parsed == acc.parsed)
            && (|q| >= 2 && !r.2 ==> r.1.parsed == Some(q[|q| - 2].bytes))
    decreases |q|
  {
    if |q| > 0 {
      var acc1 := acc.(messageTime := q[0].bytes[1] as int, time := q[0].time);
      if |q| == 2 {
        if q[0].bytes[0] != 0 {
          DrainParses(q[1..], acc1.(parsed := Some(q[0].bytes)));
        }
      } else {
        DrainParses(q[1..], acc1);
        if |q| > 2 {
          assert q[1..][|q| - 3] == q[|q| - 2];
        }
      }
    }
  }

  /** After a drain the dequeue timestamps are those of the last report
      taken off the queue: the newest one, or the second-to-last when the
      loop threw; with an empty queue they are left as they were. */
  lemma {:induction false} DrainTimes(q: seq<Report>, acc: Inputs)
    ensures var r := DrainReports(q, acc);
            && (|q| == 0 ==> r.1 == acc)
            && (|q| >= 1 && !r.2 ==> r.1.messageTime == q[|q| - 1].bytes[1] as int && r.1.time == q[|q| - 1].time)
            && (|q| >= 2 && r.2 ==> r.1.messageTime == q[|q| - 2].bytes[1] as int && r.1.time == q[|q| - 2].time)
    decreases |q|
  {
    if |q| > 0 {
      var acc1 := acc.(messageTime := q[0].bytes[1] as int, time := q[0].time);
      if |q| == 2 {
        if q[0].bytes[0] != 0 {
          DrainTimes(q[1..], acc1.(parsed := Some(q[0].bytes)));
        }
      } else {
        DrainTimes(q[1..], acc1);
        if |q| > 1 {
          assert q[1..][|q| - 2] == q[|q| - 1];
        }
      }
    }
  }

  /** The drain loop of `readReportsQueue` from timestamp `last`. The
      reports taken off the queue (all of them, or all but the newest when
      the loop threw) are also the ones whose IMU step ran; the stick and
      buttons come from the second-to-last report and the dequeue
      timestamps from the last one taken. A throw leaves the stick and
      buttons as they were, since it comes before either is assigned. */
  function Drain(d: Driver, last: int): (r: (Driver, bool))
    ensures var q := d.reports;
            && (r.1 <==> |q| >= 2 && q[|q| - 2].bytes[0] == 0)
            && (r.1 ==> r.0.reports == [q[|q| - 1]])
            && (!r.1 ==> r.0.reports == [])
    ensures var q := d.reports;
            && (|q| <= 1 || r.1 ==> r.0.stick == d.stick && r.0.buttons == d.buttons)
            && (|q| >= 2 && !r.1 ==>
                  && r.0.stick == ParseStick(q[|q| - 2].bytes, d.IsLeft(), d.cal.stick, d.cal.deadzone).value
                  && r.0.buttons == ParseButtons(q[|q| - 2].bytes, d.IsLeft()).value)
    ensures var q := d.reports;
            && (|q| >= 1 && !r.1 ==>
                  r.0.prevDequeueMessageTime == q[|q| - 1].bytes[1] as int && r.0.prevDequeueTime == q[|q| - 1].time)
            && (r.1 ==> r.0.prevDequeueMessageTime == q[|q| - 2].bytes[1] as int && r.0.prevDequeueTime == q[|q| - 2].time)
    ensures var taken := if r.1 then d.reports[..|d.reports| - 1] else d.reports;
            r.0.imu == ImuAfter(d, d.imu, taken, last)
    ensures |d.reports| == 0 ==> r.0 == d.(imu := r.0.imu)
    ensures r.0 == d.(reports := r.0.reports, stick := r.0.stick, buttons := r.0.buttons, imu := r.0.imu,
                      prevDequeueMessageTime := r.0.prevDequeueMessageTime, prevDequeueTime := r.0.prevDequeueTime)
  {
    var acc := Inputs(None, d.prevDequeueMessageTime, d.prevDequeueTime);
    var (rest, inputs, threw) := DrainReports(d.reports, acc);
    DrainOutcome(d.reports, acc);
    DrainParses(d.reports, acc);
    DrainTimes(d.reports, acc);
    var taken := if threw then d.reports[..|d.reports| - 1] else d.reports;
    var (stick, buttons) :=
      match inputs.parsed
      case None => (d.stick, d.buttons)
      case Some(b) =>
        if b[0] == 0 then (d.stick, d.buttons)
        else (ParseStick(b, d.IsLeft(), d.cal.stick, d.cal.deadzone).value, ParseButtons(b, d.IsLeft()).value);
    (d.(reports := rest, stick := stick, buttons := buttons, imu := ImuAfter(d, d.imu, taken, last),
        prevDequeueMessageTime := inputs.messageTime, prevDequeueTime := inputs.time), threw)
  }

  /** `readReportsQueue()`: nothing while no controller is connected;
      otherwise drain the queue. The flag says whether it threw. */
  function ReadReportsQueue(d: Driver): (r: (Driver, bool))
    ensures !Above(d.state, NoJoyCons) ==> r == (d, false)
    ensures Above(d.state, NoJoyCons) ==> r == Drain(d, 0)
  {
    if !Above(d.state, NoJoyCons) then (d, false) else Drain(d, 0)
  }

  /** A batch of exactly one report refreshes neither the stick nor the
      buttons. */
  lemma SingleReportKeepsStick(d: Driver)
    requires |d.reports| == 1
    ensures ReadReportsQueue(d).0.stick == d.stick && ReadReportsQueue(d).0.buttons == d.buttons
    ensures !ReadReportsQueue(d).1
  {
  }

  /** One tick of the consumer loop: drain the queue, then advance the
      rumble timer, which the throw of a bad report skips. */
  function ConsumerTick(d: Driver): (r: (Driver, bool))
    ensures r.1 == ReadReportsQueue(d).1
    ensures r.1 ==> r.0 == ReadReportsQueue(d).0
    ensures !r.1 ==> r.0 == ReadReportsQueue(d).0.(rumble := UpdateRumble(d.rumble, TickRate))
  {
    var (d1, threw) := ReadReportsQueue(d);
    if threw then (d1, true) else (d1.(rumble := UpdateRumble(d1.rumble, TickRate)), false)
  }

  /** Three ticks of the double `1000/60` overshoot 50 ms, so a 50 ms rumble
      holds a little less than 0 after three ticks and the fourth resets it
      to the idle settings; it does not stop at exactly 0 with its amplitude
      kept. */
  lemma FiftyMsRumbleResets()
    ensures 3.0 * TickRate > 50.0
    ensures Ticks(Settings(320.0, 160.0, 0.5, 50.0), TickRate, 3).remaining < 0.0
    ensures Ticks(Settings(320.0, 160.0, 0.5, 50.0), TickRate, 4) == Idle
  {
  }

  /** `Recenter()`: the next processed sub-sample resets the body frame. */
  function Recenter(d: Driver): (r: Driver)
    ensures r.imu.recenter
    ensures r == d.(imu := r.imu) && r.imu == d.imu.(recenter := true)
  {
    d.(imu := d.imu.(recenter := true))
  }

  /** After `Recenter`, a 0x30 report processed with data flowing leaves the
      body frame at the identity advanced by the two later sub-samples. */
  lemma RecenterResetsBasis(d: Driver, rep: Report, last: int)
    requires d.enableImu && d.localizeImu && d.state == ImuDataOk && rep.bytes[0] == 0x30
    ensures ImuStep(Recenter(d), rep, last).0.basis == Fused([1, 1])
    ensures !ImuStep(Recenter(d), rep, last).0.recenter
  {
    ProcessImuBasis(Recenter(d).imu, d.IsLeft(), d.cal.gyroNeutral, rep.bytes, last);
  }

  // ---------------------------------------------------------------------
  // Rumble
  // ---------------------------------------------------------------------

  /** `setRumble(key, value)`. */
  function SetRumble(d: Driver, key: Key, value: real): (r: Driver)
    ensures !Above(d.state, Attached) ==> r == d
    ensures r == d.(pendingRumble := r.pendingRumble)
    ensures Above(d.state, Attached) ==> |r.pendingRumble| == |d.pendingRumble| + 1
  {
    d.(pendingRumble := Rumble.SetRumble(d.state, d.rumble, d.pendingRumble, key, value))
  }

  /** The timer of the `i`-th pending rumble assignment firing. */
  function FireRumble(d: Driver, i: nat): (r: Driver)
    requires i < |d.pendingRumble|
    ensures r.rumble.Get(d.pendingRumble[i].key) == d.pendingRumble[i].value
    ensures |r.pendingRumble| == |d.pendingRumble| - 1
    ensures r == d.(rumble := r.rumble, pendingRumble := r.pendingRumble)
  {
    var (s, p) := Fire(d.rumble, d.pendingRumble, i);
    d.(rumble := s, pendingRumble := p)
  }

  /** No rumble is queued, and no rumble packet is sent, for a driver that
      never got past Attached: `setRumble` is gated on the state and a
      poll sends rumble only while time remains. */
  lemma AttachedDriverIgnoresRumble(d: Driver, key: Key, value: real, attempt: nat, now: int, encoded: Block4)
    requires d.state == Attached && d.rumble.remaining == 0.0
    ensures SetRumble(d, key, value) == d
    ensures |Poll(d, attempt, now, encoded).0.link.sent| == |d.link.sent|
  {
  }
}
