# Joy-Con HID driver: protocol and decoding layer in Dafny

This project models the integer core of the Nintendo Switch Joy-Con driver in
`src/joycon_from_cs.ts`, and of the second, partly finished driver in
`src/joy-con.ts`:

- the bit-level decoders:
  - 12-bit values packed across nibble boundaries;
  - little-endian words read as signed 16-bit values;
  - button flags addressed by byte offset and mask;
- the calibration read from SPI flash:
  - the user or factory stick block;
  - the deadzone;
  - the gyroscope neutral point with its fallback heuristic;
- stick centring;
- outgoing packet framing with the cycling message counter, and the bounded
  SPI read that correlates replies on the echoed address;
- the attachment state machine (`attach`, `detach`, one `poll`);
- rumble bookkeeping;
- the bookkeeping of `processIMU`;
- the report-queue drain of `readReportsQueue`.

The HID device is an oracle. `Channel.Link` holds the replies the coming reads
will return, in order, and records every packet written. Timers are not run:
`poll` returns what it would schedule next, and `setRumble` returns the
assignment it would defer.

Modules, one per concern:

| module | file | contents |
|---|---|---|
| `Js` | `js.dfy` | bytes, frames, `undefined` reads, `Array.slice` |
| `Bits` | `bits.dfy` | 12-bit pairs, 16-bit words, single-bit flags |
| `Calibration` | `calibration.dfy` | stick blocks, deadzone, gyro neutral point, `centerSticks` |
| `Reports` | `reports.dfy` | `parseButtons`, `parseStick`, the raw IMU words |
| `Channel` | `channel.dfy` | `sendRaw`, `sendSubcommand`, `readSPI` |
| `Lifecycle` | `lifecycle.dfy` | attachment states, `detach`, the poll decision |
| `Rumble` | `rumble.dfy` | `setRumble`, `updateRumble`, neutral rumble packet, the two clamps |
| `Imu` | `imu.dfy` | `processIMU` guard, time step, handedness flip, recenter, the readings the fusion leaves |
| `Driver` | `driver.dfy` | the `Joycon` class as a record advanced by step functions |
| `JoyCon` | `joycon.dfy` | the `joy-con.ts` driver, with lemmas relating it to the other one |

Where the code and its documentation disagree, the model follows the code:

- **Gyro fallback sentinel.** The user gyro neutral point falls back to the
  factory one when its three values sum to -3, which is what a blank block
  of 0xFF bytes reads as (`Calibration.BlankUserGyroFallsBack`). It is not a
  test for -1.
- **Which report refreshes the stick and buttons.** `readReportsQueue`
  parses them from the report whose removal leaves exactly one queued: the
  second-to-last of the batch, not the last. A batch of one report leaves
  them unchanged (`Driver.SingleReportKeepsStick`). A report with id 0 in
  that position throws out of the loop and leaves the newest report queued.
- **`unsigned_to_int16`.** It maps only values above 32768, so the word
  0x8000 reads as +32768 and no word reads as -32768 (`Bits.Int16LEOf0x8000`).
- **`processIMU`'s return value.** It returns the timestamp plus 2, so the
  next report's step is 255 rather than 1 when timestamps are consecutive
  (`Imu.NextStepAfterConsecutiveReports`).
- **Failed polls.** A poll whose second read returns a report with
  timestamp 0 counts as failed, like a read error.
- **Packet numbering in `joy-con.ts`.** `send` increments the counter
  before use, so its packet `k` carries `(k + 1) % 16`.
  `joycon_from_cs.ts` starts from 0 (`JoyCon.NumberingIsOneAhead`).
- **Left y maximum in `joy-con.ts`.** The factory stick calibration takes
  the left y maximum as `(b[2] << 4) | (b[2] >> 4)`, as written.
  `joycon_from_cs.ts` decodes a block of that layout with `b[1] >> 4` in the low
  nibble. The two agree exactly when bytes 1 and 2 have the same high
  nibble (`JoyCon.FactoryStickAgrees`; `JoyCon.LeftYMaxExample` gives a
  block where they differ).
- **Stick offset in `joy-con.ts`.** For a Pro Controller (or any other
  product) the stick offset is 0, so the report id, timestamp and battery
  bytes are read as a stick sample.
- **Gyro neutral point in `joy-con.ts`.** It is taken as read, with no
  fallback.
- **Rumble reset.** `updateRumble` resets high frequency 160, low frequency
  320, amplitude 0 and time remaining 0.
- **The two `clamp` functions.** They agree on every non-empty range and
  differ when min > max (`Rumble.ClampsAgree`).
- **Capture.** `parseButtons` never reads the Capture button.
- **Readings after `processIMU`.** The fusion normalises and negates the
  stored accelerometer vector, and scales and negates the stored gyroscope
  vector, in place. With the fusion on, `accel` and `gyro` therefore end as
  a unit vector opposite the third sub-sample's accelerometer words and as
  its gyroscope words times -0.005 (`Imu.ProcessImu`, `Imu.DenotesExamples`).
- **Reattaching.** Only the constructor opens the HID handle, and `detach`
  closes it. A later `attach` sets ATTACHED and then throws at its first
  write, and from then on every read fails (`Driver.ReattachAfterDetach`,
  `Driver.PollOnClosedHandle`).
- **Stick block order.** The right stick's block stores centre, below and
  above, so `getCalibration` rotates it into the same layout as the left one.

## Model

| member | source | states |
|---|---|---|
| Bits.Unpack12 | src/joycon_from_cs.ts:495-500 | both values of a three-byte pair lie in 0..4095, and each byte (or nibble) of the input is recoverable from them |
| Bits.Pack12 | src/joycon_from_cs.ts:495-500 | packing two 12-bit values gives three bytes that unpack to the same pair |
| Bits.PackUnpack | src/joycon_from_cs.ts:495-500 | unpacking loses nothing: repacking gives back the original three bytes |
| Bits.Word16 | src/joycon_from_cs.ts:509-511 | `lo \| ((hi << 8) & 0xFF00)` lies in 0..65535, with `lo` as its low and `hi` as its high byte |
| Bits.Int16LE | src/joycon_from_cs.ts:89-91 | the signed reading lies in -32767..32768 and is non-negative exactly when the high byte is below 0x80 or the word is 0x8000 |
| Bits.EncodeInt16LE | src/joycon_from_cs.ts:89-91 | every value of that range is stored by some byte pair that reads back as it (the inverse of Int16LE) |
| Bits.Int16LEInjective | src/joycon_from_cs.ts:89-91 | distinct words read as distinct values |
| Bits.Int16LEOf0x8000 | src/joycon_from_cs.ts:89-91 | 0x8000 reads as +32768 and no word reads as -32768 |
| Bits.Int16Vec | src/joycon_from_cs.ts:274-284 | three consecutive signed words, each in the driver's int16 range |
| Calibration.StickCalOf | src/joycon_from_cs.ts:494-500 | all six values are 12-bit; the left block is taken in order; the right block is rotated so that its centre and below entries land at 2..5 and its above entry at 0..1 |
| Calibration.EncodeStickBlock | src/joycon_from_cs.ts:494-500 | six 12-bit values stored in the nine-byte layout |
| Calibration.StickBlockRoundTrip | src/joycon_from_cs.ts:494-500 | decoding an encoded block gives back the six values |
| Calibration.StickBlockEncodeDecode | src/joycon_from_cs.ts:494-500 | re-encoding a decoded nine-byte block gives back the block |
| Calibration.RightIsRotatedLeft | src/joycon_from_cs.ts:495-500 | the right array is the left reading of the same bytes rotated by four |
| Calibration.HasUserStickData | src/joycon_from_cs.ts:482-489 | the scan finds data exactly when the block is not all 0xFF, and stops at the first byte that is not 0xFF (a missing byte counts as not 0xFF) |
| Calibration.SelectStickBlock | src/joycon_from_cs.ts:481-493 | the user block is used exactly when it is not blank, the factory block exactly when it is |
| Calibration.Deadzone | src/joycon_from_cs.ts:504-505 | the deadzone is a 12-bit value with byte 3 as its low 8 bits and the low nibble of byte 4 above them |
| Calibration.GyroNeutral | src/joycon_from_cs.ts:507-529 | the user words are kept unless they sum to -3 or one exceeds 100 in magnitude, in which case the factory words at bytes 3..8 are used |
| Calibration.AcceptedUserGyroIsSmall | src/joycon_from_cs.ts:516-521 | an accepted user neutral point lies within 100 of zero on every axis |
| Calibration.BlankUserGyroFallsBack | src/joycon_from_cs.ts:507-529 | a blank user block reads as (-1, -1, -1) and therefore falls back to the factory block |
| Calibration.Divide | src/joycon_from_cs.ts:540-542 | JavaScript division of integers: a finite quotient for a non-zero divisor, otherwise an infinity of the dividend's sign or NaN |
| Calibration.CenterAxis | src/joycon_from_cs.ts:535-543 | zero inside the deadzone; otherwise, for a non-zero distance above (positive offset) or below (otherwise), a value that, scaled by that distance, lands on the raw sample, with the sign of the offset when the distance is positive; for a zero distance, +Infinity above the centre, -Infinity below it and NaN on it |
| Calibration.CenterSticks | src/joycon_from_cs.ts:532-546 | x is centred on calibration entries 0, 2 and 4 and y on entries 1, 3 and 5 |
| Calibration.CenterAxisZeroIff | src/joycon_from_cs.ts:535-543 | with positive distances an axis is zero exactly when the sample is in the deadzone or on the centre |
| Calibration.CenterAxisMagnitude | src/joycon_from_cs.ts:535-543 | no clamping: the magnitude is at most 1 exactly when the sample lies within the calibrated range |
| Calibration.CenterSticksAxesIndependent | src/joycon_from_cs.ts:534-544 | the x result depends only on the x sample and the x calibration entries |
| Calibration.CenterAxisExamples | src/joycon_from_cs.ts:535-543 | worked values: the centre and the deadzone give 0, offsets of ±100 over a distance of 500 give ±0.2, and zero distances give +Infinity off the centre and NaN on it |
| Reports.ButtonTable | src/joycon_from_cs.ts:257-273 | twelve buttons (not Capture): HOME, MINUS, PLUS and STICK read byte 4; the rest read byte 5 (left) or 3 (right) |
| Reports.ButtonTableWellFormed | src/joycon_from_cs.ts:257-273 | for either hand no two buttons share a bit: each button's bit leads back to that button |
| Reports.ParseButtons | src/joycon_from_cs.ts:257-273 | throws exactly when the report id is 0; otherwise each button reads as its bit |
| Reports.ParseButtonsPress | src/joycon_from_cs.ts:257-273 | setting one button's bit in a report makes exactly that button read as pressed |
| Reports.ParseButtonsRelease | src/joycon_from_cs.ts:257-273 | clearing one button's bit makes exactly that button read as released |
| Reports.RawStick | src/joycon_from_cs.ts:242-252 | the raw stick sample from bytes 6..8 (left) or 9..11 (right) is two 12-bit values |
| Reports.WithStick | src/joycon_from_cs.ts:242-252 | storing a sample changes only the hand's three stick bytes |
| Reports.RawStickRoundTrip | src/joycon_from_cs.ts:242-252 | a stored sample reads back unchanged |
| Reports.ParseStick | src/joycon_from_cs.ts:240-256 | throws exactly when the report id is 0; otherwise the centred raw sample of the hand |
| Reports.ParseStickReadsOwnBytes | src/joycon_from_cs.ts:242-246 | the stick result does not depend on any byte outside the hand's three stick bytes |
| Reports.ImuSample | src/joycon_from_cs.ts:274-288 | sub-sample `n`'s accelerometer words at 13+12n and gyroscope words at 19+12n less the neutral point |
| Reports.WithInt16 | src/joycon_from_cs.ts:276 | storing a signed word changes two bytes and reads back as the value |
| Reports.WithVec | src/joycon_from_cs.ts:275-284 | storing three signed words changes six bytes and reads back as the vector |
| Reports.ImuSampleRoundTrip | src/joycon_from_cs.ts:274-288 | raw words stored as sub-sample `n` are extracted unchanged (the gyroscope less the neutral point), and the other sub-samples are unaffected |
| Channel.NextCounter | src/joycon_from_cs.ts:578-579 | the message counter cycles 0, 1, ..., 15, 0 |
| Channel.AdvanceCounterMod | src/joycon_from_cs.ts:576-582 | after `n` packets a counter in 0..15 has advanced by `n` modulo 16 |
| Channel.SendRaw | src/joycon_from_cs.ts:576-582 | writes `[sendType, counter, ...data]` and advances the counter; the replies are untouched |
| Channel.SendRawClosed | src/joycon_from_cs.ts:576-582 | on a closed handle the counter still advances before the write throws, and nothing is written |
| Channel.ReadTimeout | src/joycon_from_cs.ts:586 | consumes one reply; a timeout gives an empty buffer |
| Channel.ReadSync | src/joycon_from_cs.ts:350-366 | consumes one reply; a failed read gives none |
| Channel.SubcommandPacket | src/joycon_from_cs.ts:584-585 | the packet has 11 + \|payload\| bytes: type 1, the counter, neutral rumble at 2..9, the subcommand at 10, the payload after it |
| Channel.SendSubcommand | src/joycon_from_cs.ts:583-591 | one subcommand packet written, one reply read |
| Channel.SendSubcommands | src/joycon_from_cs.ts:583-591 | a run of subcommands writes one packet per command, in order, with consecutive counters |
| Channel.SpiSearch | src/joycon_from_cs.ts:594-598 | the number of attempts is 1..100; no earlier reply echoes the address; the last reply echoes it or the cap was reached; the data is its bytes 20..20+len |
| Channel.SpiRequests | src/joycon_from_cs.ts:595 | each attempt asks for the same block: `[addrLow, addrHigh, 0, 0, len]` |
| Channel.ReadSpi | src/joycon_from_cs.ts:592-601 | at most 100 attempts, one request packet and one reply per attempt; stops at the first reply with byte 15 = low and byte 16 = high address byte; returns at most `len` bytes from offset 20 of the last reply |
| Channel.ReadSpiFindsFirstEcho | src/joycon_from_cs.ts:594-598 | when reply `k` < 100 is the first echo, the read makes `k + 1` attempts and returns that reply's data |
| Channel.ReadSpiGivesUp | src/joycon_from_cs.ts:594-598 | with no echo among the first hundred replies, the read makes 100 attempts and returns the hundredth reply's data |
| Lifecycle.Detach | src/joycon_from_cs.ts:205-217 | always ends detached; disables the features exactly when the state is above NO_JOYCONS and closes exactly when it is above DROPPED |
| Lifecycle.DetachIdempotent | src/joycon_from_cs.ts:205-217 | a second `detach` neither disables nor closes |
| Lifecycle.PollOutcome | src/joycon_from_cs.ts:459-477 | nothing below ATTACHED; a positive timestamp sets IMU_DATA_OK and restarts at attempt 0; a failure stops with DROPPED exactly when the attempt exceeds 1000 and otherwise retries with attempt + 1 |
| Lifecycle.SilentPollsDrop | src/joycon_from_cs.ts:466-475 | a poll loop that never reads a timestamp runs 1002 polls, from attempt 0, and ends DROPPED |
| Lifecycle.RunInvariant | src/joycon_from_cs.ts:186-217 | from a new driver every sequence of calls stays in NOT_ATTACHED, DROPPED, ATTACHED or IMU_DATA_OK, and the state is other than NOT_ATTACHED exactly when an `attach` follows the last `detach` that returned; a `detach` or `poll` that threw on a closed handle leaves the state |
| Lifecycle.StepIntoImuDataOk | src/joycon_from_cs.ts:466-468 | IMU_DATA_OK is entered only from ATTACHED by a poll that read a timestamp |
| Lifecycle.DroppedIgnoresPolls | src/joycon_from_cs.ts:460 | polls leave a dropped connection dropped and stop |
| Rumble.SetRumble | src/joycon_from_cs.ts:224-227 | ignored up to ATTACHED; otherwise one assignment is deferred by the time remaining, or by exactly 0 when that is negative (`Math.max(remaining, 0)`) |
| Rumble.Assign | src/joycon_from_cs.ts:226 | the deferred assignment changes exactly its one field |
| Rumble.Fire | src/joycon_from_cs.ts:226 | firing a pending assignment applies it and removes exactly it from the pending ones |
| Rumble.UpdateRumble | src/joycon_from_cs.ts:228-237 | a negative time remaining resets to the idle settings; a non-zero one counts down by the tick, subtracted exactly (see "## Left out"); zero leaves everything unchanged |
| Rumble.IdleIsFixed | src/joycon_from_cs.ts:228-237 | ticks leave the idle settings unchanged |
| Rumble.RumbleStops | src/joycon_from_cs.ts:228-237 | counting down in exact arithmetic, a rumble with at most `n` ticks left has no time remaining after `n + 1` ticks, and stays so; the program rounds each step, so there the stop can come one tick later (see "## Left out") |
| Rumble.StaysStill | src/joycon_from_cs.ts:234 | settings with no time remaining never change |
| Rumble.RumblePacket | src/joycon_from_cs.ts:407-443 | eight bytes whose halves are equal; exactly `[0,1,0x40,0x40,0,1,0x40,0x40]` for amplitude 0 |
| Rumble.Clamp | src/joycon_from_cs.ts:97-101 | the result lies in a non-empty range, and a value inside it is kept |
| Rumble.ClampMaxMin | src/joy-con.ts:89-91 | the result is at least min, at most max on a non-empty range, and a value inside is kept |
| Rumble.ClampsAgree | src/joy-con.ts:89-91 | the two clamps agree on every non-empty range; on an empty one they differ for values at or above min |
| Imu.DtIsModular | src/joycon_from_cs.ts:302-303 | for byte timestamps the step is their difference modulo 256 |
| Imu.DtWrapExample | src/joycon_from_cs.ts:302-303 | a timestamp that wrapped past 255 gives a small forward step |
| Imu.Flip | src/joycon_from_cs.ts:308-313 | the left controller negates y and z; the right one is unchanged |
| Imu.FlipInvolution | src/joycon_from_cs.ts:308-313 | flipping twice gives the reading back |
| Imu.SubSamples | src/joycon_from_cs.ts:305-339 | after the three sub-samples the recenter flag is clear; the third sub-sample goes through the fusion whenever an earlier one ran, which leaves the accelerometer as the unit vector opposite its flipped words and the gyroscope as its flipped words times -0.005; a third sub-sample run right after a recenter leaves its words as they are |
| Imu.ProcessImu | src/joycon_from_cs.ts:289-341 | returns -1 and changes nothing when the IMU is off, data is not flowing or the report is not 0x30; otherwise returns the timestamp + 2 and leaves the readings as the fusion changed the third sub-sample in place: the accelerometer normalised and negated, the gyroscope scaled by -0.005 |
| Imu.DenotesExamples | src/joycon_from_cs.ts:324-326 | accelerometer words (0, 0, 4096) end as (0, 0, -1), not (0, 0, 1), and gyroscope words (100, 0, 0) at a step of 1 end as (-0.5, 0, 0) |
| Imu.ProcessImuBasis | src/joycon_from_cs.ts:316-337 | after a recenter the body frame is the identity advanced twice by 1; otherwise it is advanced by the report's step and then twice by 1 |
| Imu.NextStepAfterConsecutiveReports | src/joycon_from_cs.ts:340 | the returned value makes the next consecutive report's step 255 |
| Driver.New | src/joycon_from_cs.ts:123-167 | a new driver is detached, with an empty queue, no timer, a fresh link, the recenter flag raised, zeroed calibration, stick and rumble (no time remaining, nothing pending) and an empty button map |
| Driver.ReadSpis | src/joycon_from_cs.ts:480-531 | a run of flash reads returns one block of data per read |
| Driver.CalibrationPlan | src/joycon_from_cs.ts:480-531 | `getCalibration` makes three to five flash reads |
| Driver.ReadCalibration | src/joycon_from_cs.ts:480-531 | the reads made are exactly the plan; the factory stick block is read exactly when the user one is blank; the factory gyro block is read exactly when the user point is implausible; the stick, deadzone and neutral point are decoded from the blocks used |
| Driver.GetCalibration | src/joycon_from_cs.ts:480-531 | over the controller's flash the reads only append packets, at least three |
| Driver.ReadSpisExtends | src/joycon_from_cs.ts:592-601 | each flash read appends at least one packet and keeps the ones before it |
| Driver.AttachCommands | src/joycon_from_cs.ts:196-202 | seven setup subcommands |
| Driver.Configure | src/joycon_from_cs.ts:196-202 | the setup run appends exactly the seven subcommands, in order |
| Driver.Attach | src/joycon_from_cs.ts:186-204 | sets ATTACHED; on an open handle switches to report mode 3, reads the calibration, sends the setup run and returns; on a handle a `detach` closed, throws at the first write with only the counter advanced; nothing else changes |
| Driver.AttachPackets | src/joycon_from_cs.ts:186-204 | on an open handle `attach` writes the mode switch first and the seven setup subcommands last, keeping earlier packets; on a closed one it writes nothing and throws |
| Driver.AttachPacketsAfter | src/joycon_from_cs.ts:186-204 | the same packet order for any calibration reads that extend the link by three or more packets |
| Driver.Detach | src/joycon_from_cs.ts:205-217 | cancels the timer; sends the four disable subcommands only above NO_JOYCONS, closes only above DROPPED, and ends NOT_ATTACHED; at or below NO_JOYCONS the link changes at most in its close count; above NO_JOYCONS on a closed handle it throws at the first write and keeps the state |
| Driver.DetachTwice | src/joycon_from_cs.ts:205-217 | after a `detach` that returned, a second one changes nothing |
| Driver.ReattachAfterDetach | src/joycon_from_cs.ts:162 | the handle is opened only by the constructor: after a `detach`, `attach` throws without writing, and a further `detach` throws and leaves the driver ATTACHED |
| Driver.ReceiveRaw | src/joycon_from_cs.ts:347-367 | one read: a report is queued with its time and its timestamp returned; a failed read queues nothing and returns 0 |
| Driver.Timestamp | src/joycon_from_cs.ts:363-365 | the returned value is a byte, and non-zero only for a report |
| Driver.Poll | src/joycon_from_cs.ts:459-477 | below ATTACHED nothing but the timer changes; otherwise, on an open handle, a rumble packet is sent, advancing the counter once, only while time remains, the handle stays open, two reads are queued, and the decision comes from the second timestamp; on a closed handle the rumble write throws and ends the loop, and otherwise both reads fail and the poll is silent |
| Driver.PollSeesData | src/joycon_from_cs.ts:464-468 | on an open handle, a second read with a non-zero timestamp sets IMU_DATA_OK and reschedules from attempt 0 |
| Driver.PollOnClosedHandle | src/joycon_from_cs.ts:459-477 | on a closed handle no poll queues a report or writes a packet: without rumble it drops the connection after attempt 1000 and retries before; with rumble it stops with the state unchanged |
| Driver.ImuStep | src/joycon_from_cs.ts:373-381 | without the IMU nothing changes; without fusion the readings are the first sub-sample's words; with fusion it is `processIMU` |
| Driver.ImuAfterLast | src/joycon_from_cs.ts:370-381 | without the IMU the motion state is untouched; without fusion the readings after a drain are the last report's first sub-sample; with fusion, data flowing and a last 0x30 report, they are what the fusion left of its third sub-sample |
| Driver.DrainOutcome | src/joycon_from_cs.ts:370-404 | the drain throws exactly when the second-to-last report has id 0, leaving the newest report queued; otherwise it empties the queue |
| Driver.DrainParses | src/joycon_from_cs.ts:400-403 | the stick and buttons come from the second-to-last report, or stay as they were for a batch of at most one or when the loop throws |
| Driver.DrainTimes | src/joycon_from_cs.ts:388-399 | the dequeue timestamps are those of the last report taken off the queue |
| Driver.Drain | src/joycon_from_cs.ts:370-404 | the drain in full: queue left, stick, buttons, dequeue timestamps and motion state, in terms of the reports taken; a throw leaves the stick and buttons unchanged |
| Driver.ReadReportsQueue | src/joycon_from_cs.ts:368-406 | nothing happens up to NO_JOYCONS; otherwise the queue is drained |
| Driver.SingleReportKeepsStick | src/joycon_from_cs.ts:400-403 | a batch of exactly one report refreshes neither the stick nor the buttons |
| Driver.ConsumerTick | src/joycon_from_cs.ts:449-452 | one tick drains the queue and then advances the rumble timer by the double `1000/60`, which a throw skips |
| Driver.FiftyMsRumbleResets | src/joycon_from_cs.ts:228-237 | three ticks of the double `1000/60` overshoot 50 ms, so a 50 ms rumble is reset to the idle settings on the fourth tick rather than stopping at 0 with its amplitude kept |
| Driver.Recenter | src/joycon_from_cs.ts:342-344 | raises the recenter flag and changes nothing else |
| Driver.RecenterResetsBasis | src/joycon_from_cs.ts:316-321 | after `Recenter` the next 0x30 report leaves the body frame at the identity advanced twice |
| Driver.SetRumble | src/joycon_from_cs.ts:224-227 | ignored up to ATTACHED; otherwise one more pending assignment |
| Driver.FireRumble | src/joycon_from_cs.ts:226 | the fired assignment sets its field and leaves the pending list |
| Driver.AttachedDriverIgnoresRumble | src/joycon_from_cs.ts:224-227 | a driver at ATTACHED queues no rumble, and with no time remaining a poll sends no rumble packet |
| JoyCon.AllJoyCons | src/joy-con.ts:105-116 | the controllers are exactly the listed devices with vendor 1406 and product 0x2006, 0x2007 or 0x2009, each as often as it is listed |
| JoyCon.AllJoyConsAppend | src/joy-con.ts:112-116 | filtering a concatenation filters each part and keeps their order |
| JoyCon.LastStep | src/joy-con.ts:112-116 | a device at the end of the list is kept, at the end, exactly when it is a controller |
| JoyCon.ControllersPass | src/joy-con.ts:112-116 | a list of controllers passes the filter unchanged |
| JoyCon.AllJoyConsIdempotent | src/joy-con.ts:112-116 | filtering twice is filtering once |
| JoyCon.Send | src/joy-con.ts:220-225 | the packet number advances first, modulo 16, into byte 1 of a copy; every other byte of the data is kept |
| JoyCon.SendNumbering | src/joy-con.ts:220-225 | from a fresh handle packet `k` carries `(k + 1) % 16` |
| JoyCon.NumberingIsOneAhead | src/joy-con.ts:221 | packet `k` here carries the number the other driver gives its packet `k + 1` |
| JoyCon.SubcommandFrame | src/joy-con.ts:227-233 | a subcommand frame has 64 bytes |
| JoyCon.SendSubcommand | src/joy-con.ts:227-233 | a subcommand is sent as its frame |
| JoyCon.ParseSubcommand | src/joy-con.ts:227-233 | a frame with the subcommand layout gives its number, subcommand and value |
| JoyCon.SubcommandRoundTrip | src/joy-con.ts:227-233 | a sent subcommand parses back to its number, subcommand and value, and a frame that parses is exactly the frame of what it parses to |
| JoyCon.SendSubcommands | src/joy-con.ts:140-142 | a run of subcommands writes one packet per command, each carrying its command |
| JoyCon.CloseUndoesOpen | src/joy-con.ts:245-250 | the list of features `close` turns off covers the list the constructor turns on (a fact about the two lists, not about the device) |
| JoyCon.LeftFactoryStick | src/joy-con.ts:164-171 | the left centres are 12-bit and each axis is ordered min <= centre <= max |
| JoyCon.RightFactoryStick | src/joy-con.ts:172-179 | the right centres are 12-bit, each axis is ordered, and every extent is below 4096 |
| JoyCon.FactoryStickCal | src/joy-con.ts:164-179 | the left stick is filled in exactly for a left Joy-Con or Pro Controller, the right one exactly for a right Joy-Con or Pro Controller |
| JoyCon.FactoryStickAgrees | src/joy-con.ts:164-179 | given the same block, both decoders give the same centres and extents, except the left y maximum, which agrees exactly when bytes 1 and 2 share their high nibble |
| JoyCon.LeftYMaxExample | src/joy-con.ts:170 | a block where the as-written left y maximum is one more than the packed value |
| JoyCon.DeadzoneAddress | src/joy-con.ts:198 | the deadzone is read at 0x6086 for a left Joy-Con and 0x6098 otherwise, the address the other driver asks for |
| JoyCon.SensorCal | src/joy-con.ts:182-187 | the accelerometer and gyroscope offsets are signed words |
| JoyCon.SensorCalRoundTrip | src/joy-con.ts:182-187 | offsets stored in the block read back unchanged |
| JoyCon.GyroNeutralOf | src/joy-con.ts:201-206 | the neutral point is three signed words |
| JoyCon.GyroNeutralAgrees | src/joy-con.ts:201-206 | given the same block, the two decoders agree on a plausible user neutral point; a blank block reads here as (-1, -1, -1) where the other driver falls back |
| JoyCon.ReadReport30 | src/joy-con.ts:296-363 | buttons for the three controllers only and buttons2 for the Pro Controller only, with their byte pairs; the battery is the high nibble of byte 2; the stick is 12-bit |
| JoyCon.TableBitsInWord | src/joy-con.ts:300-302 | every bit the other driver reads is a bit of the word made of byte 4 and the side byte |
| JoyCon.ButtonWordCarriesTable | src/joy-con.ts:299-302 | for a Joy-Con the 0x30 button word carries every button the other driver reads |
| JoyCon.StickAgrees | src/joy-con.ts:318-320 | for a Joy-Con the raw stick is the other driver's sample; otherwise it is read from bytes 0..2 |
| JoyCon.MotionIsFirstSubSample | src/joy-con.ts:344-350 | the motion words are the first sub-sample, with the gyroscope calibration words (`sensorCal[1]`) as the neutral point |
| JoyCon.SideTable | src/joy-con.ts:252-292 | the left and right button sets, each read from byte 1 or byte 2 |
| JoyCon.SimpleTable | src/joy-con.ts:252-293 | the flags of every product lie in byte 1 or 2 |
| JoyCon.LeftTableOwned | src/joy-con.ts:253-271 | each left button's bit leads back to that button |
| JoyCon.RightTableOwned | src/joy-con.ts:273-291 | each right button's bit leads back to that button |
| JoyCon.SideTableWellFormed | src/joy-con.ts:252-292 | no two buttons of the simple report share a bit |
| JoyCon.ButtonsFromReport3F | src/joy-con.ts:252-294 | each button is its bit; the hat is byte 3 when present; other products give an empty result |
| JoyCon.SimplePress | src/joy-con.ts:252-294 | setting one button's bit makes exactly that button read as pressed |
| JoyCon.SimpleRelease | src/joy-con.ts:252-294 | clearing one button's bit makes exactly that button read as released |

## Left out

- HID transport (`new HID.HID`, `write`, `readSync`, `readTimeout`, `setNonBlocking`, `close`, the `data` event): replaced by the reply oracle and the written-packet log of `Channel.Link` and `JoyCon.Hid`. The node-hid library is not part of this model. On a closed handle, `write` is taken to throw, and `readSync` to throw inside the `try` of `ReceiveRaw`, with `setNonBlocking` not throwing. Closing a handle twice is counted and has no other effect; it can only happen from NO_JOYCONS, which is never entered.
- Timers (`setTimeout`, `setInterval`, `clearTimeout`): `poll` returns the attempt it would schedule, and `setRumble` returns a pending assignment that `Driver.FireRumble` applies.
- The direction-cosine fusion in `processIMU`: floating-point vector algebra. The body frame records only the time steps it was advanced by.
- Imu.ProcessImu: the readings the fusion leaves behind are recorded by what was done to them (`Imu.Reading`), not as computed floating-point vectors. `Imu.Denotes` gives the vector each one stands for in the units of the raw words. The normalisation needs a square root, and the 0.005 · dt scale is exact here rather than rounded.
- Rumble.UpdateRumble: the countdown subtracts the tick exactly, where the program rounds every `rumbleTimeRemaining -= tickRate` to a double. The tick itself is the exact double `1000/60`, but the tick on which the time reaches or passes 0, and with it the reset to the idle settings, can differ by one. For 1000 ms the program still holds about -16.67 after 61 ticks. The same exact-real reading applies to the other floating-point values: the quotient of `Calibration.CenterAxis` and `Calibration.Divide`, the rumble fields and `Imu.Denotes`.
- Floating-point scaling: the accelerometer and gyroscope constants of `extractIMUValues`, `accCalCoeff` and `gyroCalCoeff`, `calcAnalogStick`, the `setGyroOffsets` running mean and `rollingAverage`. Motion values are the raw integer words.
- The non-neutral rumble encoding of `getRumblePacket` (`log2`, rounding, the amplitude curve): it is the input block `encoded`. The clamps it calls are modelled.
- Debug and console output (`debugPrint`, `debugPrintArray`, `hex`, the logging of `beginPolling`), and the duplicate-timestamp messages. `prevEnqueueMessageTime` only feeds those messages and is dropped.
- The 0xA1B2 checks on the user calibration blocks in `joy-con.ts`: they only log.
- `spiRead` of `joy-con.ts` and the flash reads of `initializeCalibration`. `spiRead` puts the whole offset into the single value byte 11 and sends no length. It then returns the first bytes of the raw reply, not flash data from offset 20 as the other driver's `readSPI` does. The decoders of `joy-con.ts` take the block as an input, so the lemmas relating the two drivers say what each decoder makes of the same bytes, not that both drivers read the same bytes.
- `handleData` of `joy-con.ts`, `src/index.ts` and `Report.CopyBuffer`. `src/index.ts` is not part of this model.
- Frames shorter than two bytes: every report from the transport carries a report id and a timestamp (`Js.Frame`).
- JoyCon.Send: requires at least two bytes of data. The only caller passes 64, and a shorter JavaScript array would be grown.
- Driver.SetRumble: states the gate and the count of pending assignments. The pending assignment itself is described by `Rumble.SetRumble`.
- Driver.GetCalibration: states that the reads extend the link. The decoded values are described by `Driver.ReadCalibration` for any flash reader.
- ReceiveRaw's `-2` result when the handle is missing: the model always has a handle, so that branch is not modelled.
