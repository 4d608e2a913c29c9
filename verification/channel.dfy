/** The command channel of `joycon_from_cs.ts`: framing with the cycling
    message counter (`sendRaw`), subcommand packets (`sendSubcommand`), and
    the SPI flash read that retries until the reply echoes the address
    (`readSPI`). The device is an oracle: the replies its reads will return,
    in order. */
module Channel {
  import opened Js

  /** Nintendo's USB vendor id and the product ids of the controllers. */
  const VendorNintendo := 1406
  const ProductLeft := 0x2006
  const ProductRight := 0x2007
  const ProductPro := 0x2009

  // Subcommand ids
  const BluetoothManualPairing := 0x01
  const SetInputReportMode := 0x03
  const SetLed := 0x30
  const EnableImu := 0x40
  const EnableVibration := 0x48

  const SendTypeSubcommand := 0x01
  const SendTypeRumble := 0x10
  const SpiFlashRead := 0x10

  /** The neutral rumble bytes carried by every subcommand packet. */
  const NeutralRumble: seq<int> := [0x00, 0x01, 0x40, 0x40, 0x00, 0x01, 0x40, 0x40]

  /** The attempt cap of `readSPI`. */
  const SpiAttempts := 100

  /** The HID handle: the message counter, every packet written so far, the
      replies the coming reads will return (`None` is a timeout or a read
      error; an exhausted list reads as `None`), and how often it was
      closed. The handle is opened once, by the constructor, so it is open
      until the first close. */
  datatype Link = Link(counter: nat, sent: seq<seq<int>>, inbox: seq<Option<Frame>>, closes: nat)
  {
    predicate Open() { closes == 0 }
  }

  /** `sendRaw` on a closed handle: the counter has already advanced when
      the write throws, and nothing is written. */
  function SendRawClosed(l: Link): (l': Link)
    requires !l.Open()
    ensures l'.sent == l.sent && l'.inbox == l.inbox && !l'.Open()
    ensures l'.counter == NextCounter(l.counter)
  {
    l.(counter := NextCounter(l.counter))
  }

  /** The counter after one packet: 15 wraps to 0. */
  function NextCounter(c: nat): (c': nat)
    ensures c < 16 ==> c' == (c + 1) % 16
  {
    if c == 0xF then 0 else c + 1
  }

  /** The counter after `n` packets. */
  function AdvanceCounter(c: nat, n: nat): nat
    decreases n
  {
    if n == 0 then c else AdvanceCounter(NextCounter(c), n - 1)
  }

  /** From a counter in 0..15, `n` packets advance it by `n` modulo 16. */
  lemma {:induction false} AdvanceCounterMod(c: nat, n: nat)
    requires c < 16
    ensures AdvanceCounter(c, n) == (c + n) % 16
    decreases n
  {
    if n > 0 {
      AdvanceCounterMod(NextCounter(c), n - 1);
    }
  }

  /** `sendRaw`: writes `[sendType, counter, ...data]` and advances the
      counter. */
  function SendRaw(l: Link, data: seq<int>, sendType: int): (l': Link)
    ensures l'.sent == l.sent + [[sendType, l.counter] + data]
    ensures l'.counter == NextCounter(l.counter)
    ensures l'.inbox == l.inbox && l'.closes == l.closes
  {
    l.(sent := l.sent + [[sendType, l.counter] + data], counter := NextCounter(l.counter))
  }

  /** The reply of the `i`-th coming read. */
  function ReplyAt(inbox: seq<Option<Frame>>, i: nat): Option<Frame>
  {
    if i < |inbox| then inbox[i] else None
  }

  /** The inbox after `n` reads. */
  function Consume(inbox: seq<Option<Frame>>, n: nat): seq<Option<Frame>>
  {
    if n <= |inbox| then inbox[n..] else []
  }

  /** After `n` reads, the `i`-th coming reply is the one that was `n + i`
      replies away. */
  lemma ConsumeReplies(inbox: seq<Option<Frame>>, n: nat, i: nat)
    ensures ReplyAt(Consume(inbox, n), i) == ReplyAt(inbox, n + i)
  {
  }

  lemma ConsumeTwice(inbox: seq<Option<Frame>>, m: nat, n: nat)
    ensures Consume(Consume(inbox, m), n) == Consume(inbox, m + n)
  {
  }

  /** `readTimeout(50)`: the next reply, or an empty buffer on a timeout. */
  function ReadTimeout(l: Link): (r: (Link, seq<byte>))
    ensures r.0 == l.(inbox := Consume(l.inbox, 1))
    ensures r.1 == (match ReplyAt(l.inbox, 0) case Some(f) => f case None => [])
  {
    var reply := match ReplyAt(l.inbox, 0) case Some(f) => f case None => [];
    (l.(inbox := Consume(l.inbox, 1)), reply)
  }

  /** `readSync()`: the next reply, or `None` when the read throws. */
  function ReadSync(l: Link): (r: (Link, Option<Frame>))
    ensures r.0 == l.(inbox := Consume(l.inbox, 1)) && r.1 == ReplyAt(l.inbox, 0)
  {
    (l.(inbox := Consume(l.inbox, 1)), ReplyAt(l.inbox, 0))
  }

  /** The packet `sendSubcommand` writes. */
  function SubcommandPacket(counter: nat, command: int, data: seq<int>): (p: seq<int>)
    ensures |p| == 11 + |data|
    ensures p[0] == SendTypeSubcommand && p[1] == counter
    ensures p[2..10] == NeutralRumble && p[10] == command && p[11..] == data
  {
    [SendTypeSubcommand, counter] + (NeutralRumble + [command] + data)
  }

  /** `sendSubcommand`: one framed packet, then one read with a timeout. */
  function SendSubcommand(l: Link, command: int, data: seq<int>): (r: (Link, seq<byte>))
    ensures r.0.sent == l.sent + [SubcommandPacket(l.counter, command, data)]
    ensures r.0.counter == NextCounter(l.counter)
    ensures r.0.inbox == Consume(l.inbox, 1) && r.0.closes == l.closes
    ensures r.1 == (match ReplyAt(l.inbox, 0) case Some(f) => f case None => [])
  {
    ReadTimeout(SendRaw(l, NeutralRumble + [command] + data, SendTypeSubcommand))
  }

  /** A run of subcommands, in order. */
  function SendSubcommands(l: Link, commands: seq<(int, seq<int>)>): (l': Link)
    ensures |l'.sent| == |l.sent| + |commands|
    ensures l'.sent[..|l.sent|] == l.sent
    ensures l'.inbox == Consume(l.inbox, |commands|) && l'.closes == l.closes
    ensures l'.counter == AdvanceCounter(l.counter, |commands|)
    ensures forall i :: 0 <= i < |commands| ==>
              l'.sent[|l.sent| + i] == SubcommandPacket(AdvanceCounter(l.counter, i), commands[i].0, commands[i].1)
    decreases |commands|
  {
    if |commands| == 0 then l
    else
      var n := |commands| - 1;
      var l0 := SendSubcommands(l, commands[..n]);
      var l' := SendSubcommand(l0, commands[n].0, commands[n].1).0;
      assert l'.sent == l0.sent + [SubcommandPacket(l0.counter, commands[n].0, commands[n].1)];
      assert forall i :: 0 <= i < n ==> commands[..n][i] == commands[i];
      assert l'.counter == AdvanceCounter(l.counter, |commands|) by {
        AdvanceCounterAppend(l.counter, n);
      }
      l'
  }

  /** One more packet after `n` advances the counter once more. */
  lemma {:induction false} AdvanceCounterAppend(c: nat, n: nat)
    ensures AdvanceCounter(c, n + 1) == NextCounter(AdvanceCounter(c, n))
    decreases n
  {
    if n > 0 {
      AdvanceCounterAppend(NextCounter(c), n - 1);
    }
  }

  /** The reply to a flash read echoes the requested address at bytes 15
      (low) and 16 (high). */
  predicate Echoes(reply: seq<byte>, addrHigh: int, addrLow: int)
  {
    ElementIs(reply, 15, addrLow) && ElementIs(reply, 16, addrHigh)
  }

  /** The bytes a read reply carries: an empty buffer for a timeout. */
  function Bytes(reply: Option<Frame>): seq<byte>
  {
    match reply case Some(f) => f case None => []
  }

  datatype SpiRead = SpiRead(link: Link, data: seq<byte>, attempts: nat)

  /** The payload of a flash read request. */
  function SpiRequest(addrHigh: int, addrLow: int, len: nat): seq<int>
  {
    [addrLow, addrHigh, 0x00, 0x00, len]
  }

  /** Attempts `i + 1, i + 2, ...` of `readSPI`, over the replies they will
      read: ask, and stop at the first reply that echoes the address or
      after the last allowed attempt. The result is the number of attempts
      made and the data: the last reply's `len` bytes from offset 20. The
      replies do not depend on what is written, so the requests themselves
      are sent by ReadSpi. */
  function SpiSearch(replies: seq<Option<Frame>>, addrHigh: int, addrLow: int, len: nat, i: nat): (r: (nat, seq<byte>))
    requires i < SpiAttempts
    ensures 1 <= r.0 <= SpiAttempts - i
    ensures forall j :: 0 <= j < r.0 - 1 ==> !Echoes(Bytes(ReplyAt(replies, j)), addrHigh, addrLow)
    ensures Echoes(Bytes(ReplyAt(replies, r.0 - 1)), addrHigh, addrLow) || i + r.0 == SpiAttempts
    ensures r.1 == Slice(Bytes(ReplyAt(replies, r.0 - 1)), 20, 20 + len)
    decreases SpiAttempts - i
  {
    var reply := Bytes(ReplyAt(replies, 0));
    if Echoes(reply, addrHigh, addrLow) || i == SpiAttempts - 1 then
      (1, Slice(reply, 20, 20 + len))
    else
      var r := SpiSearch(Consume(replies, 1), addrHigh, addrLow, len, i + 1);
      assert forall j :: 1 <= j ==> ReplyAt(replies, j) == ReplyAt(Consume(replies, 1), j - 1);
      (r.0 + 1, r.1)
  }

  /** `n` flash read requests for the same block. */
  function SpiRequests(addrHigh: int, addrLow: int, len: nat, n: nat): (commands: seq<(int, seq<int>)>)
    ensures |commands| == n
    ensures forall i :: 0 <= i < n ==> commands[i] == (SpiFlashRead, SpiRequest(addrHigh, addrLow, len))
  {
    seq(n, _ => (SpiFlashRead, SpiRequest(addrHigh, addrLow, len)))
  }

  /** `readSPI(addrHigh, addrLow, len)`: one flash read subcommand per
      attempt, each followed by one read. */
  function ReadSpi(l: Link, addrHigh: int, addrLow: int, len: nat): (r: SpiRead)
    ensures 1 <= r.attempts <= SpiAttempts
    ensures forall j :: 0 <= j < r.attempts - 1 ==> !Echoes(Bytes(ReplyAt(l.inbox, j)), addrHigh, addrLow)
    ensures Echoes(Bytes(ReplyAt(l.inbox, r.attempts - 1)), addrHigh, addrLow) || r.attempts == SpiAttempts
    ensures r.data == Slice(Bytes(ReplyAt(l.inbox, r.attempts - 1)), 20, 20 + len)
    ensures |r.data| <= len
    ensures r.link.inbox == Consume(l.inbox, r.attempts) && r.link.closes == l.closes
    ensures |r.link.sent| == |l.sent| + r.attempts && r.link.sent[..|l.sent|] == l.sent
    ensures r.link.counter == AdvanceCounter(l.counter, r.attempts)
    ensures r.link == SendSubcommands(l, SpiRequests(addrHigh, addrLow, len, r.attempts))
  {
    var (n, data) := SpiSearch(l.inbox, addrHigh, addrLow, len, 0);
    SpiRead(SendSubcommands(l, SpiRequests(addrHigh, addrLow, len, n)), data, n)
  }

  /** When one of the first hundred replies echoes the address, the read
      stops at the first such reply and returns its data. */
  lemma ReadSpiFindsFirstEcho(l: Link, addrHigh: int, addrLow: int, len: nat, k: nat)
    requires k < SpiAttempts && Echoes(Bytes(ReplyAt(l.inbox, k)), addrHigh, addrLow)
    requires forall j :: 0 <= j < k ==> !Echoes(Bytes(ReplyAt(l.inbox, j)), addrHigh, addrLow)
    ensures ReadSpi(l, addrHigh, addrLow, len).attempts == k + 1
    ensures ReadSpi(l, addrHigh, addrLow, len).data == Slice(Bytes(ReplyAt(l.inbox, k)), 20, 20 + len)
  {
    var r := ReadSpi(l, addrHigh, addrLow, len);
    FirstMatch(r.attempts, k, (j: nat) => Echoes(Bytes(ReplyAt(l.inbox, j)), addrHigh, addrLow));
  }

  /** A search that stops at the first match, or after its last attempt,
      stops at the first match whenever one lies within reach. */
  lemma FirstMatch(attempts: nat, k: nat, matches: nat -> bool)
    requires 1 <= attempts <= SpiAttempts && k < SpiAttempts
    requires matches(k) && forall j :: 0 <= j < k ==> !matches(j)
    requires forall j :: 0 <= j < attempts - 1 ==> !matches(j)
    requires matches(attempts - 1) || attempts == SpiAttempts
    ensures attempts == k + 1
  {
    if attempts - 1 < k {
      assert false;
    } else if attempts - 1 > k {
      assert false;
    }
  }

  /** When none of the first hundred replies echoes the address, the read
      gives up after a hundred requests and returns whatever the last reply
      held. */
  lemma ReadSpiGivesUp(l: Link, addrHigh: int, addrLow: int, len: nat)
    requires forall j :: 0 <= j < SpiAttempts ==> !Echoes(Bytes(ReplyAt(l.inbox, j)), addrHigh, addrLow)
    ensures ReadSpi(l, addrHigh, addrLow, len).attempts == SpiAttempts
    ensures ReadSpi(l, addrHigh, addrLow, len).data == Slice(Bytes(ReplyAt(l.inbox, SpiAttempts - 1)), 20, 20 + len)
  {
  }
}
