/** Rumble bookkeeping of `joycon_from_cs.ts`: the deferred `setRumble`
    assignment, the `updateRumble` tick, and the neutral branch of
    `getRumblePacket`. The timer is modelled as a list of pending
    assignments; the non-neutral encoding (logarithms and rounding) is an
    input block. */
module Rumble {
  import opened Lifecycle

  datatype Key = FreqLow | FreqHigh | Amplitude | TimeRemaining

  /** The four rumble fields of the driver; all start at 0. */
  datatype Settings = Settings(freqLow: real, freqHigh: real, amplitude: real, remaining: real)
  {
    function Get(key: Key): real
    {
      match key
      case FreqLow => freqLow
      case FreqHigh => freqHigh
      case Amplitude => amplitude
      case TimeRemaining => remaining
    }
  }

  const Initial := Settings(0.0, 0.0, 0.0, 0.0)

  /** The settings `updateRumble` resets to once the time has run out. */
  const Idle := Settings(320.0, 160.0, 0.0, 0.0)

  /** An assignment waiting on its timer: `this[key] = value` after
      `delay` milliseconds. */
  datatype Pending = Pending(key: Key, value: real, delay: real)

  function MaxReal(a: real, b: real): real { if a > b then a else b }

  /** `setRumble(key, value)`: ignored until the driver is past Attached;
      otherwise the assignment is deferred by the time remaining, or by 0
      once that has gone negative. */
  function SetRumble(state: Attachment, s: Settings, pending: seq<Pending>, key: Key, value: real): (p: seq<Pending>)
    ensures !Above(state, Attached) ==> p == pending
    ensures Above(state, Attached) ==>
              && |p| == |pending| + 1 && p[..|pending|] == pending
              && p[|pending|].key == key && p[|pending|].value == value
              && p[|pending|].delay >= 0.0
              && (s.remaining >= 0.0 ==> p[|pending|].delay == s.remaining)
              && (s.remaining < 0.0 ==> p[|pending|].delay == 0.0)
  {
    if !Above(state, Attached) then pending
    else pending + [Pending(key, value, MaxReal(s.remaining, 0.0))]
  }

  /** The timer of a pending assignment firing: the one field changes. */
  function Assign(s: Settings, key: Key, value: real): (s': Settings)
    ensures s'.Get(key) == value
    ensures forall k :: k != key ==> s'.Get(k) == s.Get(k)
  {
    match key
    case FreqLow => s.(freqLow := value)
    case FreqHigh => s.(freqHigh := value)
    case Amplitude => s.(amplitude := value)
    case TimeRemaining => s.(remaining := value)
  }

  /** Fire the `i`-th pending assignment. */
  function Fire(s: Settings, pending: seq<Pending>, i: nat): (r: (Settings, seq<Pending>))
    requires i < |pending|
    ensures r.0.Get(pending[i].key) == pending[i].value
    ensures |r.1| == |pending| - 1
    ensures multiset(r.1) + multiset{pending[i]} == multiset(pending)
  {
    assert pending == pending[..i] + [pending[i]] + pending[i + 1..];
    (Assign(s, pending[i].key, pending[i].value), pending[..i] + pending[i + 1..])
  }

  /** `updateRumble(tickRate)`. */
  function UpdateRumble(s: Settings, tick: real): (s': Settings)
    ensures s.remaining < 0.0 ==> s' == Idle
    ensures s.remaining >= 0.0 ==> s'.freqLow == s.freqLow && s'.freqHigh == s.freqHigh && s'.amplitude == s.amplitude
    ensures s.remaining == 0.0 ==> s' == s
    ensures s.remaining > 0.0 ==> s'.remaining == s.remaining - tick
  {
    if s.remaining < 0.0 then Idle
    else if s.remaining != 0.0 then s.(remaining := s.remaining - tick)
    else s
  }

  /** The settings after `n` ticks. */
  function Ticks(s: Settings, tick: real, n: nat): Settings
    decreases n
  {
    if n == 0 then s else Ticks(UpdateRumble(s, tick), tick, n - 1)
  }

  /** Once idle, ticks change nothing. */
  lemma {:induction false} IdleIsFixed(tick: real, n: nat)
    ensures Ticks(Idle, tick, n) == Idle
    decreases n
  {
    if n > 0 {
      IdleIsFixed(tick, n - 1);
    }
  }

  /** A rumble with time left stops: counting down in exact arithmetic, if
      the remaining time is at most `n` ticks, then `n + 1` ticks later the time remaining is 0, and it stays
      0. Either the count lands exactly on 0 and the other fields keep
      their values, or it overshoots below 0 and the next tick resets to
      Idle. */
  lemma {:induction false} RumbleStops(s: Settings, tick: real, n: nat)
    requires tick > 0.0 && 0.0 <= s.remaining <= (n as real) * tick
    ensures Ticks(s, tick, n + 1).remaining == 0.0
    ensures forall m: nat :: m >= n + 1 ==> Ticks(s, tick, m).remaining == 0.0
    decreases n
  {
    if s.remaining == 0.0 {
      forall m: nat | m >= n + 1
        ensures Ticks(s, tick, m).remaining == 0.0
      {
        StaysStill(s, tick, m);
      }
    } else {
      var s1 := UpdateRumble(s, tick);
      if s1.remaining < 0.0 {
        forall m: nat | m >= n + 1
          ensures Ticks(s, tick, m).remaining == 0.0
        {
          IdleIsFixed(tick, m - 2);
        }
      } else {
        assert n > 0 by {
          if n == 0 { assert false; }
        }
        RumbleStops(s1, tick, n - 1);
        forall m: nat | m >= n + 1
          ensures Ticks(s, tick, m).remaining == 0.0
        {
          assert Ticks(s, tick, m) == Ticks(s1, tick, m - 1);
        }
      }
    }
  }

  /** Settings with no time remaining are never changed by ticks. */
  lemma {:induction false} StaysStill(s: Settings, tick: real, n: nat)
    requires s.remaining == 0.0
    ensures Ticks(s, tick, n) == s
    decreases n
  {
    if n > 0 {
      StaysStill(s, tick, n - 1);
    }
  }

  /** Four bytes of an encoded rumble: `[hf, hf_amp, lf, lf_amp]`. */
  datatype Block4 = Block4(b0: int, b1: int, b2: int, b3: int)
  {
    function Bytes(): seq<int> { [b0, b1, b2, b3] }
  }

  /** The block for no vibration. */
  const NeutralBlock := Block4(0x00, 0x01, 0x40, 0x40)

  /** `getRumblePacket`: one block, repeated for both motors. An amplitude
      of 0 gives the neutral block; any other amplitude gives the block
      encoded from the frequencies, which is an input here. */
  function RumblePacket(amplitude: real, encoded: Block4): (p: seq<int>)
    ensures |p| == 8 && p[..4] == p[4..]
    ensures amplitude == 0.0 ==> p == [0x00, 0x01, 0x40, 0x40, 0x00, 0x01, 0x40, 0x40]
    ensures amplitude != 0.0 ==> p[..4] == encoded.Bytes()
  {
    var block := if amplitude == 0.0 then NeutralBlock else encoded;
    block.Bytes() + block.Bytes()
  }

  /** `clamp(x, min, max)` of `joycon_from_cs.ts`: below `min` gives `min`,
      else above `max` gives `max`. */
  function Clamp(x: real, lo: real, hi: real): (r: real)
    ensures lo <= hi ==> lo <= r <= hi
    ensures lo <= x <= hi ==> r == x
  {
    if x < lo then lo else if x > hi then hi else x
  }

  /** `clamp(num, min, max)` of `joy-con.ts`: `Math.max(min, Math.min(max,
      num))`. */
  function ClampMaxMin(x: real, lo: real, hi: real): (r: real)
    ensures r >= lo
    ensures lo <= hi ==> r <= hi
    ensures lo <= x <= hi ==> r == x
  {
    var m := if hi < x then hi else x;
    if lo > m then lo else m
  }

  /** The two clamps agree on every well-formed range; on an empty range
      (`min > max`) the first returns `max` for inputs at or above `min`
      where the second always returns `min`. */
  lemma ClampsAgree(x: real, lo: real, hi: real)
    ensures lo <= hi ==> Clamp(x, lo, hi) == ClampMaxMin(x, lo, hi)
    ensures lo > hi ==> ClampMaxMin(x, lo, hi) == lo
    ensures lo > hi && x >= lo ==> Clamp(x, lo, hi) == hi
  {
  }
}
