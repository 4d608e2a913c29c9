/** The slice of JavaScript value semantics the driver relies on: optional
    values, thrown errors, reading a buffer past its end, and `Array.slice`. */
module Js {

  /** A byte of a HID buffer. */
  type byte = x: int | 0 <= x < 256

  /** A report as delivered by the HID transport: at least a report id and a
      timestamp byte. */
  type Frame = s: seq<byte> | |s| >= 2 witness [0, 0]

  datatype Option<+T> = None | Some(value: T)

  /** The outcome of a call that may throw. */
  datatype Outcome<+T> = Returned(value: T) | Threw

  /** `buf[i]` used as an operand of a bitwise operator: a missing element is
      `undefined`, which the bitwise operators read as 0. */
  function At(buf: seq<byte>, i: int): byte
  {
    if 0 <= i < |buf| then buf[i] else 0
  }

  /** `buf[i] == v` for a number `v`: a missing element is `undefined`, which
      equals no number. */
  predicate ElementIs(buf: seq<byte>, i: int, v: int)
  {
    0 <= i < |buf| && buf[i] == v
  }

  function Min(a: int, b: int): int { if a < b then a else b }

  /** `buf.slice(start, end)` for `0 <= start <= end`: the part of the range
      that lies inside the buffer. */
  function Slice(buf: seq<byte>, start: nat, end: nat): (r: seq<byte>)
    requires start <= end
    ensures |r| <= end - start
    ensures |buf| >= end ==> |r| == end - start
    ensures forall i :: 0 <= i < |r| ==> start + i < |buf| && r[i] == buf[start + i]
    ensures start + |r| == end || start + |r| == |buf| || |r| == 0
  {
    if |buf| <= start then [] else buf[start..Min(end, |buf|)]
  }
}
