/** Bit-level encodings shared by both drivers: the 12-bit pairs packed into
    three bytes, little-endian 16-bit words and their signed reading, and
    single-bit flags addressed by (byte offset, mask). */
module Bits {
  import opened Js

  // ---------------------------------------------------------------------
  // Two 12-bit values in three bytes
  // ---------------------------------------------------------------------

  /** `((b1 << 8) & 0xF00) | b0`, which is also `b0 | ((b1 & 0xF) << 8)`:
      the first byte and the low nibble of the middle byte. */
  function Low12(b0: byte, b1: byte): int
  {
    (b1 % 16) * 256 + b0
  }

  /** `(b2 << 4) | (b1 >> 4)`: the high nibble of the middle byte and the
      last byte. */
  function High12(b1: byte, b2: byte): int
  {
    b2 * 16 + b1 / 16
  }

  datatype Pair12 = Pair12(x: int, y: int)

  predicate Is12(v: int) { 0 <= v < 4096 }

  /** The two 12-bit values stored in three consecutive bytes. */
  function Unpack12(b0: byte, b1: byte, b2: byte): (p: Pair12)
    ensures Is12(p.x) && Is12(p.y)
    ensures p.x % 256 == b0 && p.y / 16 == b2
    ensures p.x / 256 == b1 % 16 && p.y % 16 == b1 / 16
  {
    Pair12(Low12(b0, b1), High12(b1, b2))
  }

  /** The three bytes that store two 12-bit values; the inverse of Unpack12. */
  function Pack12(x: int, y: int): (bs: seq<byte>)
    requires Is12(x) && Is12(y)
    ensures |bs| == 3
    ensures Unpack12(bs[0], bs[1], bs[2]) == Pair12(x, y)
  {
    [x % 256, x / 256 + (y % 16) * 16, y / 16]
  }

  /** Unpacking loses nothing: the three bytes come back from the pair. */
  lemma PackUnpack(b0: byte, b1: byte, b2: byte)
    ensures var p := Unpack12(b0, b1, b2); Pack12(p.x, p.y) == [b0, b1, b2]
  {
    var p := Unpack12(b0, b1, b2);
    assert p.x / 256 + (p.y % 16) * 16 == b1 % 16 + (b1 / 16) * 16;
  }

  // ---------------------------------------------------------------------
  // Little-endian 16-bit words
  // ---------------------------------------------------------------------

  /** `lo | ((hi << 8) & 0xFF00)`, also written `lo | hi << 8`. */
  function Word16(lo: byte, hi: byte): (w: int)
    ensures 0 <= w < 65536
    ensures w % 256 == lo && w / 256 == hi
  {
    lo + hi * 256
  }

  /** `unsigned_to_int16`: values above 32768 wrap to negative ones; 32768
      itself is returned unchanged. */
  function UnsignedToInt16(v: int): int
  {
    if v > 32768 then v - 65536 else v
  }

  /** The range UnsignedToInt16 maps the 16-bit words onto: one wider at the
      top and one narrower at the bottom than two's complement. */
  predicate InDriverInt16Range(v: int) { -32767 <= v <= 32768 }

  /** The signed value of a little-endian word, as the drivers read it. */
  function Int16LE(lo: byte, hi: byte): (v: int)
    ensures InDriverInt16Range(v)
    ensures v >= 0 <==> hi < 128 || (hi == 128 && lo == 0)
  {
    UnsignedToInt16(Word16(lo, hi))
  }

  /** The two bytes a value is stored in; the inverse of Int16LE. */
  function EncodeInt16LE(v: int): (bs: seq<byte>)
    requires InDriverInt16Range(v)
    ensures |bs| == 2 && Int16LE(bs[0], bs[1]) == v
  {
    var w := if v < 0 then v + 65536 else v;
    [w % 256, w / 256]
  }

  datatype Vec3 = Vec3(x: int, y: int, z: int)

  predicate VecInRange(v: Vec3)
  {
    InDriverInt16Range(v.x) && InDriverInt16Range(v.y) && InDriverInt16Range(v.z)
  }

  /** Three signed words at bytes `start`, `start + 2` and `start + 4`. */
  function Int16Vec(buf: seq<byte>, start: nat): (v: Vec3)
    ensures VecInRange(v)
  {
    Vec3(Int16LE(At(buf, start), At(buf, start + 1)),
         Int16LE(At(buf, start + 2), At(buf, start + 3)),
         Int16LE(At(buf, start + 4), At(buf, start + 5)))
  }

  /** Int16LE is injective, so no two words read as the same value. */
  lemma Int16LEInjective(lo: byte, hi: byte, lo': byte, hi': byte)
    requires Int16LE(lo, hi) == Int16LE(lo', hi')
    ensures lo == lo' && hi == hi'
  {
    var w, w' := Word16(lo, hi), Word16(lo', hi');
    assert w == w' by {
      if w > 32768 && w' <= 32768 { assert false; }
      if w <= 32768 && w' > 32768 { assert false; }
    }
  }

  /** The word 0x8000 reads as +32768, which lies outside the 16-bit signed
      range, and no word reads as -32768. */
  lemma Int16LEOf0x8000()
    ensures Int16LE(0x00, 0x80) == 32768
    ensures forall lo: byte, hi: byte :: Int16LE(lo, hi) != -32768
  {
  }

  // ---------------------------------------------------------------------
  // Single-bit flags
  // ---------------------------------------------------------------------

  function Pow2(k: nat): (p: nat)
    ensures p >= 1
  {
    if k == 0 then 1 else 2 * Pow2(k - 1)
  }

  /** Bit `k` of `b`, counted from the least significant. For a mask
      `m == 1 << k`, `(b & m) != 0` is exactly `Bit(b, k)`. */
  function Bit(b: nat, k: nat): bool
  {
    if k == 0 then b % 2 == 1 else Bit(b / 2, k - 1)
  }

  /** Adding a clear bit sets it and changes no other bit. */
  lemma {:induction false} SetBit(b: nat, k: nat, j: nat)
    requires !Bit(b, k)
    ensures Bit(b + Pow2(k), j) == (j == k || Bit(b, j))
  {
    if k == 0 {
      if j > 0 {
        assert (b + 1) / 2 == b / 2;
      }
    } else {
      assert (b + Pow2(k)) % 2 == b % 2;
      assert (b + Pow2(k)) / 2 == b / 2 + Pow2(k - 1);
      if j > 0 {
        SetBit(b / 2, k - 1, j - 1);
      }
    }
  }

  /** Subtracting a set bit clears it and changes no other bit. */
  lemma ClearBit(b: nat, k: nat, j: nat)
    requires Bit(b, k)
    ensures b >= Pow2(k)
    ensures Bit(b - Pow2(k), j) == (j != k && Bit(b, j))
  {
    BitBelow(b, k);
    var c := b - Pow2(k);
    assert !Bit(c, k) by { SetBitInverse(c, k); }
    SetBit(c, k, j);
  }

  /** A number with bit k set is at least 2^k. */
  lemma {:induction false} BitBelow(b: nat, k: nat)
    requires Bit(b, k)
    ensures b >= Pow2(k)
  {
    if k > 0 {
      BitBelow(b / 2, k - 1);
    }
  }

  /** Bit k of `c + 2^k` differs from bit k of `c`. */
  lemma {:induction false} SetBitInverse(c: nat, k: nat)
    ensures Bit(c + Pow2(k), k) == !Bit(c, k)
  {
    if k > 0 {
      assert (c + Pow2(k)) / 2 == c / 2 + Pow2(k - 1);
      SetBitInverse(c / 2, k - 1);
    }
  }

  /** Setting a clear bit below 2^n keeps the number below 2^n. */
  lemma {:induction false} SetBitStaysBelow(b: nat, k: nat, n: nat)
    requires b < Pow2(n) && k < n && !Bit(b, k)
    ensures b + Pow2(k) < Pow2(n)
  {
    var h, r, pn := b / 2, b % 2, Pow2(n - 1);
    assert b == 2 * h + r && 0 <= r <= 1;
    assert Pow2(n) == 2 * pn;
    assert h < pn;
    if k == 0 {
      assert r == 0;
    } else {
      var pk := Pow2(k - 1);
      assert Pow2(k) == 2 * pk;
      assert !Bit(h, k - 1);
      SetBitStaysBelow(h, k - 1, n - 1);
      assert h + pk < pn;
    }
  }

  /** The location of a one-bit flag: the byte offset and the bit index of
      its mask. */
  datatype BitRef = BitRef(offset: nat, bit: BitIndex)

  /** A bit of a byte: 0 (mask 0x01) to 7 (mask 0x80). */
  type BitIndex = k: nat | k < 8

  /** The index of a one-bit mask 0x01 .. 0x80. */
  function MaskBit(mask: int): BitIndex
  {
    if mask == 0x01 then 0 else if mask == 0x02 then 1 else if mask == 0x04 then 2
    else if mask == 0x08 then 3 else if mask == 0x10 then 4 else if mask == 0x20 then 5
    else if mask == 0x40 then 6 else 7
  }

  /** The flag read by `(buf[offset] & mask) != 0`. */
  function Ref(offset: nat, mask: int): BitRef
  {
    BitRef(offset, MaskBit(mask))
  }

  predicate IsSet(buf: seq<byte>, r: BitRef)
  {
    Bit(At(buf, r.offset), r.bit)
  }

  /** A table of flags: no two keys share a flag. */
  predicate WellFormed<K>(table: map<K, BitRef>)
  {
    forall k1, k2 :: k1 in table && k2 in table && k1 != k2 ==> table[k1] != table[k2]
  }

  /** A table whose flags each lead back to their key is well formed. */
  lemma WellFormedByOwner<K>(table: map<K, BitRef>, owner: BitRef -> Option<K>)
    requires forall k :: k in table ==> owner(table[k]) == Some(k)
    ensures WellFormed(table)
  {
  }

  /** The flags of a buffer, read through a table. */
  function Decode<K>(table: map<K, BitRef>, buf: seq<byte>): (m: map<K, bool>)
    ensures m.Keys == table.Keys
  {
    map k | k in table :: IsSet(buf, table[k])
  }

  /** The buffer with flag `r` raised. */
  function Press(buf: seq<byte>, r: BitRef): (buf': seq<byte>)
    requires r.offset < |buf|
    ensures |buf'| == |buf|
    ensures forall i :: 0 <= i < |buf| && i != r.offset ==> buf'[i] == buf[i]
    ensures IsSet(buf', r)
  {
    var b := buf[r.offset];
    if Bit(b, r.bit) then buf
    else
      SetBitStaysBelow(b, r.bit, 8);
      SetBit(b, r.bit, r.bit);
      buf[r.offset := b + Pow2(r.bit)]
  }

  /** The buffer with flag `r` lowered. */
  function Release(buf: seq<byte>, r: BitRef): (buf': seq<byte>)
    requires r.offset < |buf|
    ensures |buf'| == |buf|
    ensures forall i :: 0 <= i < |buf| && i != r.offset ==> buf'[i] == buf[i]
    ensures !IsSet(buf', r)
  {
    var b := buf[r.offset];
    if !Bit(b, r.bit) then buf
    else
      ClearBit(b, r.bit, r.bit);
      buf[r.offset := b - Pow2(r.bit)]
  }

  /** Pressing one flag of a well-formed table turns that key on and leaves
      every other key as it was. */
  lemma DecodePress<K>(table: map<K, BitRef>, buf: seq<byte>, key: K)
    requires WellFormed(table) && key in table && table[key].offset < |buf|
    ensures Decode(table, Press(buf, table[key])) == Decode(table, buf)[key := true]
  {
    var r := table[key];
    var buf' := Press(buf, r);
    forall k | k in table
      ensures IsSet(buf', table[k]) == (k == key || IsSet(buf, table[k]))
    {
      if k != key && table[k].offset == r.offset && !Bit(buf[r.offset], r.bit) {
        SetBit(buf[r.offset], r.bit, table[k].bit);
      }
    }
  }

  /** Releasing one flag of a well-formed table turns that key off and leaves
      every other key as it was. */
  lemma DecodeRelease<K>(table: map<K, BitRef>, buf: seq<byte>, key: K)
    requires WellFormed(table) && key in table && table[key].offset < |buf|
    ensures Decode(table, Release(buf, table[key])) == Decode(table, buf)[key := false]
  {
    var r := table[key];
    var buf' := Release(buf, r);
    forall k | k in table
      ensures IsSet(buf', table[k]) == (k != key && IsSet(buf, table[k]))
    {
      if k != key && table[k].offset == r.offset && Bit(buf[r.offset], r.bit) {
        ClearBit(buf[r.offset], r.bit, table[k].bit);
      }
    }
  }
}
