/**
 The fixed-width integers of the C code and their byte images.  The library copies
 `uint16_t` and wider values with `memcpy`; the host is taken to be little-endian.
 */
module Bytes {

  type byte = x: int | 0 <= x < 0x100
  type uint16 = x: int | 0 <= x < 0x1_0000

  /** The two bytes `memcpy` copies out of a `uint16_t`. */
  function Le16(v: uint16): (s: seq<byte>)
    ensures |s| == 2 && FromLe16(s[0], s[1]) == v
  {
    [v % 0x100, v / 0x100]
  }

  /** The `uint16_t` whose bytes in memory are `lo` and `hi`. */
  function FromLe16(lo: byte, hi: byte): uint16 {
    lo + 0x100 * hi
  }

  /** 256 to the power of `width`: the number of values of a `width`-byte integer. */
  ghost function Values(width: nat): (n: nat)
    ensures n > 0
  {
    if width == 0 then 1 else 0x100 * Values(width - 1)
  }

  /** The `width` bytes `memcpy` copies out of an unsigned integer of that width. */
  function ToLe(v: nat, width: nat): (s: seq<byte>)
    ensures |s| == width
  {
    if width == 0 then [] else [v % 0x100] + ToLe(v / 0x100, width - 1)
  }

  /** The unsigned integer whose bytes in memory are `s`. */
  function FromLe(s: seq<byte>): nat {
    if s == [] then 0 else s[0] + 0x100 * FromLe(s[1..])
  }

  /** Each further byte in memory weighs 256 times the one before it, starting from 1. */
  lemma {:induction false} ByteWeights(s: seq<byte>, last: byte)
    ensures FromLe(s + [last]) == FromLe(s) + Values(|s|) * last
  {
    if s != [] {
      ByteWeights(s[1..], last);
      assert (s + [last])[1..] == s[1..] + [last];
      assert Values(|s|) * last == 0x100 * (Values(|s| - 1) * last);
    } else {
      assert s + [last] == [last];
    }
  }

  /** The lower byte comes first in memory, at width 2 as at every width. */
  lemma LowByteFirst(v: uint16, lo: byte, hi: byte)
    ensures Le16(0x1234) == [0x34, 0x12] && FromLe16(0x34, 0x12) == 0x1234
    ensures Le16(v) == ToLe(v, 2) && FromLe16(lo, hi) == FromLe([lo, hi])
  {
    assert ToLe(v / 0x100, 1) == [v / 0x100];
    var one: seq<byte> := [lo];
    ByteWeights(one, hi);
    assert one + [hi] == [lo, hi] && one[1..] == [];
  }

  /** Copying an integer out to memory and back loses nothing, at any width. */
  lemma {:induction false} LeRoundTrip(v: nat, width: nat)
    requires v < Values(width)
    ensures FromLe(ToLe(v, width)) == v
  {
    if width > 0 {
      LeRoundTrip(v / 0x100, width - 1);
      assert ToLe(v, width)[1..] == ToLe(v / 0x100, width - 1);
    }
  }
}
