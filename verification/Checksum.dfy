/**
 src/crc16.c: the frame checksum.  Despite its name it is the two's complement of the
 16-bit sum of the bytes, so its strength is that of a sum; the lemmas say exactly how far
 that goes.
 */
module Checksum {
  import opened Bytes

  function ByteSum(s: seq<byte>): nat {
    if s == [] then 0 else ByteSum(s[..|s| - 1]) + s[|s| - 1]
  }

  function Crc(s: seq<byte>): uint16 {
    -(ByteSum(s) as int) % 0x1_0000
  }

  /** The check the reader makes on a packet of body and two-byte trailer. */
  predicate ChecksumValid(packet: seq<byte>)
    requires |packet| >= 2
  {
    Crc(packet[..|packet| - 2]) == FromLe16(packet[|packet| - 2], packet[|packet| - 1])
  }

  /** Splitting a negative sum into a low and a high byte and recombining them is reduction mod 65536. */
  lemma RecombineBytes(x: int)
    ensures (x / 0x100) % 0x100 * 0x100 + x % 0x100 == x % 0x1_0000
  {
    var q, r := x / 0x100, x % 0x100;
    var q1, r1 := q / 0x100, q % 0x100;
    assert x == 0x1_0000 * q1 + (0x100 * r1 + r);
  }

  lemma NegateReduced(x: int)
    ensures -(x % 0x1_0000) % 0x1_0000 == -x % 0x1_0000
  {
    assert -x == 0x1_0000 * -(x / 0x1_0000) - x % 0x1_0000;
  }

  /**
   The loop over the buffer with its 16-bit accumulator, followed by the bytewise
   recombination of `~crc + 1`.  In C `~crc + 1` is computed in `int`, hence `-crc`.
   */
  method Crc16(buffer: array<byte>, length: nat) returns (crc: uint16)
    requires length <= buffer.Length
    ensures crc == Crc(buffer[..length])
  {
    crc := 0;
    var i := 0;
    while i < length
      invariant 0 <= i <= length
      invariant crc == ByteSum(buffer[..i]) % 0x1_0000
    {
      assert buffer[..i + 1][..i] == buffer[..i];
      crc := (crc + buffer[i]) % 0x1_0000;
      i := i + 1;
    }
    var complement := -(crc as int);
    var crc0 := complement % 0x100;
    var crc1 := (complement / 0x100) % 0x100;
    RecombineBytes(complement);
    NegateReduced(ByteSum(buffer[..length]));
    crc := crc1 * 0x100 + crc0;
  }

  /** A packet is accepted exactly when its body sum and its trailer cancel. */
  lemma AcceptedIff(packet: seq<byte>)
    requires |packet| >= 2
    ensures ChecksumValid(packet) <==>
            (ByteSum(packet[..|packet| - 2]) + FromLe16(packet[|packet| - 2], packet[|packet| - 1])) % 0x1_0000 == 0
  {
    var sum: int := ByteSum(packet[..|packet| - 2]);
    var trailer := FromLe16(packet[|packet| - 2], packet[|packet| - 1]);
    var q, r := -sum / 0x1_0000, -sum % 0x1_0000;
    assert sum + trailer == 0x1_0000 * -q + (trailer - r);
  }

  /** A body followed by the bytes of `v` is accepted exactly when `v` is the body's checksum. */
  lemma SealedIff(body: seq<byte>, v: uint16)
    ensures ChecksumValid(body + Le16(v)) <==> v == Crc(body)
  {
    var trailer := Le16(v);
    var packet := body + trailer;
    assert packet[..|packet| - 2] == body && packet[|body|] == trailer[0] && packet[|body| + 1] == trailer[1];
  }

  /** The number of positions at which two strings of equal length differ. */
  ghost function Differences(a: seq<byte>, b: seq<byte>): nat
    requires |a| == |b|
  {
    if a == [] then 0
    else Differences(a[..|a| - 1], b[..|b| - 1]) + if a[|a| - 1] == b[|b| - 1] then 0 else 1
  }

  /** Each changed byte moves the sum by at most 255. */
  lemma {:induction false} SumDistance(a: seq<byte>, b: seq<byte>)
    requires |a| == |b|
    ensures -0xFF * Differences(a, b) <= ByteSum(a) - ByteSum(b) <= 0xFF * Differences(a, b)
  {
    if a != [] {
      SumDistance(a[..|a| - 1], b[..|b| - 1]);
    }
  }

  /** Changing one byte moves the sum by exactly the change. */
  lemma {:induction false} SumOfUpdate(s: seq<byte>, k: nat, b: byte)
    requires k < |s|
    ensures ByteSum(s[k := b]) == ByteSum(s) - s[k] + b
  {
    var n := |s| - 1;
    if k == n {
      assert s[k := b][..n] == s[..n];
    } else {
      SumOfUpdate(s[..n], k, b);
      assert s[k := b][..n] == s[..n][k := b];
    }
  }

  /** No change of a single byte, in the body or in the trailer, goes unnoticed. */
  lemma SingleByteChangeIsRejected(packet: seq<byte>, k: nat, b: byte)
    requires |packet| >= 2 && ChecksumValid(packet)
    requires k < |packet| && b != packet[k]
    ensures !ChecksumValid(packet[k := b])
  {
    var n := |packet| - 2;
    var changed := packet[k := b];
    AcceptedIff(packet);
    AcceptedIff(changed);
    if k < n {
      assert changed[..n] == packet[..n][k := b];
      SumOfUpdate(packet[..n], k, b);
    } else {
      assert changed[..n] == packet[..n];
    }
  }

  /**
   With the trailer kept, up to 257 changed body bytes are accepted exactly when the byte
   sum is unchanged: compensating changes pass, and nothing else does.
   */
  lemma BodyChangeAcceptedIff(body: seq<byte>, changed: seq<byte>)
    requires |body| == |changed| && Differences(body, changed) <= 257
    ensures ChecksumValid(changed + Le16(Crc(body))) <==> ByteSum(changed) == ByteSum(body)
  {
    SealedIff(changed, Crc(body));
    SumDistance(body, changed);
    EqualChecksumsIff(body, changed);
  }

  /** Strings whose sums are less than 65536 apart have the same checksum only if the sums are equal. */
  lemma EqualChecksumsIff(a: seq<byte>, b: seq<byte>)
    requires -0x1_0000 < ByteSum(a) - ByteSum(b) < 0x1_0000
    ensures Crc(a) == Crc(b) <==> ByteSum(a) == ByteSum(b)
  {
    var x: int, y: int := ByteSum(a), ByteSum(b);
    assert -x == 0x1_0000 * (-x / 0x1_0000) + Crc(a);
    assert -y == 0x1_0000 * (-y / 0x1_0000) + Crc(b);
  }

  lemma {:induction false} RepeatedByte(n: nat, b: byte)
    ensures ByteSum(seq(n, _ => b)) == n * b
    ensures Differences(seq(n, _ => 0), seq(n, _ => b)) <= n
  {
    if n > 0 {
      RepeatedByte(n - 1, b);
      assert seq(n, _ => b)[..n - 1] == seq(n - 1, _ => b);
      assert seq(n, _ => 0 as byte)[..n - 1] == seq(n - 1, _ => 0 as byte);
      assert n * b == (n - 1) * b + b;
    }
  }

  /** The bound of 257 is exact: 258 changed bytes can move the sum by 65536 and pass. */
  lemma TwoHundredFiftyEightChangesCanPass() returns (body: seq<byte>, changed: seq<byte>)
    ensures |body| == |changed| && Differences(body, changed) <= 258
    ensures ByteSum(changed) != ByteSum(body)
    ensures ChecksumValid(changed + Le16(Crc(body)))
  {
    var zeros: seq<byte> := seq(257, _ => 0);
    var full: seq<byte> := seq(257, _ => 255);
    body, changed := zeros + [0], full + [1];
    RepeatedByte(257, 0);
    RepeatedByte(257, 255);
    assert body[..257] == zeros && changed[..257] == full;
    assert ByteSum(changed) == 0x1_0000 && ByteSum(body) == 0;
    var packet := changed + Le16(Crc(body));
    assert packet[..258] == changed;
    AcceptedIff(packet);
  }
}
