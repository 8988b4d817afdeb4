/**
 The frame as a value: what the writer of src/conbee.c puts into a packet, what the reader
 makes of a received packet, and when the second undoes the first.
 */
module Frames {
  import opened Wrappers
  import opened Bytes
  import opened Checksum
  import Slip

  /** The writer's buffer (src/conbee.c:269). */
  const WRITE_BUFFER := 1000
  /** The reader's buffer (src/conbee.c:316). */
  const READ_BUFFER := 1500

  const COMMAND_ANY: byte := 0xFF

  /** `payload_length` is a `uint16_t`. */
  type Payload = s: seq<byte> | |s| < 0x1_0000

  /** `struct conbee_frame`; `payload_length` is the length of `payload`. */
  datatype Frame = Frame(command: byte, sequenceNumber: byte, status: byte, length: uint16, payload: Payload)

  /** `conbee_init_frame` */
  const INIT_FRAME := Frame(0, 0, 0, 0, [])

  /** The bytes the writer stores before adding the checksum; the status of a request is always 0. */
  function Body(f: Frame): seq<byte> {
    [f.command, f.sequenceNumber, 0] + Le16(f.length)
    + if |f.payload| > 0 then Le16(|f.payload|) + f.payload else []
  }

  /** The frame fits the writer's buffer, and its length field covers only bytes that were stored. */
  predicate Writable(f: Frame) {
    |Body(f)| <= WRITE_BUFFER && f.length <= |Body(f)| && f.length + 2 <= WRITE_BUFFER
  }

  /** The length field counts exactly the bytes stored: 5, or 7 and the payload. */
  predicate WellFormed(f: Frame) {
    f.length == |Body(f)|
  }

  /** The packet the writer hands to the SLIP layer: `length` bytes and their checksum. */
  function Serialise(f: Frame): (packet: seq<byte>)
    requires Writable(f)
    ensures |packet| == f.length + 2
  {
    Body(f)[..f.length] + Le16(Crc(Body(f)[..f.length]))
  }

  /**
   The writer, byte by byte: what is stored of a frame, when it fits, and the trailer, which
   makes the packet add up to 0 modulo 65536.
   */
  lemma WireLayout(f: Frame)
    ensures var payload := if f.payload == [] then [] else [|f.payload| % 0x100, |f.payload| / 0x100] + f.payload;
            && Body(f) == [f.command, f.sequenceNumber, 0, f.length % 0x100, f.length / 0x100] + payload
            && (WellFormed(f) <==> f.length == 5 + |payload|)
            && (Writable(f) <==> |payload| <= 995 && f.length <= 998 && f.length <= 5 + |payload|)
    ensures Writable(f) ==>
              var packet, n := Serialise(f), f.length;
              && packet[..n] == Body(f)[..n]
              && (ByteSum(packet[..n]) + FromLe16(packet[n], packet[n + 1])) % 0x1_0000 == 0
  {
    if Writable(f) {
      var body := Body(f)[..f.length];
      SealedIff(body, Crc(body));
      AcceptedIff(Serialise(f));
      assert Serialise(f)[..f.length] == body;
    }
  }

  /** The reader rejects a packet, accepts it as a frame, or uses bytes that are not in the packet. */
  datatype ReadOutcome = Rejected | Accepted(frame: Frame) | Undetermined

  /**
   `conbee_read_frame` after a packet has been received.  A packet of one byte has no trailer;
   one of two to four bytes that passes the check does not hold a whole header; and for six
   bytes `err - 5 - 2` wraps, so the reader copies more payload than was received.  A packet
   of five bytes has its trailer read again as the length field.
   */
  function ReadPacket(packet: seq<byte>): ReadOutcome
    requires |packet| <= READ_BUFFER
  {
    if |packet| < 2 then Undetermined
    else if !ChecksumValid(packet) then Rejected
    else if |packet| == 5 then
      Accepted(Frame(packet[0], packet[1], packet[2], FromLe16(packet[3], packet[4]), []))
    else if |packet| < 7 then Undetermined
    else
      Accepted(Frame(packet[0], packet[1], packet[2], FromLe16(packet[3], packet[4]), packet[5..|packet| - 2]))
  }

  /**
   The reader, byte by byte.  A packet of 2 to 1500 bytes is rejected exactly when its bytes
   and its little-endian trailer do not add up to 0 modulo 65536, whatever else it says; and
   one of five, or at least seven, bytes that adds up is read field by field.
   */
  lemma ReadPacketIff(packet: seq<byte>)
    requires 2 <= |packet| <= 1500
    ensures var n := |packet| - 2;
            ReadPacket(packet).Rejected?
            <==> (ByteSum(packet[..n]) + FromLe16(packet[n], packet[n + 1])) % 0x1_0000 != 0
    ensures !ReadPacket(packet).Rejected? && (|packet| == 5 || |packet| >= 7) ==>
              ReadPacket(packet) ==
              Accepted(Frame(packet[0], packet[1], packet[2], FromLe16(packet[3], packet[4]),
                             if |packet| == 5 then [] else packet[5..|packet| - 2]))
  {
    AcceptedIff(packet);
  }

  /** The packet of a frame the stick sends: any status, and a payload that includes its own length bytes, if any. */
  function StickPacket(f: Frame): (packet: seq<byte>)
    ensures |packet| == 7 + |f.payload|
  {
    var body := [f.command, f.sequenceNumber, f.status] + Le16(f.length) + f.payload;
    body + Le16(Crc(body))
  }

  /** Every frame of the stick that fits the reader's buffer is read as it is, with its status. */
  lemma StickRoundTrip(f: Frame)
    requires |f.payload| <= 1493
    ensures ReadPacket(StickPacket(f)) == Accepted(f)
  {
    var body := [f.command, f.sequenceNumber, f.status] + Le16(f.length) + f.payload;
    SealedIff(body, Crc(body));
    assert StickPacket(f)[..5] == body[..5];
    assert StickPacket(f)[5..|body|] == f.payload;
  }

  /** What a packet that was not rejected makes of a frame; bytes behind the packet can be anything. */
  ghost predicate Loaded(packet: seq<byte>, before: Frame, after: Frame)
    requires 0 < |packet| <= READ_BUFFER
  {
    match ReadPacket(packet)
    case Rejected => false
    case Accepted(f) => after == if |packet| == 5 then f.(payload := before.payload) else f
    case Undetermined =>
      && after.command == packet[0]
      && (|packet| > 1 ==> after.sequenceNumber == packet[1])
      && (|packet| > 2 ==> after.status == packet[2])
      && (|packet| > 3 ==> after.length % 0x100 == packet[3])
      && if |packet| < 6 then after.payload == before.payload
         else
           && after.length == FromLe16(packet[3], packet[4])
           && |after.payload| == 0xFFFF && after.payload[0] == packet[5]
  }

  /**
   `frame` is what the reader can leave in an initialised frame.  For a packet of one byte the
   check itself depends on memory outside the packet.
   */
  ghost predicate ReadsAs(packet: seq<byte>, frame: Frame)
    requires |packet| <= READ_BUFFER
  {
    if ReadPacket(packet).Rejected? then frame == INIT_FRAME
    else packet != [] && (Loaded(packet, INIT_FRAME, frame) || (|packet| == 1 && frame == INIT_FRAME))
  }

  /** The packet the reader takes from a line with these bytes, if a whole one is there. */
  ghost function NextPacket(pending: seq<byte>): (packet: Option<seq<byte>>)
    ensures packet.Some? ==> |packet.value| <= READ_BUFFER
  {
    match Slip.Receive(pending, [])
    case Blocked => None
    case Packet(data, _) => Some(Slip.Clip(data, READ_BUFFER))
  }

  /** What the stick's echo of a request reads as: status 0, and the payload behind its own 16-bit length. */
  function Echo(f: Frame): Frame
    requires |f.payload| <= WRITE_BUFFER
  {
    f.(status := 0, payload := if f.payload == [] then [] else Le16(|f.payload|) + f.payload)
  }

  /**
   The frame round trip, exactly.  Reading what was written gives back the frame's command,
   sequence number, length and payload if and only if the length field counts the bytes that
   were stored.
   */
  lemma RoundTripIff(f: Frame)
    requires Writable(f)
    ensures ReadPacket(Serialise(f)) == Accepted(Echo(f)) <==> WellFormed(f)
  {
    var body := Body(f)[..f.length];
    SealedIff(body, Crc(body));
    assert Serialise(f)[..f.length] == body;
    if f.length >= 5 {
      ReadBack(f);
    } else if f.length == 3 {
      HeaderSum(body);
    }
  }

  /** A packet long enough for a header reads back as its first five bytes and the part of the payload it covers. */
  lemma ReadBack(f: Frame)
    requires Writable(f) && f.length >= 5
    ensures ReadPacket(Serialise(f)) == Accepted(Echo(f).(payload := Echo(f).payload[..f.length - 5]))
  {
    var g := Echo(f).(payload := Echo(f).payload[..f.length - 5]);
    var header := [f.command, f.sequenceNumber, 0] + Le16(f.length);
    assert Body(f) == header + Echo(f).payload;
    assert Body(f)[..f.length] == header + g.payload;
    StickRoundTrip(g);
  }

  /** The three header bytes of a request cannot have the checksum 3, so a length field of 3 is never read back. */
  lemma HeaderSum(header: seq<byte>)
    requires |header| == 3 && header[2] == 0
    ensures Crc(header) != 3
  {
    var one: seq<byte> := [header[0]];
    assert one[..0] == [] && ByteSum(one) == header[0];
    var two: seq<byte> := [header[0], header[1]];
    assert two[..1] == one && ByteSum(two) <= 0x1FE;
    assert header[..2] == two && ByteSum(header) <= 0x1FE;
  }

  /** The same through the line: the receiver's buffer holds every packet the writer can produce. */
  lemma LineRoundTrip(f: Frame)
    requires Writable(f) && WellFormed(f)
    ensures var r := Slip.Receive(Slip.Encode(Serialise(f)), []);
            && r.Packet? && r.rest == []
            && ReadPacket(Slip.Clip(r.data, READ_BUFFER)) == Accepted(Echo(f))
  {
    Slip.PacketRoundTrip(Serialise(f));
    RoundTripIff(f);
  }
}
