/**
 src/conbee.c: frames as the library handles them, in place.  Frames are created by the
 request builders, serialised by `conbee_write_frame` and filled in by `conbee_read_frame`.
 */
module FrameIo {
  import opened Wrappers
  import opened Bytes
  import opened Checksum
  import opened Frames
  import opened SerialPorts
  import Slip

  class ConbeeFrame {
    var command: byte
    var sequenceNumber: byte
    var status: byte
    var length: uint16
    var payloadLength: uint16
    var payload: array?<byte>

    /** `payloadLength` is the number of bytes allocated for the payload, or at most that. */
    ghost predicate Valid()
      reads this
    {
      payloadLength > 0 ==> payload != null && payloadLength <= payload.Length
    }

    function Value(): (f: Frame)
      requires Valid()
      reads this, payload
      ensures |f.payload| == payloadLength
    {
      Frame(command, sequenceNumber, status, length, if payloadLength == 0 then [] else payload[..payloadLength])
    }

    /** `conbee_init_frame` */
    constructor ()
      ensures Valid() && Value() == INIT_FRAME == Frame(0, 0, 0, 0, []) && payload == null
    {
      command, sequenceNumber, status, length := 0, 0, 0, 0;
      payloadLength, payload := 0, null;
    }

    /** A frame with these fields, as the builders make it. */
    constructor Of(f: Frame)
      ensures Valid() && Value() == f
    {
      command, sequenceNumber, status, length := f.command, f.sequenceNumber, f.status, f.length;
      payloadLength := |f.payload|;
      var copy := new byte[|f.payload|](i requires 0 <= i < |f.payload| => f.payload[i]);
      payload := copy;
      new;
      assert copy[..] == f.payload;
    }
  }

  /** The first half of `conbee_write_frame`: the frame is laid out in the buffer, because structs are padded. */
  method StoreBody(frame: ConbeeFrame, buffer: array<byte>)
    requires frame.Valid() && |Body(frame.Value())| <= buffer.Length
    requires frame.payload != buffer
    modifies frame`status, buffer
    ensures frame.status == 0
    ensures buffer[..|Body(old(frame.Value()))|] == Body(old(frame.Value()))
  {
    ghost var f := frame.Value();
    frame.status := 0;
    Store(buffer, 0, [frame.command, frame.sequenceNumber, frame.status]);
    Store(buffer, 3, Le16(frame.length));
    if frame.payloadLength > 0 {
      Store(buffer, 5, Le16(frame.payloadLength));
      Store(buffer, 7, frame.payload[..frame.payloadLength]);
    }
    assert buffer[..3] == buffer[0..3];
    BodyParts(f, buffer[..]);
  }

  /** `memcpy` into the buffer. */
  method Store(buffer: array<byte>, at: nat, bytes: seq<byte>)
    requires at + |bytes| <= buffer.Length
    modifies buffer
    ensures buffer[at..at + |bytes|] == bytes
    ensures forall i, j :: 0 <= i <= j <= at ==> buffer[i..j] == old(buffer[i..j])
  {
    forall i | 0 <= i < |bytes| {
      buffer[at + i] := bytes[i];
    }
  }

  /** A buffer laid out part by part like the body of a frame starts with that body. */
  lemma BodyParts(f: Frame, s: seq<byte>)
    requires |s| >= |Body(f)|
    requires s[..3] == [f.command, f.sequenceNumber, 0] && s[3..5] == Le16(f.length)
    requires f.payload != [] ==> s[5..7] == Le16(|f.payload|) && s[7..7 + |f.payload|] == f.payload
    ensures s[..|Body(f)|] == Body(f)
  {
    assert s[..5] == s[..3] + s[3..5];
    if f.payload != [] {
      assert s[..|Body(f)|] == s[..5] + s[5..7] + s[7..7 + |f.payload|];
    }
  }

  /** The second half: the checksum of the first `length` bytes goes behind them. */
  method Seal(buffer: array<byte>, length: uint16)
    requires length + 2 <= buffer.Length
    modifies buffer
    ensures buffer[..length + 2] == old(buffer[..length]) + Le16(Crc(old(buffer[..length])))
  {
    var crc := Crc16(buffer, length);
    buffer[length], buffer[length + 1] := Le16(crc)[0], Le16(crc)[1];
  }

  /** A packet the writer can make of a frame that fits its buffer. */
  ghost predicate IsPacketOf(f: Frame, packet: seq<byte>) {
    if Writable(f) then packet == Serialise(f)
    else |packet| == f.length + 2 && ChecksumValid(packet) && Body(f) <= packet
  }

  /** The packet made of the first `length` bytes of a buffer that starts with the body. */
  lemma StoredPacket(f: Frame, s: seq<byte>, stored: seq<byte>)
    requires |Body(f)| <= |s| == WRITE_BUFFER && s[..|Body(f)|] == Body(f)
    requires f.length + 2 <= WRITE_BUFFER && stored == s[..f.length]
    ensures IsPacketOf(f, stored + Le16(Crc(stored)))
  {
    SealedIff(stored, Crc(stored));
    if Writable(f) {
      assert s[..|Body(f)|][..f.length] == stored;
    } else {
      assert stored[..|Body(f)|] == Body(f);
    }
  }

  /**
   `conbee_write_frame`.  The caller's frame has to fit the 1000-byte buffer, checksum
   included.  If its length field also covers only bytes that were stored, the packet is
   determined by the frame; otherwise it starts with the frame's body, goes on with whatever
   the buffer held, and has the checksum of all that.
   */
  method WriteFrame(port: SerialPort, frame: ConbeeFrame) returns (err: int)
    requires frame.Valid() && |Body(frame.Value())| <= WRITE_BUFFER && frame.length + 2 <= WRITE_BUFFER
    modifies port`sent, frame`status
    ensures !port.connected ==> err == -2 && port.sent == old(port.sent) && frame.Value() == old(frame.Value())
    ensures port.connected ==> err == 0 && frame.Value() == old(frame.Value()).(status := 0)
    ensures port.connected ==>
              exists packet: seq<byte> ::
                IsPacketOf(old(frame.Value()), packet) && port.sent == old(port.sent) + Slip.Encode(packet)
  {
    var buffer := new byte[WRITE_BUFFER];
    if !port.connected {
      return -2;
    }
    ghost var f := frame.Value();
    StoreBody(frame, buffer);
    ghost var stored := buffer[..frame.length];
    StoredPacket(f, buffer[..], stored);
    Seal(buffer, frame.length);
    var _ := TransmitPacket(port, buffer, frame.length + 2);
    err := 0;
  }

  /**
   The frame is created from a received packet that has passed the check.  If the packet does
   not determine the frame, the reader takes what is missing from behind it: a header from
   the rest of the buffer, or, with `err - 5 - 2` wrapped, 65535 bytes of payload.
   */
  method LoadFrame(buffer: array<byte>, n: nat, frame: ConbeeFrame)
    requires 0 < n <= buffer.Length == READ_BUFFER && frame.Valid()
    requires !ReadPacket(buffer[..n]).Rejected?
    modifies frame
    ensures frame.Valid()
    ensures frame.command == buffer[0] && frame.sequenceNumber == buffer[1] && frame.status == buffer[2]
    ensures frame.length == FromLe16(buffer[3], buffer[4])
    ensures n <= 5 ==> frame.Value().payload == old(frame.Value()).payload
    ensures n == 6 ==> frame.payloadLength == 65535
    ensures n >= 7 ==> frame.Value().payload == buffer[5..n - 2]
    ensures Loaded(buffer[..n], old(frame.Value()), frame.Value())
  {
    ghost var s, before := buffer[..], frame.Value();
    frame.command := buffer[0];
    frame.sequenceNumber := buffer[1];
    frame.status := buffer[2];
    frame.length := FromLe16(buffer[3], buffer[4]);
    if n > 5 {
      frame.payloadLength := (n - 5 - 2) % 0x1_0000;
      var payload := new byte[frame.payloadLength];
      forall i | 0 <= i < payload.Length && 5 + i < buffer.Length {
        payload[i] := buffer[5 + i];
      }
      frame.payload := payload;
      assert n > 6 ==> payload[..] == s[5..n - 2];
    } else {
      assert frame.Value().payload == before.payload;
    }
    LoadedFromBuffer(s, n, before, frame.Value());
    assert buffer[..n] == s[..n];
  }

  /** What has been copied out of a buffer with a packet in front. */
  lemma LoadedFromBuffer(s: seq<byte>, n: nat, before: Frame, after: Frame)
    requires 0 < n <= |s| == READ_BUFFER && !ReadPacket(s[..n]).Rejected?
    requires after.command == s[0] && after.sequenceNumber == s[1] && after.status == s[2]
    requires after.length == FromLe16(s[3], s[4])
    requires if n <= 5 then after.payload == before.payload
             else if n == 6 then |after.payload| == 0xFFFF && after.payload[0] == s[5]
             else after.payload == s[5..n - 2]
    ensures Loaded(s[..n], before, after)
  {
    assert n >= 7 ==> s[..n][5..n - 2] == s[5..n - 2];
  }

  /** The result of reading a packet, and what becomes of the frame. */
  ghost predicate HasRead(packet: seq<byte>, err: int, before: Frame, after: Frame)
    requires |packet| <= READ_BUFFER
  {
    && packet != []
    && if ReadPacket(packet).Rejected? then err == -2 && after == before
       else
         || (err == |packet| && Loaded(packet, before, after))
         || (|packet| == 1 && err == -2 && after == before)
  }

  /**
   The reader's result, byte by byte.  A packet of two bytes or more is refused, and then the
   frame left alone, exactly when it does not add up to 0 modulo 65536; otherwise the result
   is its size, and the frame has the bytes of the packet as far as they go.
   */
  lemma ReadByBytes(packet: seq<byte>, err: int, before: Frame, after: Frame)
    requires 2 <= |packet| <= 1500 && HasRead(packet, err, before, after)
    ensures var n := |packet| - 2;
            err == -2 <==> (ByteSum(packet[..n]) + FromLe16(packet[n], packet[n + 1])) % 0x1_0000 != 0
    ensures if err == -2 then after == before
            else
              && err == |packet| && after.command == packet[0] && after.sequenceNumber == packet[1]
              && (|packet| >= 3 ==> after.status == packet[2])
              && (|packet| >= 5 ==> after.length == FromLe16(packet[3], packet[4]))
              && (|packet| <= 5 ==> after.payload == before.payload)
              && (|packet| >= 7 ==> after.payload == packet[5..|packet| - 2])
  {
    ReadPacketIff(packet);
  }

  /**
   `conbee_read_frame`; None while it blocks.  A received packet is never empty.  For a packet
   of one byte, the comparison of the checksums itself depends on memory outside the packet
   and may go either way.
   */
  method ReadFrame(port: SerialPort, frame: ConbeeFrame) returns (err: Option<int>)
    requires frame.Valid()
    modifies port`pending, frame
    ensures frame.Valid()
    ensures !port.connected ==>
              err == Some(-2) && port.pending == old(port.pending) && frame.Value() == old(frame.Value())
    ensures port.connected ==> (err.None? <==> Slip.Receive(old(port.pending), []).Blocked?)
    ensures err.None? ==> port.pending == old(port.pending) && frame.Value() == old(frame.Value())
    ensures port.connected && err.Some? ==>
              && port.pending == Slip.Receive(old(port.pending), []).rest
              && HasRead(NextPacket(old(port.pending)).value, err.value, old(frame.Value()), frame.Value())
  {
    var buffer := new byte[READ_BUFFER];
    if !port.connected {
      return Some(-2);
    }
    var received := ReceivePacket(port, buffer, READ_BUFFER);
    if received.None? {
      return None;
    }
    var n := received.value;
    assert NextPacket(old(port.pending)) == Some(buffer[..n]);
    var matching: bool := *;
    if n > 1 {
      var crc := Crc16(buffer, n - 2);
      assert buffer[..n][..n - 2] == buffer[..n - 2];
      var crc2 := FromLe16(buffer[n - 2], buffer[n - 1]);
      matching := crc == crc2;
    }
    if !matching {
      return Some(-2);
    }
    LoadFrame(buffer, n, frame);
    return Some(n);
  }
}
