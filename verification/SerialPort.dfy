/**
 src/slip.c: the packet transmitter and receiver, byte by byte over the serial line, and the
 byte functions `write_byte` and `read_byte` they are given (src/conbee.c).  The line is
 error-free: a write reaches the stick, and a read takes the next byte the stick has sent.
 */
module SerialPorts {
  import opened Wrappers
  import opened Bytes
  import opened Slip

  class SerialPort {
    /** `tty_status == TTY_CONNECTED` */
    var connected: bool
    /** every byte written to the stick so far */
    var sent: seq<byte>
    /** bytes the stick has sent that are not read yet */
    var pending: seq<byte>

    constructor ()
      ensures connected && sent == [] && pending == []
    {
      connected, sent, pending := true, [], [];
    }

    /** `conbee_write_byte` */
    method WriteByte(c: byte) returns (err: int)
      modifies `sent
      ensures connected ==> err == 0 && sent == old(sent) + [c]
      ensures !connected ==> err == -2 && sent == old(sent)
    {
      if !connected {
        return -2;
      }
      sent := sent + [c];
      err := 0;
    }

    /**
     `conbee_read_byte`; None while there is nothing to read.  Unless a byte is read, the
     caller's `c` stays as it is.
     */
    method ReadByte(before: byte) returns (err: Option<int>, c: byte)
      modifies `pending
      ensures !connected ==> err == Some(-2) && c == before && pending == old(pending)
      ensures connected && old(pending) == [] ==> err == None && c == before && pending == []
      ensures connected && old(pending) != [] ==> err == Some(0) && c == old(pending)[0] && pending == old(pending)[1..]
    {
      if !connected {
        return Some(-2), before;
      }
      if pending == [] {
        return None, before;
      }
      err, c := Some(0), pending[0];
      pending := pending[1..];
    }
  }

  /** `slip_transmit_packet`; the result is that of the last byte but one. */
  method TransmitPacket(port: SerialPort, buffer: array<byte>, length: nat) returns (err: int)
    requires length <= buffer.Length
    modifies port`sent
    ensures port.connected ==> err == 0 && port.sent == old(port.sent) + Encode(buffer[..length])
    ensures !port.connected ==> err == -2 && port.sent == old(port.sent)
  {
    err := port.WriteByte(END);
    var i := 0;
    while i < length
      invariant 0 <= i <= length && err == if port.connected then 0 else -2
      invariant port.sent == old(port.sent) + if port.connected then [END] + Escape(buffer[..i]) else []
    {
      assert buffer[..i + 1][..i] == buffer[..i];
      if buffer[i] == END {
        err := port.WriteByte(ESC);
        if err >= 0 {
          err := port.WriteByte(ESC_END);
        }
      } else if buffer[i] == ESC {
        err := port.WriteByte(ESC);
        if err >= 0 {
          err := port.WriteByte(ESC_ESC);
        }
      } else {
        err := port.WriteByte(buffer[i]);
      }
      i := i + 1;
    }
    var _ := port.WriteByte(END);
  }

  /**
   `slip_receive_packet`.  The result is None while the call has not returned; the bytes it has
   looked at then still count as pending, and a later call stands for its continuation.  A
   zero-length buffer stores nothing, so `received` stays 0 and the call never returns.  Nor
   does it on a disconnected port: `err` is unsigned, so the errors of `read_byte` go unnoticed
   and `c`, still 0, is stored until the buffer is full.
   */
  method ReceivePacket(port: SerialPort, buffer: array<byte>, length: nat) returns (count: Option<nat>)
    requires length <= buffer.Length
    modifies port`pending, buffer
    ensures count.Some? <==> port.connected && length > 0 && Receive(old(port.pending), []).Packet?
    ensures count.Some? ==>
              var Packet(data, rest) := Receive(old(port.pending), []);
              && 0 < count.value == (if |data| <= length then |data| else length)
              && buffer[..count.value] == data[..count.value] == Clip(data, length)
              && port.pending == rest
    ensures count.None? ==> port.pending == old(port.pending)
    ensures !port.connected ==> forall i :: 0 <= i < length ==> buffer[i] == 0
    ensures forall i :: (if count.Some? then count.value else length) <= i < buffer.Length ==>
              buffer[i] == old(buffer[i])
  {
    var received, c := 0, 0;
    ghost var data: seq<byte> := [];
    var start := port.pending;
    // On a disconnected port with a full buffer, nothing changes from one iteration to the next.
    while port.connected || received < length
      invariant received <= length && received == |Clip(data, length)|
      invariant buffer[..received] == Clip(data, length)
      invariant forall i :: received <= i < buffer.Length ==> buffer[i] == old(buffer[i])
      invariant port.connected && length > 0 ==> Receive(start, []) == Receive(port.pending, data)
      invariant !port.connected ==>
                  c == 0 && port.pending == start && forall i :: 0 <= i < received ==> buffer[i] == 0
      decreases |port.pending|, length - received
    {
      var err;
      err, c := port.ReadByte(c);
      if err.None? {
        break;
      }
      if c == END {
        if received > 0 {
          return Some(received);
        }
        continue;
      } else if c == ESC {
        err, c := port.ReadByte(c);
        if err.None? {
          break;
        }
        if c == ESC_END {
          c := END;
        } else if c == ESC_ESC {
          c := ESC;
        }
      }
      if received < length {
        buffer[received] := c;
        received := received + 1;
      }
      data := data + [c];
    }
    port.pending := start;
    count := None;
  }
}
