/**
 src/conbee.c: the request builders, and the readers that take a typed value out of a
 parameter response.
 */
module Parameters {
  import opened Wrappers
  import opened Bytes
  import opened Frames
  import opened FrameIo

  const COMMAND_DEVICE_STATE: byte := 0x07
  const COMMAND_CHANGE_NETWORK_STATE: byte := 0x08
  const COMMAND_READ_PARAMETER: byte := 0x0A
  const COMMAND_WRITE_PARAMETER: byte := 0x0B
  const COMMAND_VERSION: byte := 0x0D
  const COMMAND_APS_DATA_INDICATION: byte := 0x17
  const NETWORK_OFFLINE: byte := 0x00
  const NETWORK_CONNECTED: byte := 0x02

  // ---------- The frames the builders make ----------

  function FirmwareRequest(): Frame {
    Frame(COMMAND_VERSION, 0, 0, 5, [])
  }

  function ReadParameterRequest(parameter: byte): Frame {
    Frame(COMMAND_READ_PARAMETER, 0, 0, 8, [parameter])
  }

  /** `value_size` is a `uint8_t`. */
  function WriteParameterRequest(parameter: byte, value: seq<byte>): Frame
    requires |value| <= 0xFF
  {
    Frame(COMMAND_WRITE_PARAMETER, 0, 0, 8 + |value|, [parameter] + value)
  }

  function ApsDataRequest(): Frame {
    Frame(COMMAND_APS_DATA_INDICATION, 0, 0, 8, [0x07])
  }

  function DeviceStatusRequest(): Frame {
    Frame(COMMAND_DEVICE_STATE, 0, 0, 8, [0, 0, 0])
  }

  function NetworkStateRequest(state: byte): Frame {
    Frame(COMMAND_CHANGE_NETWORK_STATE, 0, 0, 6, [state])
  }

  method BuildFirmwareRequest() returns (frame: ConbeeFrame)
    ensures fresh(frame) && frame.Valid() && frame.Value() == FirmwareRequest()
  {
    frame := new ConbeeFrame();
    frame.command := COMMAND_VERSION;
    frame.length := 5;
  }

  method BuildReadParameterRequest(parameter: byte) returns (frame: ConbeeFrame)
    ensures fresh(frame) && frame.Valid() && frame.Value() == ReadParameterRequest(parameter)
  {
    frame := new ConbeeFrame();
    frame.command := COMMAND_READ_PARAMETER;
    frame.length := 8;
    frame.payloadLength := 1;
    frame.payload := new byte[1];
    frame.payload[0] := parameter;
  }

  method BuildWriteParameterRequest(parameter: byte, value: array<byte>, valueSize: byte) returns (frame: ConbeeFrame)
    requires valueSize <= value.Length
    ensures fresh(frame) && frame.Valid()
    ensures frame.Value() == WriteParameterRequest(parameter, value[..valueSize])
  {
    frame := new ConbeeFrame();
    frame.command := COMMAND_WRITE_PARAMETER;
    frame.length := 8 + (valueSize as int);
    frame.payloadLength := 1 + (valueSize as int);
    frame.payload := new byte[frame.payloadLength];
    frame.payload[0] := parameter;
    forall i | 0 <= i < valueSize {
      frame.payload[1 + i] := value[i];
    }
    assert frame.payload[..] == [parameter] + value[..valueSize];
  }

  /**
   Every request the builders make can be written, whatever its sequence number; four of them
   have the length field the protocol asks for, and three do not.
   */
  lemma BuildersWellFormedIff(f: Frame, parameter: byte, value: seq<byte>, state: byte, number: byte)
    requires |value| <= 0xFF
    requires f in {FirmwareRequest(), ReadParameterRequest(parameter), WriteParameterRequest(parameter, value),
                   ApsDataRequest(), DeviceStatusRequest(), NetworkStateRequest(state)}
    ensures Writable(f.(sequenceNumber := number))
    ensures WellFormed(f.(sequenceNumber := number)) <==> f != DeviceStatusRequest() && f != NetworkStateRequest(state)
  {
  }

  /** What the short length fields cost: the end of the payload is never transmitted. */
  lemma ShortLengthsLosePayload(state: byte)
    ensures ReadPacket(Serialise(DeviceStatusRequest())) == Accepted(DeviceStatusRequest().(payload := [3, 0, 0]))
    ensures ReadPacket(Serialise(NetworkStateRequest(state))) == Accepted(NetworkStateRequest(state).(payload := [1]))
  {
    EchoStart(DeviceStatusRequest(), [3, 0, 0]);
    EchoStart(NetworkStateRequest(state), [1]);
  }

  lemma EchoStart(f: Frame, start: seq<byte>)
    requires Writable(f) && f.status == 0 && f.length == 5 + |start|
    requires f.payload != [] && start <= Le16(|f.payload|) + f.payload
    ensures ReadPacket(Serialise(f)) == Accepted(f.(payload := start))
  {
    ReadBack(f);
    assert Echo(f).payload[..|start|] == start;
  }

  /**
   Sizes of a write-parameter request, for every value size: the length field is 7 plus the
   payload, the packet takes at most 265 of the writer's 1000 bytes, all of them stored, and
   it is within what the reader can take.
   */
  lemma WriteParameterSizes(parameter: byte, value: seq<byte>, number: byte)
    requires |value| <= 0xFF
    ensures var f := WriteParameterRequest(parameter, value).(sequenceNumber := number);
            && f.length == 7 + |f.payload| && Writable(f) && WellFormed(f)
            && 7 <= |Serialise(f)| <= 265 <= WRITE_BUFFER
            && ReadPacket(Serialise(f)) == Accepted(Echo(f))
  {
    RoundTripIff(WriteParameterRequest(parameter, value).(sequenceNumber := number));
  }

  /**
   The bytes of each request under its sequence number: command, number, status 0, the two
   length fields with the lower byte first, and the payload.
   */
  lemma RequestBytes(parameter: byte, value: seq<byte>, state: byte, n: byte)
    requires |value| <= 0xFF
    ensures Body(FirmwareRequest().(sequenceNumber := n)) == [0x0D, n, 0, 5, 0]
    ensures Body(ReadParameterRequest(parameter).(sequenceNumber := n)) == [0x0A, n, 0, 8, 0, 1, 0, parameter]
    ensures Body(WriteParameterRequest(parameter, value).(sequenceNumber := n)) ==
            [0x0B, n, 0, (8 + |value|) % 0x100, (8 + |value|) / 0x100, (1 + |value|) % 0x100, (1 + |value|) / 0x100,
             parameter] + value
    ensures Body(ApsDataRequest().(sequenceNumber := n)) == [0x17, n, 0, 8, 0, 1, 0, 7]
    ensures Body(DeviceStatusRequest().(sequenceNumber := n)) == [0x07, n, 0, 8, 0, 3, 0, 0, 0, 0]
    ensures Body(NetworkStateRequest(state).(sequenceNumber := n)) == [0x08, n, 0, 6, 0, 1, 0, state]
  {
    WireLayout(WriteParameterRequest(parameter, value).(sequenceNumber := n));
  }

  // ---------- Typed values ----------

  /**
   The response readers for `uint8_t`, `uint16_t`, `uint32_t` and `uint64_t`, by width in
   bytes.  They look at nothing but the payload: its size, and the bytes from the fourth on.
   */
  method ReadParameterResponse(frame: ConbeeFrame, width: nat) returns (err: int, data: nat)
    requires frame.Valid() && width in {1, 2, 4, 8}
    ensures err == if |frame.Value().payload| == 3 + width then 0 else -1
    ensures err == 0 ==> data == FromLe(frame.Value().payload[3..])
  {
    if (frame.payloadLength as int) - 3 != width {
      return -1, 0;
    }
    data := FromLe(frame.payload[3..3 + width]);
    assert frame.payload[3..3 + width] == frame.Value().payload[3..];
    err := 0;
  }

  /** A payload of this width, parameter and value, as responses carry it. */
  ghost predicate Carries(f: Frame, parameter: byte, value: nat, width: nat) {
    && |f.payload| == 3 + width && f.payload[2] == parameter
    && FromLe16(f.payload[0], f.payload[1]) == 1 + width && FromLe(f.payload[3..]) == value
  }

  /**
   A value written as a parameter, through builder, checksum and parser: the packet carries
   the value, at its width, for that parameter.
   */
  lemma TypedValueRoundTrip(parameter: byte, value: nat, width: nat, number: byte)
    requires width <= 0xFF && value < Values(width)
    ensures var f := WriteParameterRequest(parameter, ToLe(value, width)).(sequenceNumber := number);
            && Writable(f)
            && ReadPacket(Serialise(f)).Accepted?
            && var g := ReadPacket(Serialise(f)).frame;
               && g.command == 0x0B && g.sequenceNumber == number && g.status == 0
               && Carries(g, parameter, value, width)
  {
    var bytes := ToLe(value, width);
    WriteParameterSizes(parameter, bytes, number);
    PayloadCarries(parameter, value, width);
    assert Le16(|[parameter] + bytes|) + ([parameter] + bytes) == Le16(1 + width) + [parameter] + bytes;
  }

  /**
   A value in a response of the stick to a read or write request, under any command, number
   and status and with any length field: as a packet it is read back with all of these, and
   carries the value.
   */
  lemma ResponseRoundTrip(response: Frame, parameter: byte, value: nat, width: nat)
    requires width <= 0xFF && value < Values(width)
    requires response.payload == Le16(1 + width) + [parameter] + ToLe(value, width)
    ensures ReadPacket(StickPacket(response)) == Accepted(response)
    ensures Carries(response, parameter, value, width)
  {
    StickRoundTrip(response);
    PayloadCarries(parameter, value, width);
  }

  /** Two bytes of length and one of parameter id come before the value. */
  lemma PayloadCarries(parameter: byte, value: nat, width: nat)
    requires width <= 0xFF && value < Values(width)
    ensures var payload := Le16(1 + width) + [parameter] + ToLe(value, width);
            && |payload| == 3 + width && payload[2] == parameter
            && FromLe16(payload[0], payload[1]) == 1 + width && FromLe(payload[3..]) == value
  {
    LeRoundTrip(value, width);
    assert (Le16(1 + width) + [parameter] + ToLe(value, width))[3..] == ToLe(value, width);
  }
}
