/**
 The checksum gate, over all runs: which waiting clients can be handed a frame although the
 packet on the line had a wrong checksum.
 */
module Gate {
  import opened Wrappers
  import opened Bytes
  import opened Frames
  import opened Protocol
  import opened Calls
  import opened Reception
  import Checksum
  import Slip
  import WaitScan

  /** The `i`-th delivery is to a client that waits for this number and command, of a packet the reader rejected. */
  ghost predicate RejectedAt(h: History, i: nat, number: byte, command: byte) {
    && i < |h.delivered| && h.delivered[i].want.number == number && h.delivered[i].want.command == command
    && h.delivered[i].arrival < |h.arrived|
    && ReadPacket(PacketOf(h.arrived[h.delivered[i].arrival])).Rejected?
  }

  /** In some run, a client that waits for this number and command is handed the frame of a rejected packet. */
  ghost predicate RejectedDelivered(number: byte, command: byte) {
    exists s: State, i: nat :: Reachable(s) && RejectedAt(s.history, i, number, command)
  }

  /**
   The gate, exactly.  The frame of a rejected packet can reach a client that waits for this
   number and command, in some run, if and only if the number is 0 and the command 0 or any:
   the worker pushes the frame as it was initialised, all zero.
   */
  lemma RejectedDeliveredIff(number: byte, command: byte)
    ensures RejectedDelivered(number, command) <==> number == 0 && command in {0, COMMAND_ANY}
  {
    forall s: State, i: nat | Reachable(s) && RejectedAt(s.history, i, number, command)
      ensures number == 0 && command in {0, COMMAND_ANY}
    {
      OnlyValidFramesAreDelivered(s, i);
    }
    if number == 0 && command in {0, COMMAND_ANY} {
      var s := RejectedIsDelivered(command);
      assert RejectedAt(s.history, 0, number, command);
    }
  }

  /** A corrupted packet arrives; then a client waits for number 0. */
  lemma RejectedIsDelivered(command: byte) returns (s: State)
    requires command in {0, COMMAND_ANY}
    ensures Reachable(s) && RejectedAt(s.history, 0, 0, command)
  {
    var packet := CorruptedPacket();
    var line := Slip.Encode(packet);
    var arrive, receive := Arrive(line), [StartRead, FinishRead(INIT_FRAME), PushReceived(None)];
    assert [] + line == line;
    Slip.PacketRoundTrip(packet);
    assert Exec(Start(1), []) == Some(Start(1));
    ExecSingle(Start(1), arrive);
    var one := Next(Start(1), arrive);
    var two := ReceiveTurnIsARun(one, INIT_FRAME, None);
    ReachableExec(Start(1), [arrive]);
    ReachableExec(one, receive);
    assert PacketOf(two.history.arrived[0]) == packet;
    var begin := WaitForAny(0, 0, command);
    assert WaitScan.Matches(INIT_FRAME, 0, command);
    s := WaitIsARun(two, begin);
    ReachableExec(two, [begin, Search(0)]);
  }

  /** A version request whose trailer is not its checksum. */
  lemma CorruptedPacket() returns (packet: seq<byte>)
    ensures |packet| == 7 && ReadPacket(packet).Rejected?
  {
    var body: seq<byte> := [0x0D, 0, 0, 5, 0];
    var wrong: uint16 := (Checksum.Crc(body) + 1) % 0x1_0000;
    packet := body + Le16(wrong);
    Checksum.SealedIff(body, wrong);
  }
}
