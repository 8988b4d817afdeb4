/**
 The device structure with its heap queues and its serial port, and the library calls on it.
 Each atomic section is a method whose contract is the memory step of the transition system.
 What the composed calls do when nothing interferes is what the runs of `Calls` do.
 */
module Devices {
  import opened Wrappers
  import opened Bytes
  import opened Frames
  import opened FrameIo
  import opened Protocol
  import opened Calls
  import opened Queues
  import opened SerialPorts
  import Slip
  import WaitScan

  /** `struct conbee_device`, connected. */
  class Device {
    var sequenceNumber: byte
    /** bytes in the wake-up pipe */
    var pipe: seq<byte>
    const port: SerialPort
    const sendQueue: Queue<Frame>
    const receiveQueue: Queue<Frame>

    /** The send queue is only pushed and popped, the receive queue only pushed and deleted from. */
    ghost predicate Valid()
      reads this, port, sendQueue, sendQueue.items, receiveQueue, receiveQueue.items
    {
      && port.connected
      && sendQueue.Chain() && receiveQueue.Linked() && sendQueue != receiveQueue
      && forall i, j :: 0 <= i < |sendQueue.items| && 0 <= j < |receiveQueue.items| ==>
           sendQueue.items[i] != receiveQueue.items[j]
    }

    /** The shared memory of the transition system. */
    ghost function View(): Memory
      reads this, port, sendQueue, receiveQueue
    {
      Memory(sequenceNumber, sendQueue.contents, pipe, receiveQueue.contents, port.sent, port.pending)
    }

    /** The state `conbee_connect` leaves. */
    constructor ()
      ensures Valid() && View() == Start(0).memory
    {
      sequenceNumber, pipe := 0, [];
      port := new SerialPort();
      sendQueue := new Queue<Frame>();
      receiveQueue := new Queue<Frame>();
    }

    // ---------- Atomic sections ----------

    /** Under `mutex_sequence_number`; the counter is a `uint8_t`. */
    method TakeNumber() returns (number: byte)
      requires Valid()
      modifies this
      ensures Valid() && View() == CountUp(old(View())) && number == old(sequenceNumber)
    {
      number := sequenceNumber;
      sequenceNumber := (sequenceNumber + 1) % 0x100;
    }

    /** Under `mutex_send_queue`. */
    method PushToSend(f: Frame)
      requires Valid()
      modifies sendQueue, sendQueue.items
      ensures Valid() && View() == Enqueue(old(View()), f)
    {
      sendQueue.Push(f);
    }

    /** Under `mutex_send_pipe`. */
    method WritePipe()
      requires Valid()
      modifies this
      ensures Valid() && View() == Signal(old(View()))
    {
      pipe := pipe + [0, 0];
    }

    /** Reading up to two bytes from the pipe. */
    method ReadPipe()
      requires Valid() && pipe != []
      modifies this
      ensures Valid() && View() == ClearSignal(old(View()))
    {
      pipe := if |pipe| <= 2 then [] else pipe[2..];
    }

    /** Under `mutex_send_queue`, in the worker. */
    method PopToSend() returns (f: Option<Frame>)
      requires Valid()
      modifies sendQueue
      ensures Valid() && View() == Dequeue(old(View()))
      ensures f == if old(View()).sendQueue == [] then None else Some(old(View()).sendQueue[0])
    {
      f := sendQueue.Pop();
    }

    /** Under `mutex_receive_queue`, in the worker. */
    method PushReceived(f: Frame)
      requires Valid()
      modifies receiveQueue, receiveQueue.items
      ensures Valid() && View() == Protocol.Store(old(View()), f)
    {
      receiveQueue.Push(f);
    }

    /** Under `mutex_receive_queue`, in a waiting client: one search, with the repaired loop and deletion. */
    method SearchReceived(number: byte, command: byte) returns (found: Option<Frame>)
      requires Valid()
      modifies receiveQueue, receiveQueue.items
      ensures Valid()
      ensures var queue := old(View()).receiveQueue;
              var k := WaitScan.FirstMatch(queue, number, command);
              if k < |queue| then found == Some(queue[k]) && View() == Remove(old(View()), k)
              else found == None && View() == old(View())
    {
      found := WaitScan.TakeFirstMatch(receiveQueue, number, command);
    }

    // ---------- The calls ----------

    /** `conbee_enqueue_frame`, undisturbed; the caller gives the frame away. */
    method EnqueueFrame(frame: ConbeeFrame) returns (number: int)
      requires Valid() && frame.Valid()
      modifies this, sendQueue, sendQueue.items, frame`sequenceNumber
      ensures Valid() && number == old(sequenceNumber)
      ensures View() == AfterEnqueue(old(View()), old(frame.Value()))
      ensures sequenceNumber == (old(sequenceNumber) + 1) % 0x100 && |pipe| == |old(pipe)| + 2
      ensures sendQueue.contents == old(sendQueue.contents) + [old(frame.Value()).(sequenceNumber := number)]
      ensures receiveQueue.contents == old(receiveQueue.contents)
    {
      number := TakeNumber();
      frame.sequenceNumber := number;
      PushToSend(frame.Value());
      WritePipe();
    }

    // ---------- The worker's loop body ----------

    /** One turn, undisturbed: `select` reports the line first, then the pipe, or times out. */
    method Turn() returns (finished: bool)
      requires Valid()
      requires View().sendQueue != [] ==> Writable(View().sendQueue[0])
      modifies this, port, sendQueue, receiveQueue, receiveQueue.items
      ensures Valid()
      ensures finished <==> old(port.pending) == [] || NextPacket(old(port.pending)).Some?
      ensures if finished then Turned(old(View()), View()) else View() == old(View())
      ensures old(port.pending) != [] && finished ==>
                && TakesPacket(old(port.pending), port.pending, old(receiveQueue.contents), receiveQueue.contents)
                && port.sent == old(port.sent) && sendQueue.contents == old(sendQueue.contents) && pipe == old(pipe)
      ensures old(port.pending) == [] && old(pipe) != [] ==>
                && |pipe| == (if |old(pipe)| <= 2 then 0 else |old(pipe)| - 2)
                && SendsFirst(old(port.sent), port.sent, old(sendQueue.contents), sendQueue.contents)
                && port.pending == [] && receiveQueue.contents == old(receiveQueue.contents)
      ensures old(port.pending) == [] && old(pipe) == [] ==> View() == old(View())
    {
      finished := true;
      if port.pending != [] {
        finished := ReceiveTurn();
      } else if pipe != [] {
        SendTurn();
      }
    }

    /** The sending branch. */
    method SendTurn()
      requires Valid() && pipe != []
      requires View().sendQueue != [] ==> Writable(View().sendQueue[0])
      modifies this, port, sendQueue
      ensures Valid()
      ensures View() == AfterSend(old(View()))
    {
      ReadPipe();
      var popped := PopToSend();
      if popped.Some? {
        var frame := new ConbeeFrame.Of(popped.value);
        var _ := WriteFrame(port, frame);
      }
    }

    /** The receiving branch; not finished while the line holds no complete packet. */
    method ReceiveTurn() returns (finished: bool)
      requires Valid()
      modifies port, receiveQueue, receiveQueue.items
      ensures Valid()
      ensures finished <==> NextPacket(old(port.pending)).Some?
      ensures !finished ==> View() == old(View())
      ensures finished ==>
                && Slip.Receive(old(port.pending), []).Packet?
                && exists f: Frame ::
                     && ReadsAs(NextPacket(old(port.pending)).value, f)
                     && View() == Protocol.Store(TakePacket(old(View())), f)
    {
      var frame := new ConbeeFrame();
      var err := ReadFrame(port, frame);
      if err.None? {
        return false;
      }
      assert ReadsAs(NextPacket(old(port.pending)).value, frame.Value());
      PushReceived(frame.Value());
      assert View() == Protocol.Store(TakePacket(old(View())), frame.Value());
      finished := true;
    }
  }

  /** The first packet is gone from the line, and the frame read from it is at the end of the queue. */
  ghost predicate TakesPacket(line: seq<byte>, rest: seq<byte>, queue: seq<Frame>, more: seq<Frame>) {
    && Slip.Receive(line, []).Packet?
    && rest == Slip.Receive(line, []).rest
    && |more| == |queue| + 1 && more[..|queue|] == queue
    && ReadsAs(Slip.Clip(Slip.Receive(line, []).data, 1500), more[|queue|])
  }

  /** The first frame is gone from the queue, and its packet is on the line; if there was one. */
  ghost predicate SendsFirst(sent: seq<byte>, more: seq<byte>, queue: seq<Frame>, rest: seq<Frame>) {
    if queue == [] then more == sent && rest == []
    else
      && rest == queue[1..]
      && Writable(queue[0]) && more == sent + Slip.Encode(Serialise(queue[0]))
  }
}
