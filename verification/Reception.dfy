/**
 The receiving half of the protocol, over all runs: what the worker makes of the bytes from
 the stick, what becomes of the frames it pushes, and which frames reach a waiting client.
 */
module Reception {
  import opened Wrappers
  import opened Bytes
  import opened Frames
  import opened Protocol
  import opened WaitScan
  import opened Counting
  import Checksum
  import Numbering
  import Slip
  import Transmission

  /** The part of an arrival's data that fits the reader's buffer. */
  ghost function PacketOf(a: Arrival): (packet: seq<byte>)
    ensures |packet| <= READ_BUFFER
  {
    Slip.Clip(a.data, READ_BUFFER)
  }

  ghost function DataOf(arrivals: seq<Arrival>): seq<seq<byte>> {
    seq(|arrivals|, i requires 0 <= i < |arrivals| => arrivals[i].data)
  }

  /** An arrival the worker has read and not pushed yet. */
  ghost function InWorker(worker: Worker): seq<Arrival> {
    if worker.Received? then [worker.arrival] else []
  }

  // ---------- From bytes to frames ----------

  /** Every byte of the stick has been read or is waiting, in order. */
  ghost predicate NoByteSkipped(s: State) {
    s.history.offered == s.history.consumed + s.memory.pending
  }

  lemma NoByteSkippedKept(s: State, step: Step)
    requires NoByteSkipped(s) && Enabled(s, step)
    ensures NoByteSkipped(Next(s, step))
  {
    if step.FinishRead? {
      var pending := s.memory.pending;
      var rest := Slip.Receive(pending, []).rest;
      Slip.ReceiveLeavesSuffix(pending, []);
      assert pending == pending[..|pending| - |rest|] + rest;
      assert s.history.consumed + pending == s.history.consumed + pending[..|pending| - |rest|] + rest;
    } else if step.Arrive? {
      assert s.history.consumed + s.memory.pending + step.bytes == s.history.consumed + (s.memory.pending + step.bytes);
    }
  }

  /** The worker stops between packets, and its frames are what the reader makes of these packets. */
  ghost predicate BytesFaithful(s: State) {
    && Slip.Feed(Slip.Receiver([], [], false), s.history.consumed) ==
       Slip.Receiver(DataOf(s.history.arrived + InWorker(s.worker)), [], false)
    && forall a :: a in s.history.arrived + InWorker(s.worker) ==> ReadsAs(PacketOf(a), a.frame)
  }

  lemma BytesKept(s: State, step: Step)
    requires BytesFaithful(s) && Enabled(s, step)
    ensures BytesFaithful(Next(s, step))
  {
    var t := Next(s, step);
    if step.FinishRead? {
      BytesKeptByRead(s, step.frame);
    } else {
      assert t.history.arrived + InWorker(t.worker) == s.history.arrived + InWorker(s.worker);
    }
  }

  lemma BytesKeptByRead(s: State, frame: Frame)
    requires BytesFaithful(s) && Enabled(s, FinishRead(frame))
    ensures BytesFaithful(Next(s, FinishRead(frame)))
  {
    var t, pending, before := Next(s, FinishRead(frame)), s.memory.pending, s.history.arrived;
    var Packet(data, rest) := Slip.Receive(pending, []);
    assert before + InWorker(s.worker) == before;
    Slip.ReceiveIsFeed(pending, DataOf(before), []);
    Slip.FeedConcat(Slip.Receiver([], [], false), s.history.consumed, pending[..|pending| - |rest|]);
    assert DataOf(before + InWorker(t.worker)) == DataOf(before) + [data];
  }

  // ---------- From the queue to the clients ----------

  ghost function Handed(deliveries: seq<Delivery>): seq<nat> {
    seq(|deliveries|, i requires 0 <= i < |deliveries| => deliveries[i].arrival)
  }

  /** The receive queue holds some of the arrivals, in arrival order. */
  ghost predicate QueueFaithful(s: State) {
    InOrder(s.history.queued, s.history.arrived, s.memory.receiveQueue)
  }

  ghost predicate InOrder(queued: seq<nat>, arrived: seq<Arrival>, frames: seq<Frame>) {
    && |queued| == |frames|
    && (forall i, j :: 0 <= i < j < |queued| ==> queued[i] < queued[j])
    && forall i :: 0 <= i < |queued| ==> queued[i] < |arrived| && frames[i] == arrived[queued[i]].frame
  }

  lemma QueueKept(s: State, step: Step)
    requires QueueFaithful(s) && Enabled(s, step)
    ensures QueueFaithful(Next(s, step))
  {
    if step.Search? {
      var want := s.clients[step.c].want;
      var k := FirstMatch(s.memory.receiveQueue, want.number, want.command);
      if k < |s.memory.receiveQueue| {
        InOrderAfterRemoval(s.history.queued, s.history.arrived, s.memory.receiveQueue, k);
      }
    } else if step.PushReceived? {
      InOrderAfterArrival(s.history.queued, s.history.arrived, s.memory.receiveQueue, s.worker.arrival);
    }
  }

  lemma InOrderAfterRemoval(queued: seq<nat>, arrived: seq<Arrival>, frames: seq<Frame>, k: nat)
    requires InOrder(queued, arrived, frames) && k < |queued|
    ensures InOrder(RemoveAt(queued, k), arrived, RemoveAt(frames, k))
  {
  }

  lemma InOrderAfterArrival(queued: seq<nat>, arrived: seq<Arrival>, frames: seq<Frame>, a: Arrival)
    requires InOrder(queued, arrived, frames)
    ensures InOrder(queued + [|arrived|], arrived + [a], frames + [a.frame])
  {
  }

  /** Every arrival is queued or handed out, and only one of the two, and once. */
  ghost predicate ArrivalsConserved(h: History) {
    forall n: nat :: Times(h.queued, n) + Times(Handed(h.delivered), n) == if n < |h.arrived| then 1 else 0
  }

  lemma ArrivalsKept(s: State, step: Step)
    requires QueueFaithful(s) && ArrivalsConserved(s.history) && Enabled(s, step)
    ensures ArrivalsConserved(Next(s, step).history)
  {
    var h, g := s.history, Next(s, step).history;
    forall n: nat
      ensures Times(g.queued, n) + Times(Handed(g.delivered), n) == if n < |g.arrived| then 1 else 0
    {
      assert Times(h.queued, n) + Times(Handed(h.delivered), n) == if n < |h.arrived| then 1 else 0;
      if step.PushReceived? {
        TimesOne(h.queued, |h.arrived|, n);
      } else if step.Search? && g != h {
        var want := s.clients[step.c].want;
        HandOutCounts(h, FirstMatch(s.memory.receiveQueue, want.number, want.command), want, n);
      }
    }
  }

  /** Handing out moves one arrival from the queue to the clients. */
  lemma HandOutCounts(h: History, k: nat, want: Want, n: nat)
    requires k < |h.queued|
    ensures var g := HandOut(h, k, want);
            Times(g.queued, n) + Times(Handed(g.delivered), n) == Times(h.queued, n) + Times(Handed(h.delivered), n)
  {
    TimesRemove(h.queued, k, n);
    TimesOne(Handed(h.delivered), h.queued[k], n);
    assert Handed(HandOut(h, k, want).delivered) == Handed(h.delivered) + [h.queued[k]];
  }

  ghost predicate Satisfies(h: History, arrival: nat, want: Want) {
    arrival < |h.arrived| && Matches(h.arrived[arrival].frame, want.number, want.command)
  }

  /** A client got what it asked for, and nothing it could have had earlier is still queued. */
  ghost predicate DeliveriesRight(h: History) {
    && (forall d :: d in h.delivered ==>
          && Satisfies(h, d.arrival, d.want)
          && (d.want.request.Some? ==> d.want.number == d.want.request.value % 0x100))
    && (forall d, q :: d in h.delivered && q in h.queued && Satisfies(h, q, d.want) ==> d.arrival < q)
  }

  lemma DeliveriesKept(s: State, step: Step)
    requires QueueFaithful(s) && DeliveriesRight(s.history) && Numbering.NumbersRight(s) && Enabled(s, step)
    ensures DeliveriesRight(Next(s, step).history)
  {
    var h, g := s.history, Next(s, step).history;
    if step.PushReceived? {
      assert forall n: nat, want :: n < |h.arrived| ==> (Satisfies(g, n, want) <==> Satisfies(h, n, want));
    } else if step.Search? && g != h {
      var want := s.clients[step.c].want;
      var k := FirstMatch(s.memory.receiveQueue, want.number, want.command);
      assert Numbering.LabelledClient(s.clients[step.c], step.c, h.taken);
      assert g == HandOut(h, k, want);
      HandOutKeepsDeliveries(s, k, want);
    }
  }

  lemma HandOutKeepsDeliveries(s: State, k: nat, want: Want)
    requires QueueFaithful(s) && DeliveriesRight(s.history)
    requires k == FirstMatch(s.memory.receiveQueue, want.number, want.command) < |s.memory.receiveQueue|
    requires want.request.Some? ==> want.number == want.request.value % 0x100
    ensures DeliveriesRight(HandOut(s.history, k, want))
  {
    var h, g := s.history, HandOut(s.history, k, want);
    FirstIsEarliest(s, k, want);
    assert forall d :: d in g.delivered ==> d in h.delivered || d == Delivery(h.queued[k], want);
    assert forall n: nat, w :: Satisfies(g, n, w) == Satisfies(h, n, w);
  }

  /** What stays queued behind a first match arrived later, if it matches. */
  lemma FirstIsEarliest(s: State, k: nat, want: Want)
    requires QueueFaithful(s)
    requires k == FirstMatch(s.memory.receiveQueue, want.number, want.command) < |s.memory.receiveQueue|
    ensures forall q :: q in RemoveAt(s.history.queued, k) ==> q in s.history.queued
    ensures forall q :: q in RemoveAt(s.history.queued, k) && Satisfies(s.history, q, want) ==> s.history.queued[k] < q
  {
    var queued := s.history.queued;
    var rest := RemoveAt(queued, k);
    forall q | q in rest
      ensures q in queued && (Satisfies(s.history, q, want) ==> queued[k] < q)
    {
      var i :| 0 <= i < |rest| && rest[i] == q;
      assert q == queued[if i < k then i else i + 1];
    }
  }

  /** Of two deliveries for the same number and command, the earlier is of the earlier arrival. */
  ghost predicate DeliveriesInOrder(h: History) {
    forall i, j :: 0 <= i < j < |h.delivered|
                   && h.delivered[i].want.number == h.delivered[j].want.number
                   && h.delivered[i].want.command == h.delivered[j].want.command
                   ==> h.delivered[i].arrival < h.delivered[j].arrival
  }

  lemma DeliveryOrderKept(s: State, step: Step)
    requires QueueFaithful(s) && DeliveriesRight(s.history) && DeliveriesInOrder(s.history) && Enabled(s, step)
    ensures DeliveriesInOrder(Next(s, step).history)
  {
    var h, g := s.history, Next(s, step).history;
    if step.Search? && g != h {
      var want := s.clients[step.c].want;
      var k := FirstMatch(s.memory.receiveQueue, want.number, want.command);
      assert Satisfies(h, h.queued[k], want) && h.queued[k] in h.queued;
      forall i | 0 <= i < |h.delivered|
                 && h.delivered[i].want.number == want.number && h.delivered[i].want.command == want.command
        ensures h.delivered[i].arrival < h.queued[k]
      {
        assert h.delivered[i] in h.delivered && Satisfies(h, h.queued[k], h.delivered[i].want);
      }
    }
  }

  // ---------- Every run ----------

  ghost predicate Receiving(s: State) {
    && NoByteSkipped(s) && BytesFaithful(s) && QueueFaithful(s) && ArrivalsConserved(s.history)
    && DeliveriesRight(s.history) && DeliveriesInOrder(s.history)
  }

  lemma {:induction false} ReceivingInvariant(clients: nat, steps: seq<Step>)
    requires Exec(Start(clients), steps).Some?
    ensures Receiving(Exec(Start(clients), steps).value)
  {
    if steps != [] {
      var init, last := steps[..|steps| - 1], steps[|steps| - 1];
      ReceivingInvariant(clients, init);
      Numbering.NumberingInvariant(clients, init);
      var s := Exec(Start(clients), init).value;
      NoByteSkippedKept(s, last);
      BytesKept(s, last);
      QueueKept(s, last);
      ArrivalsKept(s, last);
      DeliveriesKept(s, last);
      DeliveryOrderKept(s, last);
    }
  }

  lemma ReceivingHolds(s: State)
    requires Reachable(s)
    ensures Receiving(s)
  {
    var clients: nat, steps: seq<Step> :| Exec(Start(clients), steps) == Some(s);
    ReceivingInvariant(clients, steps);
  }

  // ---------- What follows ----------

  /**
   Conservation on the receiving side.  The receive queue is a subsequence of what the worker
   pushed, in arrival order; every arrival is in the queue or was handed to a client, never
   both; and none was handed out twice.
   */
  lemma ArrivalsAreHandedOutOnce(s: State, n: nat)
    requires Reachable(s) && n < |s.history.arrived|
    ensures n in s.history.queued <==> n !in Handed(s.history.delivered)
    ensures forall i, j :: 0 <= i < j < |s.history.delivered| ==>
              s.history.delivered[i].arrival != s.history.delivered[j].arrival
    ensures QueueFaithful(s)
  {
    ReceivingHolds(s);
    var h := s.history;
    var handed := Handed(h.delivered);
    TimesPositiveIff(h.queued, n);
    TimesPositiveIff(handed, n);
    assert Times(h.queued, n) + Times(handed, n) == 1;
    forall i, j | 0 <= i < j < |h.delivered|
      ensures h.delivered[i].arrival != h.delivered[j].arrival
    {
      assert Times(h.queued, handed[i]) + Times(handed, handed[i]) <= 1;
      if handed[i] == handed[j] {
        OnceMeansDistinct(handed, i, j);
        assert false;
      }
    }
  }

  /**
   The frames the worker pushed are what the reader makes of the packets in the stick's
   bytes: the first ones, in order, none skipped.
   */
  lemma ArrivalsAreThePacketsSent(s: State)
    requires Reachable(s)
    ensures DataOf(s.history.arrived) <= Slip.DecodeAll(s.history.offered)
    ensures forall a :: a in s.history.arrived ==> ReadsAs(PacketOf(a), a.frame)
  {
    ReceivingHolds(s);
    var start := Slip.Receiver([], [], false);
    Slip.DecodeFromStart(s.history.offered);
    Slip.FeedConcat(start, s.history.consumed, s.memory.pending);
    Slip.FeedGrows(Slip.Feed(start, s.history.consumed), s.memory.pending);
    assert DataOf(s.history.arrived) <= DataOf(s.history.arrived + InWorker(s.worker));
    assert forall a :: a in s.history.arrived ==> a in s.history.arrived + InWorker(s.worker);
  }

  /**
   The receiving end of the line.  If what the stick has sent so far are the bytes of the
   packets of some frames, perhaps with the last ones still to come, then the arrivals are
   these frames in order: each well-formed one arrives with its number, command, length and
   payload.  And once the line is empty and the worker idle, none is missing.
   */
  lemma SentFramesArrive(s: State, sent: seq<Frame>)
    requires Reachable(s) && Transmission.AllWritable(sent)
    requires s.history.offered <= Slip.EncodeAll(Transmission.Packets(sent))
    ensures |s.history.arrived| <= |sent|
    ensures forall i :: 0 <= i < |s.history.arrived| && WellFormed(sent[i]) ==>
              |sent[i].payload| <= WRITE_BUFFER && s.history.arrived[i].frame == Echo(sent[i])
    ensures (s.history.offered == Slip.EncodeAll(Transmission.Packets(sent)) && s.memory.pending == []
             && s.worker.Selecting?) ==> |s.history.arrived| == |sent|
  {
    var packets := Transmission.Packets(sent);
    PacketsReceived(s, packets);
    ArrivalsAreThePacketsSent(s);
    forall i | 0 <= i < |s.history.arrived| && WellFormed(sent[i])
      ensures |sent[i].payload| <= WRITE_BUFFER && s.history.arrived[i].frame == Echo(sent[i])
    {
      assert DataOf(s.history.arrived)[i] == packets[i];
      assert s.history.arrived[i] in s.history.arrived && sent[i] in sent;
      ArrivesAsEcho(s.history.arrived[i], sent[i]);
    }
  }

  lemma ArrivesAsEcho(a: Arrival, f: Frame)
    requires Writable(f) && WellFormed(f) && a.data == Serialise(f) && ReadsAs(PacketOf(a), a.frame)
    ensures |f.payload| <= WRITE_BUFFER && a.frame == Echo(f)
  {
    RoundTripIff(f);
  }

  /**
   What has to become of a packet of 2 to 1500 bytes.  If it does not add up to 0 modulo 65536,
   a frame of zeros; if it does, and has seven bytes or more, the frame with exactly its
   command, number, status, length and payload.
   */
  ghost predicate ArrivesAs(p: seq<byte>, f: Frame) {
    2 <= |p| <= 1500 ==>
      var n := |p| - 2;
      if (Checksum.ByteSum(p[..n]) + FromLe16(p[n], p[n + 1])) % 0x1_0000 != 0 then f == Frame(0, 0, 0, 0, [])
      else n >= 5 ==> f == Frame(p[0], p[1], p[2], FromLe16(p[3], p[4]), p[5..n])
  }

  /** The receiving end, byte by byte: whatever packets the stick sends, the arrivals are these packets in order. */
  lemma SentPacketsArrive(s: State, packets: seq<seq<byte>>)
    requires Reachable(s) && s.history.offered <= Slip.EncodeAll(packets)
    requires forall p :: p in packets ==> p != []
    ensures |s.history.arrived| <= |packets|
    ensures forall i :: 0 <= i < |s.history.arrived| ==> ArrivesAs(packets[i], s.history.arrived[i].frame)
  {
    PacketsReceived(s, packets);
    ArrivalsAreThePacketsSent(s);
    forall i | 0 <= i < |s.history.arrived|
      ensures ArrivesAs(packets[i], s.history.arrived[i].frame)
    {
      assert DataOf(s.history.arrived)[i] == packets[i] && s.history.arrived[i] in s.history.arrived;
      ArrivalByBytes(s.history.arrived[i]);
    }
  }

  lemma ArrivalByBytes(a: Arrival)
    requires ReadsAs(PacketOf(a), a.frame)
    ensures ArrivesAs(a.data, a.frame)
  {
    if 2 <= |a.data| <= 1500 {
      ReadPacketIff(a.data);
    }
  }

  /** And so every frame of the stick, whatever its status, arrives as it was sent. */
  lemma StickFramesArrive(s: State, sent: seq<Frame>, i: nat)
    requires Reachable(s) && s.history.offered <= Slip.EncodeAll(StickPackets(sent))
    requires i < |s.history.arrived|
    ensures i < |sent| && (|sent[i].payload| <= 1493 ==> s.history.arrived[i].frame == sent[i])
  {
    var packets := StickPackets(sent);
    PacketsReceived(s, packets);
    ArrivalsAreThePacketsSent(s);
    var a := s.history.arrived[i];
    assert DataOf(s.history.arrived)[i] == packets[i] == StickPacket(sent[i]) && a in s.history.arrived;
    if |sent[i].payload| <= 1493 {
      StickRoundTrip(sent[i]);
    }
  }

  ghost function StickPackets(frames: seq<Frame>): (packets: seq<seq<byte>>)
    ensures forall p :: p in packets ==> p != []
  {
    seq(|frames|, i requires 0 <= i < |frames| => StickPacket(frames[i]))
  }

  /** The data of the arrivals are the packets sent. */
  lemma PacketsReceived(s: State, packets: seq<seq<byte>>)
    requires Reachable(s) && s.history.offered <= Slip.EncodeAll(packets)
    requires forall p :: p in packets ==> p != []
    ensures DataOf(s.history.arrived) <= packets
    ensures s.history.offered == Slip.EncodeAll(packets) && s.memory.pending == [] && s.worker.Selecting? ==>
              DataOf(s.history.arrived) == packets
  {
    ReceivingHolds(s);
    ArrivalsAreThePacketsSent(s);
    var start, offered, line := Slip.Receiver([], [], false), s.history.offered, Slip.EncodeAll(packets);
    Slip.FeedEncodeAll(packets);
    Slip.NonEmptyIsPart(packets);
    Slip.DecodeFromStart(offered);
    assert offered + line[|offered|..] == line;
    Slip.FeedConcat(start, offered, line[|offered|..]);
    Slip.FeedGrows(Slip.Feed(start, offered), line[|offered|..]);
    assert s.memory.pending == [] ==> s.history.consumed == offered;
    assert s.history.arrived + [] == s.history.arrived;
  }

  /**
   The checksum gate.  Unless the client asked for number 0 with command 0 or COMMAND_ANY, a
   frame that came as a packet of at least two bytes is handed out only if the packet carries
   a valid checksum, and the number and command asked for are those in the packet.  All of
   the frame is the packet's if it has five bytes or at least seven.
   */
  lemma OnlyValidFramesAreDelivered(s: State, i: nat)
    requires Reachable(s) && i < |s.history.delivered|
    ensures var d := s.history.delivered[i];
            && d.arrival < |s.history.arrived|
            && var a := s.history.arrived[d.arrival];
               var packet := PacketOf(a);
               && Matches(a.frame, d.want.number, d.want.command)
               && (|packet| >= 2 && !(d.want.number == 0 && d.want.command in {0, COMMAND_ANY}) ==>
                     && Checksum.ChecksumValid(packet) && Loaded(packet, INIT_FRAME, a.frame)
                     && packet[1] == d.want.number && d.want.command in {packet[0], COMMAND_ANY}
                     && (|packet| == 5 || |packet| >= 7 ==> ReadPacket(packet) == Accepted(a.frame)))
  {
    ReceivingHolds(s);
    var d := s.history.delivered[i];
    assert d in s.history.delivered && Satisfies(s.history, d.arrival, d.want);
    var a := s.history.arrived[d.arrival];
    assert a in s.history.arrived + InWorker(s.worker);
  }

  /** Frames with the same number and command are handed out in the order they arrived. */
  lemma ResponsesInArrivalOrder(s: State, i: nat, j: nat)
    requires Reachable(s) && i < j < |s.history.delivered|
    requires s.history.delivered[i].want.number == s.history.delivered[j].want.number
    requires s.history.delivered[i].want.command == s.history.delivered[j].want.command
    ensures s.history.delivered[i].arrival < s.history.delivered[j].arrival
  {
    ReceivingHolds(s);
  }
}
