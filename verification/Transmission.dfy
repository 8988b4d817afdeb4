/**
 The sending half of the protocol, over all runs: the wake-up tokens account for the send
 queue, and the line carries the pushed frames in push order.
 */
module Transmission {
  import opened Wrappers
  import opened Bytes
  import opened Frames
  import opened Protocol
  import Slip

  // ---------- Tokens ----------

  /** The number of clients that have pushed a frame and not yet written the pipe. */
  ghost function Unsignalled(clients: seq<Client>): nat {
    if clients == [] then 0
    else Unsignalled(clients[..|clients| - 1]) + if clients[|clients| - 1].Pushed? then 1 else 0
  }

  lemma {:induction false} UnsignalledUpdate(clients: seq<Client>, c: nat, client: Client)
    requires c < |clients|
    ensures Unsignalled(clients[c := client]) ==
            Unsignalled(clients) - (if clients[c].Pushed? then 1 else 0) + (if client.Pushed? then 1 else 0)
  {
    var n := |clients| - 1;
    if c == n {
      assert clients[c := client][..n] == clients[..n];
    } else {
      UnsignalledUpdate(clients[..n], c, client);
      assert clients[c := client][..n] == clients[..n][c := client];
    }
  }

  lemma {:induction false} NoneUnsignalled(clients: seq<Client>)
    requires forall c :: 0 <= c < |clients| ==> !clients[c].Pushed?
    ensures Unsignalled(clients) == 0
  {
    if clients != [] {
      NoneUnsignalled(clients[..|clients| - 1]);
    }
  }

  /** Each queued frame is covered: by two bytes in the pipe, by a client about to write them, or by the worker. */
  ghost predicate TokensConserved(s: State) {
    2 * |s.memory.sendQueue| ==
    |s.memory.pipe| + 2 * Unsignalled(s.clients) + if s.worker.SignalTaken? then 2 else 0
  }

  lemma TokensKept(s: State, step: Step)
    requires TokensConserved(s) && Enabled(s, step)
    ensures TokensConserved(Next(s, step))
  {
    var t := Next(s, step);
    if step.PushReceived? {
      if step.woken.Some? {
        UnsignalledUpdate(s.clients, step.woken.value, t.clients[step.woken.value]);
      }
    } else if t.clients != s.clients {
      UnsignalledUpdate(s.clients, step.c, t.clients[step.c]);
    }
  }

  // ---------- The line ----------

  ghost function FramesOf(requests: seq<Request>): seq<Frame> {
    seq(|requests|, i requires 0 <= i < |requests| => requests[i].frame)
  }

  ghost predicate AllWritable(frames: seq<Frame>) {
    forall f :: f in frames ==> Writable(f)
  }

  ghost function Packets(frames: seq<Frame>): (packets: seq<seq<byte>>)
    requires AllWritable(frames)
    ensures |packets| == |frames|
    ensures forall i :: 0 <= i < |frames| ==> packets[i] == Serialise(frames[i])
  {
    seq(|frames|, i requires 0 <= i < |frames| => Serialise(frames[i]))
  }

  /** The frame the worker has popped and not completely written. */
  ghost function Held(worker: Worker): seq<Frame> {
    if worker.Writing? then [worker.frame] else []
  }

  /** The part of that frame's packet that is on the line already. */
  ghost function Partial(worker: Worker): seq<byte>
    requires worker.Writing? ==> Writable(worker.frame) && worker.count <= |Encoded(worker.frame)|
  {
    if worker.Writing? then Encoded(worker.frame)[..worker.count] else []
  }

  /** Nothing pushed is lost, repeated or overtaken, and the line holds the encodings of what was written. */
  ghost predicate LineFaithful(s: State) {
    && AllWritable(FramesOf(s.history.pushed))
    && FramesOf(s.history.pushed) == s.history.written + Held(s.worker) + s.memory.sendQueue
    && AllWritable(s.history.written)
    && (s.worker.Writing? ==> Writable(s.worker.frame) && s.worker.count <= |Encoded(s.worker.frame)|)
    && (forall c :: 0 <= c < |s.clients| && s.clients[c].Numbered? ==> Writable(s.clients[c].request.frame))
    && s.memory.sent == Slip.EncodeAll(Packets(s.history.written)) + Partial(s.worker)
  }

  lemma LineKept(s: State, step: Step)
    requires LineFaithful(s) && Enabled(s, step)
    ensures LineFaithful(Next(s, step))
  {
    if step.Push? {
      LineKeptByPush(s, step.c);
    } else if step.Pop? {
      LineKeptByPop(s);
    } else if step.SendByte? {
      LineKeptBySendByte(s);
    } else if step.FinishWrite? {
      LineKeptByFinishWrite(s);
    } else {
      if step.TakeNumber? {
        RenumberedIsWritable(step.frame, s.memory.sequenceNumber);
      }
      OtherStepsDoNotSend(s, step);
      LineUnchanged(s, Next(s, step));
    }
  }

  /** Nothing of what the line depends on has changed, except that clients may have moved on. */
  ghost predicate SameSending(s: State, t: State) {
    && t.history.pushed == s.history.pushed && t.history.written == s.history.written
    && t.memory.sendQueue == s.memory.sendQueue && t.memory.sent == s.memory.sent
    && (t.worker == s.worker || (!t.worker.Writing? && !s.worker.Writing?))
    && forall c :: 0 <= c < |t.clients| && t.clients[c].Numbered? ==>
         Writable(t.clients[c].request.frame) || (c < |s.clients| && t.clients[c] == s.clients[c])
  }

  lemma OtherStepsDoNotSend(s: State, step: Step)
    requires Enabled(s, step) && !step.Push? && !step.Pop? && !step.SendByte? && !step.FinishWrite?
    requires step.TakeNumber? ==> Writable(step.frame.(sequenceNumber := s.memory.sequenceNumber))
    ensures SameSending(s, Next(s, step))
  {
  }

  lemma LineUnchanged(s: State, t: State)
    requires LineFaithful(s) && SameSending(s, t)
    ensures LineFaithful(t)
  {
  }

  lemma RenumberedIsWritable(f: Frame, number: byte)
    requires Writable(f)
    ensures Writable(f.(sequenceNumber := number))
  {
  }

  lemma LineKeptByPush(s: State, c: nat)
    requires LineFaithful(s) && Enabled(s, Push(c))
    ensures LineFaithful(Next(s, Push(c)))
  {
    var t, frame := Next(s, Push(c)), s.clients[c].request.frame;
    assert FramesOf(t.history.pushed) == FramesOf(s.history.pushed) + [frame];
    assert s.history.written + Held(s.worker) + s.memory.sendQueue + [frame]
        == s.history.written + Held(s.worker) + (s.memory.sendQueue + [frame]);
  }

  lemma LineKeptByPop(s: State)
    requires LineFaithful(s) && Enabled(s, Pop)
    ensures LineFaithful(Next(s, Pop))
  {
    var t, written, queue := Next(s, Pop), s.history.written, s.memory.sendQueue;
    if queue != [] {
      FirstIsPushed(s);
      HeadIsHeld(written, queue);
      assert Held(s.worker) == [] && Partial(s.worker) == [];
      assert Held(t.worker) == [queue[0]] && Partial(t.worker) == [];
    }
  }

  lemma FirstIsPushed(s: State)
    requires LineFaithful(s) && s.memory.sendQueue != []
    ensures Writable(s.memory.sendQueue[0])
  {
    assert s.memory.sendQueue[0] in FramesOf(s.history.pushed);
  }

  lemma HeadIsHeld(written: seq<Frame>, queue: seq<Frame>)
    requires queue != []
    ensures written + [] + queue == written + [queue[0]] + queue[1..]
  {
  }

  lemma LineKeptBySendByte(s: State)
    requires LineFaithful(s) && Enabled(s, SendByte)
    ensures LineFaithful(Next(s, SendByte))
  {
    var t := Next(s, SendByte);
    PartialGrows(s.worker.frame, s.worker.count);
    assert t.memory.sent == Slip.EncodeAll(Packets(s.history.written)) + Partial(t.worker);
  }

  lemma PartialGrows(f: Frame, n: nat)
    requires Writable(f) && n < |Encoded(f)|
    ensures Partial(Writing(f, n + 1)) == Partial(Writing(f, n)) + [Encoded(f)[n]]
  {
    var enc := Encoded(f);
    assert enc[..n + 1] == enc[..n] + [enc[n]];
  }

  lemma LineKeptByFinishWrite(s: State)
    requires LineFaithful(s) && Enabled(s, FinishWrite)
    ensures LineFaithful(Next(s, FinishWrite))
  {
    var t, frame, written := Next(s, FinishWrite), s.worker.frame, s.history.written;
    WrittenPackets(written, frame);
    WholePacket(s.worker);
    HeldIsWritten(written, frame, s.memory.sendQueue);
    assert Partial(t.worker) == [] && Held(t.worker) == [];
    assert t.memory.sent + [] == t.memory.sent;
  }

  lemma WholePacket(worker: Worker)
    requires worker.Writing? && Writable(worker.frame) && worker.count == |Encoded(worker.frame)|
    ensures Partial(worker) == Encoded(worker.frame)
  {
  }

  lemma HeldIsWritten(written: seq<Frame>, frame: Frame, queue: seq<Frame>)
    ensures written + [frame] + queue == (written + [frame]) + [] + queue
  {
  }

  lemma WrittenPackets(written: seq<Frame>, f: Frame)
    requires AllWritable(written) && Writable(f)
    ensures AllWritable(written + [f])
    ensures Slip.EncodeAll(Packets(written + [f])) == Slip.EncodeAll(Packets(written)) + Encoded(f)
  {
    var packets := Packets(written + [f]);
    assert packets[..|written|] == Packets(written);
  }

  // ---------- Every run ----------

  lemma {:induction false} SendingInvariant(clients: nat, steps: seq<Step>)
    requires Exec(Start(clients), steps).Some?
    ensures var s := Exec(Start(clients), steps).value; TokensConserved(s) && LineFaithful(s)
  {
    if steps == [] {
      NoneUnsignalled(Start(clients).clients);
    } else {
      SendingInvariant(clients, steps[..|steps| - 1]);
      var s := Exec(Start(clients), steps[..|steps| - 1]).value;
      TokensKept(s, steps[|steps| - 1]);
      LineKept(s, steps[|steps| - 1]);
    }
  }

  lemma SendingHolds(s: State)
    requires Reachable(s)
    ensures TokensConserved(s) && LineFaithful(s)
  {
    var clients: nat, steps: seq<Step> :| Exec(Start(clients), steps) == Some(s);
    SendingInvariant(clients, steps);
  }

  /** The worker's pop after a token never finds the queue empty. */
  lemma PopAfterTokenFindsAFrame(s: State)
    requires Reachable(s) && s.worker.SignalTaken?
    ensures s.memory.sendQueue != []
  {
    SendingHolds(s);
  }

  /**
   No frame is stranded: with frames queued, no client between its push and its signal and
   the worker idle, the pipe is readable, so on a quiet line the worker will take a token.
   */
  lemma NoFrameStranded(s: State)
    requires Reachable(s) && s.memory.sendQueue != [] && s.worker.Selecting?
    requires forall c :: 0 <= c < |s.clients| ==> !s.clients[c].Pushed?
    ensures s.memory.pipe != []
    ensures s.memory.pending == [] ==> Enabled(s, ReadPipe)
  {
    SendingHolds(s);
    NoneUnsignalled(s.clients);
  }

  /** The frame whose last byte the worker has just written. */
  ghost function Completed(worker: Worker): seq<Frame> {
    if worker.Writing? && Writable(worker.frame) && worker.count == |Encoded(worker.frame)| then [worker.frame] else []
  }

  /** The frames that are on the line completely. */
  ghost function Transmitted(s: State): seq<Frame> {
    s.history.written + Completed(s.worker)
  }

  /**
   End to end, in every reachable state, also in the middle of a packet: a receiver at the
   other end of the line has decoded exactly the packets of the frames transmitted so far,
   and these are the first frames pushed, in push order.
   */
  lemma WireDecodesToPushedFrames(s: State)
    requires Reachable(s)
    ensures AllWritable(Transmitted(s)) && Transmitted(s) <= FramesOf(s.history.pushed)
    ensures Slip.DecodeAll(s.memory.sent) == Packets(Transmitted(s))
    ensures |FramesOf(s.history.pushed)| - |Transmitted(s)| <= |s.memory.sendQueue| + 1
  {
    SendingHolds(s);
    DecodeWritten(s.history.written, s.worker);
  }

  /** What a receiver has decoded from complete packets and the part of one more. */
  lemma DecodeWritten(written: seq<Frame>, worker: Worker)
    requires AllWritable(written)
    requires worker.Writing? ==> Writable(worker.frame) && worker.count <= |Encoded(worker.frame)|
    ensures AllWritable(written + Completed(worker))
    ensures Slip.DecodeAll(Slip.EncodeAll(Packets(written)) + Partial(worker)) == Packets(written + Completed(worker))
  {
    var packets, start := Packets(written), Slip.Receiver([], [], false);
    var line := Slip.EncodeAll(packets) + Partial(worker);
    Slip.FeedEncodeAll(packets);
    Slip.NonEmptyIsPart(packets);
    Slip.FeedConcat(start, Slip.EncodeAll(packets), Partial(worker));
    Slip.DecodeFromStart(line);
    if worker.Writing? {
      FeedPartial(packets, worker);
    }
    CompletedPackets(written, worker);
  }

  lemma CompletedPackets(written: seq<Frame>, worker: Worker)
    requires AllWritable(written)
    ensures AllWritable(written + Completed(worker))
    ensures Packets(written + Completed(worker)) ==
            Packets(written) + if Completed(worker) == [] then [] else [Serialise(worker.frame)]
  {
  }

  lemma FeedPartial(done: seq<seq<byte>>, worker: Worker)
    requires worker.Writing? && Writable(worker.frame) && worker.count <= |Encoded(worker.frame)|
    ensures Slip.Feed(Slip.Receiver(done, [], false), Partial(worker)).done ==
            done + if Completed(worker) == [] then [] else [Serialise(worker.frame)]
  {
    var enc, packet := Encoded(worker.frame), Serialise(worker.frame);
    if worker.count < |enc| {
      Slip.EncodePrefix(done, packet, worker.count);
    } else {
      assert enc[..|enc|] == enc;
      Slip.FeedEncode(done, [], packet);
      Slip.NonEmptyOne([]);
      Slip.NonEmptyOne(packet);
      assert done + [] == done;
    }
  }

  /** And each decoded packet of a well-formed frame reads as that frame. */
  lemma WireReadsAsPushedFrames(s: State, i: nat)
    requires Reachable(s) && i < |Slip.DecodeAll(s.memory.sent)|
    ensures i < |s.history.pushed|
    ensures var packet, f := Slip.DecodeAll(s.memory.sent)[i], s.history.pushed[i].frame;
            |packet| <= READ_BUFFER && |f.payload| <= WRITE_BUFFER
            && (ReadPacket(packet) == Accepted(Echo(f)) <==> WellFormed(f))
  {
    WireDecodesToPushedFrames(s);
    var f := Transmitted(s)[i];
    assert f == FramesOf(s.history.pushed)[i];
    RoundTripIff(f);
  }

  // ---------- Draining ----------

  /** The steps of the worker that send; none of them needs a client or the stick. */
  predicate Sends(step: Step) {
    step.ReadPipe? || step.Pop? || step.SendByte? || step.FinishWrite?
  }

  /**
   From any reachable state in which the worker is idle, the line quiet and no client between
   push and signal, the worker can by itself bring every pushed frame onto the line, whole
   and in push order.
   */
  lemma {:induction false} WorkerDrains(s: State) returns (steps: seq<Step>, t: State)
    requires Reachable(s) && s.worker.Selecting? && s.memory.pending == []
    requires forall c :: 0 <= c < |s.clients| ==> !s.clients[c].Pushed?
    ensures forall step :: step in steps ==> Sends(step)
    ensures Exec(s, steps) == Some(t)
    ensures AllWritable(FramesOf(s.history.pushed))
    ensures Slip.DecodeAll(t.memory.sent) == Packets(FramesOf(s.history.pushed))
    ensures t.worker.Selecting? && t.clients == s.clients && t.history == s.history.(written := t.history.written)
    ensures t.memory == s.memory.(sendQueue := [], pipe := t.memory.pipe, sent := t.memory.sent)
    decreases |s.memory.sendQueue|
  {
    SendingHolds(s);
    if s.memory.sendQueue == [] {
      steps, t := [], s;
      WireDecodesToPushedFrames(s);
    } else {
      NoFrameStranded(s);
      var turn, u := WorkerTurn(s);
      var more;
      more, t := WorkerDrains(u);
      steps := turn + more;
      ExecConcat(s, turn, more);
    }
  }

  /** One turn of the idle worker: a token, a frame, its packet byte by byte. */
  lemma WorkerTurn(s: State) returns (steps: seq<Step>, t: State)
    requires Reachable(s) && s.worker.Selecting? && s.memory.pending == [] && s.memory.pipe != []
    ensures forall step :: step in steps ==> Sends(step)
    ensures Exec(s, steps) == Some(t) && Reachable(t)
    ensures s.memory.sendQueue != [] && Writable(s.memory.sendQueue[0])
    ensures t.memory == AfterSend(s.memory)
    ensures t.worker.Selecting? && t.clients == s.clients
    ensures t.history == s.history.(written := s.history.written + [s.memory.sendQueue[0]])
  {
    var two := WorkerPops(s);
    var frame := s.memory.sendQueue[0];
    FirstQueuedIsWritable(s);
    var enc := Encoded(frame);
    WorkerSends(two, |enc|);
    var three := AfterSending(two, |enc|);
    assert enc[0..|enc|] == enc;
    ExecSingle(three, FinishWrite);
    t := Next(three, FinishWrite);
    ExecConcat(s, [ReadPipe, Pop], Sending(|enc|));
    ExecConcat(s, [ReadPipe, Pop] + Sending(|enc|), [FinishWrite]);
    steps := [ReadPipe, Pop] + Sending(|enc|) + [FinishWrite];
    ReachableExec(s, steps);
  }

  lemma FirstQueuedIsWritable(s: State)
    requires Reachable(s) && s.memory.sendQueue != []
    ensures Writable(s.memory.sendQueue[0])
  {
    SendingHolds(s);
    FirstIsPushed(s);
  }

  /** The first two steps of a turn. */
  lemma WorkerPops(s: State) returns (t: State)
    requires Reachable(s) && s.worker.Selecting? && s.memory.pending == [] && s.memory.pipe != []
    ensures s.memory.sendQueue != []
    ensures Exec(s, [ReadPipe, Pop]) == Some(t)
    ensures t.worker == Writing(s.memory.sendQueue[0], 0) && t.clients == s.clients && t.history == s.history
    ensures t.memory == Dequeue(ClearSignal(s.memory))
  {
    ExecSingle(s, ReadPipe);
    ReachableExec(s, [ReadPipe]);
    PopAfterTokenFindsAFrame(Next(s, ReadPipe));
    ExecTwo(s, ReadPipe, Pop);
    t := Next(Next(s, ReadPipe), Pop);
  }

  ghost function Sending(n: nat): seq<Step> {
    seq(n, _ => SendByte)
  }

  /** The state `n` bytes later. */
  ghost function AfterSending(s: State, n: nat): State
    requires s.worker.Writing? && Writable(s.worker.frame) && s.worker.count + n <= |Encoded(s.worker.frame)|
  {
    var Writing(frame, count) := s.worker;
    s.(memory := Send(s.memory, Encoded(frame)[count..count + n]), worker := Writing(frame, count + n))
  }

  lemma {:induction false} WorkerSends(s: State, n: nat)
    requires s.worker.Writing? && Writable(s.worker.frame) && s.worker.count + n <= |Encoded(s.worker.frame)|
    ensures Exec(s, Sending(n)) == Some(AfterSending(s, n))
  {
    if n == 0 {
      NoByte(s);
    } else {
      WorkerSends(s, n - 1);
      ExecOne(s, Sending(n - 1), SendByte);
      assert Sending(n - 1) + [SendByte] == Sending(n);
      OneMoreByte(s, n - 1);
    }
  }

  lemma NoByte(s: State)
    requires s.worker.Writing? && Writable(s.worker.frame) && s.worker.count <= |Encoded(s.worker.frame)|
    ensures AfterSending(s, 0) == s
  {
    var none := Encoded(s.worker.frame)[s.worker.count..s.worker.count + 0];
    assert none == [] && s.memory.sent + none == s.memory.sent;
  }

  lemma OneMoreByte(s: State, n: nat)
    requires s.worker.Writing? && Writable(s.worker.frame) && s.worker.count + n < |Encoded(s.worker.frame)|
    ensures Enabled(AfterSending(s, n), SendByte)
    ensures Next(AfterSending(s, n), SendByte) == AfterSending(s, n + 1)
  {
    SliceGrows(s.memory.sent, Encoded(s.worker.frame), s.worker.count, n);
  }

  lemma SliceGrows(sent: seq<byte>, enc: seq<byte>, k: nat, n: nat)
    requires k + n < |enc|
    ensures sent + enc[k..k + n] + [enc[k + n]] == sent + enc[k..k + (n + 1)]
  {
    assert enc[k..k + (n + 1)] == enc[k..k + n] + [enc[k + n]];
  }
}
