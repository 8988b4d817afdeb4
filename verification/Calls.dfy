/**
 The library calls and the turns of the worker when nothing interferes, as runs of the
 transition system: they make of the shared memory what the methods of the device make of it.
 */
module Calls {
  import opened Wrappers
  import opened Bytes
  import opened Frames
  import opened Protocol
  import Reception
  import Slip
  import Transmission
  import WaitScan

  // ---------- The worker ----------

  /** What a finished turn of the worker makes of the memory. */
  ghost predicate Turned(m: Memory, n: Memory) {
    if m.pending != [] then
      && Slip.Receive(m.pending, []).Packet?
      && exists f: Frame :: ReadsAs(NextPacket(m.pending).value, f) && n == Store(TakePacket(m), f)
    else if m.pipe != [] then
      (m.sendQueue != [] ==> Writable(m.sendQueue[0])) && n == AfterSend(m)
    else
      n == m
  }

  /**
   A turn of the idle worker is a run of its own steps, whatever the device method makes of
   the memory: a frame written byte by byte, a packet read and its frame pushed, or nothing.
   `woken` is the client the signal reaches, if a frame is pushed.
   */
  lemma TurnIsARun(s: State, m: Memory, woken: Option<nat>) returns (steps: seq<Step>, t: State)
    requires Reachable(s) && s.worker.Selecting? && Turned(s.memory, m) && CanWake(s, woken)
    ensures forall step :: step in steps ==> Works(step)
    ensures Exec(s, steps) == Some(t) && t.memory == m && t.worker.Selecting?
    ensures s.memory.pending != [] ==>
              && |t.history.arrived| == |s.history.arrived| + 1 && s.history.arrived <= t.history.arrived
              && m.receiveQueue == s.memory.receiveQueue + [t.history.arrived[|s.history.arrived|].frame]
              && t.history.written == s.history.written
    ensures s.memory.pending == [] ==> t.clients == s.clients && t.history.arrived == s.history.arrived
    ensures s.memory.pending == [] && s.memory.pipe != [] ==>
              && s.memory.sendQueue != [] && m.sendQueue == s.memory.sendQueue[1..]
              && t.history.written == s.history.written + [s.memory.sendQueue[0]]
              && Writable(s.memory.sendQueue[0])
              && m.sent == s.memory.sent + Slip.Encode(Serialise(s.memory.sendQueue[0]))
  {
    if s.memory.pending != [] {
      var f: Frame :| ReadsAs(NextPacket(s.memory.pending).value, f) && m == Store(TakePacket(s.memory), f);
      steps := [StartRead, FinishRead(f), PushReceived(woken)];
      t := ReceiveTurnIsARun(s, f, woken);
    } else if s.memory.pipe != [] {
      steps, t := Transmission.WorkerTurn(s);
    } else {
      steps, t := [], s;
    }
  }

  /** The steps of the worker. */
  predicate Works(step: Step) {
    Transmission.Sends(step) || step.StartRead? || step.FinishRead? || step.PushReceived?
  }

  /** An undisturbed receiving turn is three steps of the worker. */
  lemma ReceiveTurnIsARun(s: State, f: Frame, woken: Option<nat>) returns (t: State)
    requires s.worker.Selecting? && s.memory.pending != [] && CanWake(s, woken)
    requires NextPacket(s.memory.pending).Some? && ReadsAs(NextPacket(s.memory.pending).value, f)
    ensures Exec(s, [StartRead, FinishRead(f), PushReceived(woken)]) == Some(t)
    ensures t.memory == Store(TakePacket(s.memory), f) && t.worker.Selecting?
    ensures t.clients == if woken.None? then s.clients
                         else s.clients[woken.value := Scanning(s.clients[woken.value].want)]
    ensures t.history.arrived == s.history.arrived + [Arrival(Slip.Receive(s.memory.pending, []).data, f)]
    ensures t.history.queued == s.history.queued + [|s.history.arrived|]
    ensures t.history == s.history.(consumed := t.history.consumed, arrived := t.history.arrived,
                                    queued := t.history.queued)
  {
    ExecTwo(s, StartRead, FinishRead(f));
    ExecOne(s, [StartRead, FinishRead(f)], PushReceived(woken));
    assert [StartRead, FinishRead(f)] + [PushReceived(woken)] == [StartRead, FinishRead(f), PushReceived(woken)];
    t := Next(Next(Next(s, StartRead), FinishRead(f)), PushReceived(woken));
  }

  /** The line comes first, and while it holds no whole packet, the worker that has begun to read can do nothing. */
  lemma BlockedTurnIsARun(s: State) returns (t: State)
    requires s.worker.Selecting? && s.memory.pending != [] && NextPacket(s.memory.pending).None?
    ensures forall step | Works(step) && Enabled(s, step) :: step == StartRead
    ensures Exec(s, [StartRead]) == Some(t) && t.memory == s.memory
    ensures forall step | Works(step) :: !Enabled(t, step)
  {
    ExecSingle(s, StartRead);
    t := Next(s, StartRead);
  }

  /**
   Nothing on the line can stop the worker: from any reachable state in which it is idle, it
   can by itself take every whole packet from the line, in order, and push a frame for each.
   What is left on the line is no whole packet.
   */
  lemma {:induction false} WorkerReceives(s: State) returns (steps: seq<Step>, t: State)
    requires Reachable(s) && s.worker.Selecting?
    ensures forall step :: step in steps ==> Works(step)
    ensures Exec(s, steps) == Some(t) && t.worker.Selecting? && NextPacket(t.memory.pending).None?
    ensures Reception.DataOf(t.history.arrived)
         == Reception.DataOf(s.history.arrived) + Slip.DecodeAll(s.memory.pending)
    ensures |t.memory.receiveQueue| == |s.memory.receiveQueue| + |Slip.DecodeAll(s.memory.pending)|
    ensures t.memory == s.memory.(pending := t.memory.pending, receiveQueue := t.memory.receiveQueue)
    ensures t.history.offered == s.history.offered
    decreases |s.memory.pending|
  {
    var before := Reception.DataOf(s.history.arrived);
    if NextPacket(s.memory.pending).None? {
      steps, t := [], s;
      assert before + [] == before;
    } else {
      var turn, u := WorkerReceivesOne(s);
      var more;
      more, t := WorkerReceives(u);
      steps := turn + more;
      ExecConcat(s, turn, more);
      PacketFirst(before, s.memory.pending);
    }
  }

  lemma PacketFirst(before: seq<seq<byte>>, s: seq<byte>)
    requires Slip.Receive(s, []).Packet?
    ensures var Packet(data, rest) := Slip.Receive(s, []);
            && |Slip.DecodeAll(s)| == 1 + |Slip.DecodeAll(rest)|
            && before + Slip.DecodeAll(s) == before + [data] + Slip.DecodeAll(rest)
  {
  }

  /** Whatever bytes the stick sends: they can come at any time, and every whole packet is then received. */
  lemma WhateverIsSentIsReceived(s: State, bytes: seq<byte>) returns (steps: seq<Step>, t: State)
    requires Reachable(s) && s.worker.Selecting?
    ensures forall step :: step in steps ==> Works(step)
    ensures Exec(s, [Arrive(bytes)] + steps) == Some(t) && t.worker.Selecting?
    ensures Reception.DataOf(t.history.arrived)
         == Reception.DataOf(s.history.arrived) + Slip.DecodeAll(s.memory.pending + bytes)
    ensures t.history.offered == s.history.offered + bytes
  {
    ExecSingle(s, Arrive(bytes));
    ReachableExec(s, [Arrive(bytes)]);
    var one := Next(s, Arrive(bytes));
    steps, t := WorkerReceives(one);
    ExecConcat(s, [Arrive(bytes)], steps);
  }

  /** One packet of these. */
  lemma WorkerReceivesOne(s: State) returns (steps: seq<Step>, t: State)
    requires Reachable(s) && s.worker.Selecting? && NextPacket(s.memory.pending).Some?
    ensures forall step :: step in steps ==> Works(step)
    ensures Exec(s, steps) == Some(t) && Reachable(t) && t.worker.Selecting?
    ensures var Packet(data, rest) := Slip.Receive(s.memory.pending, []);
            && Reception.DataOf(t.history.arrived) == Reception.DataOf(s.history.arrived) + [data]
            && t.memory == s.memory.(pending := rest, receiveQueue := t.memory.receiveQueue)
            && |t.memory.receiveQueue| == |s.memory.receiveQueue| + 1
    ensures t.history.offered == s.history.offered
  {
    var _, _ := Slip.ReceiveTokens(s.memory.pending, []);
    var f := SomeReading(NextPacket(s.memory.pending).value);
    var woken := SomeClient(s);
    steps := [StartRead, FinishRead(f), PushReceived(woken)];
    t := ReceiveTurnIsARun(s, f, woken);
    ReachableExec(s, steps);
  }

  /** Every packet reads as some frame. */
  lemma SomeReading(packet: seq<byte>) returns (f: Frame)
    requires 0 < |packet| <= READ_BUFFER
    ensures ReadsAs(packet, f)
  {
    var n := |packet|;
    match ReadPacket(packet)
    case Rejected => f := INIT_FRAME;
    case Accepted(g) => f := g;
    case Undetermined =>
      f := Frame(packet[0], if n > 1 then packet[1] else 0, if n > 2 then packet[2] else 0,
                 if n == 6 then FromLe16(packet[3], packet[4]) else if n > 3 then packet[3] else 0,
                 if n == 6 then [packet[5]] + seq(0xFFFE, _ => 0) else []);
  }

  /** Whom a signal reaches. */
  lemma SomeClient(s: State) returns (woken: Option<nat>)
    ensures CanWake(s, woken)
  {
    if c: nat :| c < |s.clients| && s.clients[c].Asleep? {
      woken := Some(c);
    } else {
      woken := None;
    }
  }

  // ---------- The clients ----------

  /** An undisturbed `conbee_enqueue_frame` is three steps of one client. */
  lemma EnqueueIsARun(s: State, c: nat, frame: Frame) returns (t: State)
    requires c < |s.clients| && s.clients[c].Idle? && Writable(frame)
    ensures Exec(s, [TakeNumber(c, frame), Push(c), WritePipe(c)]) == Some(t)
    ensures t.memory == AfterEnqueue(s.memory, frame) && t.clients == s.clients && t.worker == s.worker
    ensures var request := Request(c, s.history.taken, frame.(sequenceNumber := s.memory.sequenceNumber));
            t.history == s.history.(taken := s.history.taken + 1, pushed := s.history.pushed + [request])
  {
    var one := Next(s, TakeNumber(c, frame));
    var two := Next(one, Push(c));
    ExecTwo(s, TakeNumber(c, frame), Push(c));
    ExecOne(s, [TakeNumber(c, frame), Push(c)], WritePipe(c));
    assert [TakeNumber(c, frame), Push(c)] + [WritePipe(c)] == [TakeNumber(c, frame), Push(c), WritePipe(c)];
    t := Next(two, WritePipe(c));
  }

  /**
   An undisturbed `conbee_wait_for_frame`, for whatever it waits, is a run of its client: it
   takes out the first match and is done, or it changes nothing and sleeps.  The frame taken
   out is that of the arrival the history records.
   */
  lemma WaitIsARun(s: State, begin: Step) returns (t: State)
    requires Reachable(s) && (begin.WaitForOwn? || begin.WaitForAny?)
    requires begin.c < |s.clients| && s.clients[begin.c].Idle?
    requires begin.WaitForOwn? ==> begin.i < |s.history.pushed| && s.history.pushed[begin.i].client == begin.c
    ensures var number := if begin.WaitForOwn? then s.history.pushed[begin.i].frame.sequenceNumber else begin.number;
            var request := if begin.WaitForOwn? then Some(s.history.pushed[begin.i].index) else None;
            var want := Want(begin.c, number, begin.command, request);
            var k := WaitScan.FirstMatch(s.memory.receiveQueue, number, begin.command);
            if k < |s.memory.receiveQueue| then
              && Exec(s, [begin, Search(begin.c)]) == Some(t)
              && t == State(Remove(s.memory, k), s.clients, s.worker, HandOut(s.history, k, want))
              && k < |s.history.queued| && s.history.queued[k] < |s.history.arrived|
              && s.history.arrived[s.history.queued[k]].frame == s.memory.receiveQueue[k]
            else
              && Exec(s, [begin, Search(begin.c), Sleep(begin.c)]) == Some(t)
              && t == s.(clients := s.clients[begin.c := Asleep(want)])
  {
    var c, one := begin.c, Next(s, begin);
    var want := one.clients[c].want;
    t := Next(one, Search(c));
    ExecTwo(s, begin, Search(c));
    SearchMoves(s, begin);
    if WaitScan.FirstMatch(s.memory.receiveQueue, want.number, want.command) < |s.memory.receiveQueue| {
      QueueHoldsArrivals(s);
    } else {
      ExecOne(s, [begin, Search(c)], Sleep(c));
      assert [begin, Search(c)] + [Sleep(c)] == [begin, Search(c), Sleep(c)];
      t := Next(t, Sleep(c));
    }
  }

  lemma QueueHoldsArrivals(s: State)
    requires Reachable(s)
    ensures |s.history.queued| == |s.memory.receiveQueue|
    ensures forall k :: 0 <= k < |s.history.queued| ==>
              && s.history.queued[k] < |s.history.arrived|
              && s.history.arrived[s.history.queued[k]].frame == s.memory.receiveQueue[k]
  {
    Reception.ReceivingHolds(s);
  }

  /** The search made by a call that has just begun. */
  lemma SearchMoves(s: State, begin: Step)
    requires (begin.WaitForOwn? || begin.WaitForAny?) && Enabled(s, begin)
    ensures var want := Next(s, begin).clients[begin.c].want;
            var k := WaitScan.FirstMatch(s.memory.receiveQueue, want.number, want.command);
            Next(Next(s, begin), Search(begin.c)) ==
            if k < |s.memory.receiveQueue| then
              State(Remove(s.memory, k), s.clients, s.worker, HandOut(s.history, k, want))
            else s.(clients := s.clients[begin.c := Unlocked(want)])
  {
    var c, want := begin.c, Next(s, begin).clients[begin.c].want;
    var scanning := s.clients[c := Scanning(want)];
    assert Next(s, begin) == s.(clients := scanning);
    assert scanning[c := Idle] == s.clients;
    assert scanning[c := Unlocked(want)] == s.clients[c := Unlocked(want)];
  }
}
