/**
 The worker of src/conbee-send-receive.c and its clients, `conbee_enqueue_frame` and
 `conbee_wait_for_frame` of src/conbee.c, as a transition system.  Every section under a
 mutex, every read or write of the wake-up pipe and every byte on the line is one step; the
 steps of any number of clients, of the worker and of the stick interleave freely.
 */
module Protocol {
  import opened Wrappers
  import opened Bytes
  import opened Frames
  import opened WaitScan
  import Slip

  // ---------- The shared memory and what each atomic section does to it ----------

  /** The fields of `struct conbee_device` that threads share, and the two directions of the line. */
  datatype Memory = Memory(
    sequenceNumber: byte,
    sendQueue: seq<Frame>,
    pipe: seq<byte>,
    receiveQueue: seq<Frame>,
    sent: seq<byte>,
    pending: seq<byte>
  )

  /** Under `mutex_sequence_number`: the 8-bit counter moves on and wraps. */
  function CountUp(m: Memory): Memory {
    m.(sequenceNumber := (m.sequenceNumber + 1) % 0x100)
  }

  /** Under `mutex_send_queue`. */
  function Enqueue(m: Memory, f: Frame): Memory {
    m.(sendQueue := m.sendQueue + [f])
  }

  /** Under `mutex_send_pipe`: two bytes wake the worker. */
  function Signal(m: Memory): Memory {
    m.(pipe := m.pipe + [0, 0])
  }

  /** The worker reads at most two bytes from a readable pipe. */
  function ClearSignal(m: Memory): Memory {
    m.(pipe := if |m.pipe| <= 2 then [] else m.pipe[2..])
  }

  /** Under `mutex_send_queue`; popping an empty queue yields NULL and changes nothing. */
  function Dequeue(m: Memory): Memory {
    m.(sendQueue := if m.sendQueue == [] then [] else m.sendQueue[1..])
  }

  function Send(m: Memory, bytes: seq<byte>): Memory {
    m.(sent := m.sent + bytes)
  }

  /** The worker takes one packet from the line. */
  function TakePacket(m: Memory): Memory
    requires Slip.Receive(m.pending, []).Packet?
  {
    m.(pending := Slip.Receive(m.pending, []).rest)
  }

  /** Under `mutex_receive_queue`, in the worker. */
  function Store(m: Memory, f: Frame): Memory {
    m.(receiveQueue := m.receiveQueue + [f])
  }

  /** Under `mutex_receive_queue`, in a waiting client: the item at position `k` is deleted. */
  function Remove(m: Memory, k: nat): Memory
    requires k < |m.receiveQueue|
  {
    m.(receiveQueue := RemoveAt(m.receiveQueue, k))
  }

  function RemoveAt<T>(s: seq<T>, k: nat): seq<T>
    requires k < |s|
  {
    s[..k] + s[k + 1..]
  }

  // ---------- Threads ----------

  /** A frame a client has enqueued or is enqueuing; `index` says how many numbers were taken before its own. */
  datatype Request = Request(client: nat, index: nat, frame: Frame)

  /** What a call of `conbee_wait_for_frame` waits for, and the index of the client's own request if it is for that. */
  datatype Want = Want(client: nat, number: byte, command: byte, request: Option<nat>)

  /** The program point of a client. */
  datatype Client =
    | Idle                         // in the caller's code
    | Numbered(request: Request)   // the number is taken and written into the frame
    | Pushed(request: Request)     // the frame is in the queue, the pipe is not yet written
    | Scanning(want: Want)         // about to lock and search the receive queue
    | Unlocked(want: Want)         // nothing found, mutex released, about to lock again and sleep
    | Asleep(want: Want)           // in `pthread_cond_wait`

  /** A received packet, before it is cut to the reader's buffer, and the frame made of it. */
  datatype Arrival = Arrival(data: seq<byte>, frame: Frame)

  /** The program point of the worker. */
  datatype Worker =
    | Selecting
    | SignalTaken                          // two bytes read from the pipe, nothing popped yet
    | Writing(frame: Frame, count: nat)    // `count` bytes of the frame's packet are on the line
    | Reading                              // in `conbee_read_frame`
    | Received(arrival: Arrival)           // a packet read, its frame not yet pushed

  /** A frame handed to a waiting client: which arrival, and what the client asked for. */
  datatype Delivery = Delivery(arrival: nat, want: Want)

  /** What has happened so far; no thread reads it. */
  datatype History = History(
    taken: nat,                    // numbers taken
    pushed: seq<Request>,          // requests pushed on the send queue
    written: seq<Frame>,           // frames written completely
    offered: seq<byte>,            // bytes the stick has sent
    consumed: seq<byte>,           // those the worker has read
    arrived: seq<Arrival>,         // what the worker pushed on the receive queue
    queued: seq<nat>,              // the arrivals now in the receive queue
    delivered: seq<Delivery>       // the arrivals handed out
  )

  datatype State = State(memory: Memory, clients: seq<Client>, worker: Worker, history: History)

  /** After `conbee_connect`, with any number of client threads. */
  function Start(clients: nat): State {
    State(Memory(0, [], [], [], [], []), seq(clients, _ => Idle), Selecting, History(0, [], [], [], [], [], [], []))
  }

  // ---------- Steps ----------

  datatype Step =
    | TakeNumber(c: nat, frame: Frame)
    | Push(c: nat)
    | WritePipe(c: nat)
    | WaitForOwn(c: nat, i: nat, command: byte)
    | WaitForAny(c: nat, number: byte, command: byte)
    | Search(c: nat)
    | Sleep(c: nat)
    | Wake(c: nat)
    | ReadPipe
    | Pop
    | SendByte
    | FinishWrite
    | StartRead
    | FinishRead(frame: Frame)
    | PushReceived(woken: Option<nat>)
    | Arrive(bytes: seq<byte>)

  /** The bytes of the packet the worker is writing. */
  function Encoded(f: Frame): seq<byte>
    requires Writable(f)
  {
    Slip.Encode(Serialise(f))
  }

  /** `pthread_cond_signal` wakes a sleeping client if there is one. */
  ghost predicate CanWake(s: State, woken: Option<nat>) {
    if woken.Some? then woken.value < |s.clients| && s.clients[woken.value].Asleep?
    else forall c :: 0 <= c < |s.clients| ==> !s.clients[c].Asleep?
  }

  ghost predicate Enabled(s: State, step: Step) {
    match step
    case TakeNumber(c, frame) => c < |s.clients| && s.clients[c].Idle? && Writable(frame)
    case Push(c) => c < |s.clients| && s.clients[c].Numbered?
    case WritePipe(c) => c < |s.clients| && s.clients[c].Pushed?
    // A client knows the numbers its calls of `conbee_enqueue_frame` have returned.
    case WaitForOwn(c, i, _) =>
      c < |s.clients| && s.clients[c].Idle? && i < |s.history.pushed| && s.history.pushed[i].client == c
    case WaitForAny(c, _, _) => c < |s.clients| && s.clients[c].Idle?
    case Search(c) => c < |s.clients| && s.clients[c].Scanning?
    case Sleep(c) => c < |s.clients| && s.clients[c].Unlocked?
    case Wake(c) => c < |s.clients| && s.clients[c].Asleep?
    // `select` reports the line first; the pipe is read only when the line has nothing.
    case ReadPipe => s.worker.Selecting? && s.memory.pending == [] && s.memory.pipe != []
    case Pop => s.worker.SignalTaken?
    // `LineFaithful` shows that every frame the worker holds is writable.
    case SendByte => s.worker.Writing? && Writable(s.worker.frame) && s.worker.count < |Encoded(s.worker.frame)|
    case FinishWrite => s.worker.Writing? && Writable(s.worker.frame) && s.worker.count == |Encoded(s.worker.frame)|
    case StartRead => s.worker.Selecting? && s.memory.pending != []
    case FinishRead(frame) =>
      s.worker.Reading? && NextPacket(s.memory.pending).Some? && ReadsAs(NextPacket(s.memory.pending).value, frame)
    case PushReceived(woken) => s.worker.Received? && CanWake(s, woken)
    case Arrive(_) => true
  }

  function Next(s: State, step: Step): State
    requires Enabled(s, step)
  {
    var m, h := s.memory, s.history;
    match step
    case TakeNumber(c, frame) =>
      var request := Request(c, h.taken, frame.(sequenceNumber := m.sequenceNumber));
      State(CountUp(m), s.clients[c := Numbered(request)], s.worker, h.(taken := h.taken + 1))
    case Push(c) =>
      var request := s.clients[c].request;
      State(Enqueue(m, request.frame), s.clients[c := Pushed(request)], s.worker, h.(pushed := h.pushed + [request]))
    case WritePipe(c) => s.(memory := Signal(m), clients := s.clients[c := Idle])
    case WaitForOwn(c, i, command) =>
      var request := h.pushed[i];
      s.(clients := s.clients[c := Scanning(Want(c, request.frame.sequenceNumber, command, Some(request.index)))])
    case WaitForAny(c, number, command) =>
      s.(clients := s.clients[c := Scanning(Want(c, number, command, None))])
    case Search(c) =>
      var want := s.clients[c].want;
      var k := FirstMatch(m.receiveQueue, want.number, want.command);
      if k < |m.receiveQueue| then State(Remove(m, k), s.clients[c := Idle], s.worker, HandOut(h, k, want))
      else s.(clients := s.clients[c := Unlocked(want)])
    case Sleep(c) => s.(clients := s.clients[c := Asleep(s.clients[c].want)])
    case Wake(c) => s.(clients := s.clients[c := Scanning(s.clients[c].want)])
    case ReadPipe => s.(memory := ClearSignal(m), worker := SignalTaken)
    case Pop =>
      s.(memory := Dequeue(m), worker := if m.sendQueue == [] then Selecting else Writing(m.sendQueue[0], 0))
    case SendByte =>
      var Writing(frame, count) := s.worker;
      s.(memory := Send(m, [Encoded(frame)[count]]), worker := Writing(frame, count + 1))
    case FinishWrite => s.(worker := Selecting, history := h.(written := h.written + [s.worker.frame]))
    case StartRead => s.(worker := Reading)
    case FinishRead(frame) =>
      var Packet(data, rest) := Slip.Receive(m.pending, []);
      s.(memory := TakePacket(m), worker := Received(Arrival(data, frame)),
         history := h.(consumed := h.consumed + m.pending[..|m.pending| - |rest|]))
    case PushReceived(woken) =>
      State(Store(m, s.worker.arrival.frame),
            if woken.Some? then s.clients[woken.value := Scanning(s.clients[woken.value].want)] else s.clients,
            Selecting,
            h.(arrived := h.arrived + [s.worker.arrival], queued := h.queued + [|h.arrived|]))
    case Arrive(bytes) =>
      s.(memory := m.(pending := m.pending + bytes), history := h.(offered := h.offered + bytes))
  }

  /** The arrival queued at position `k` is handed out. */
  function HandOut(h: History, k: nat, want: Want): History {
    if k >= |h.queued| then h
    else h.(queued := RemoveAt(h.queued, k), delivered := h.delivered + [Delivery(h.queued[k], want)])
  }

  // ---------- Whole calls ----------

  /** The memory after an undisturbed `conbee_enqueue_frame`. */
  function AfterEnqueue(m: Memory, f: Frame): Memory {
    Signal(Enqueue(CountUp(m), f.(sequenceNumber := m.sequenceNumber)))
  }

  /** The memory after an undisturbed sending turn of the worker. */
  function AfterSend(m: Memory): Memory
    requires m.sendQueue != [] ==> Writable(m.sendQueue[0])
  {
    var popped := Dequeue(ClearSignal(m));
    if m.sendQueue == [] then popped else Send(popped, Encoded(m.sendQueue[0]))
  }

  // ---------- Runs ----------

  /** Where `steps` lead from `s`, if each is enabled in its turn. */
  ghost function Exec(s: State, steps: seq<Step>): Option<State> {
    if steps == [] then Some(s) else Then(Exec(s, steps[..|steps| - 1]), steps[|steps| - 1])
  }

  /** `s` occurs in some run of some number of clients. */
  ghost predicate Reachable(s: State) {
    exists clients: nat, steps: seq<Step> :: Exec(Start(clients), steps) == Some(s)
  }

  /** The outcome of one more step. */
  ghost function Then(before: Option<State>, step: Step): Option<State> {
    match before
    case None => None
    case Some(t) => if Enabled(t, step) then Some(Next(t, step)) else None
  }

  /** `P` holds in every state from `s` to where `steps` lead. */
  ghost predicate Always(s: State, steps: seq<Step>, P: State -> bool)
    requires Exec(s, steps).Some?
    decreases |steps|
  {
    P(Exec(s, steps).value) && (steps != [] ==> Always(s, steps[..|steps| - 1], P))
  }

  lemma ExecOne(s: State, steps: seq<Step>, step: Step)
    ensures Exec(s, steps + [step]) == Then(Exec(s, steps), step)
  {
    assert (steps + [step])[..|steps|] == steps;
  }

  lemma ExecSingle(s: State, step: Step)
    requires Enabled(s, step)
    ensures Exec(s, [step]) == Some(Next(s, step))
  {
    ExecOne(s, [], step);
    assert [] + [step] == [step];
  }

  lemma ExecTwo(s: State, first: Step, second: Step)
    requires Enabled(s, first) && Enabled(Next(s, first), second)
    ensures Exec(s, [first, second]) == Some(Next(Next(s, first), second))
  {
    ExecSingle(s, first);
    ExecOne(s, [first], second);
    assert [first] + [second] == [first, second];
  }

  lemma {:induction false} ExecConcat(s: State, first: seq<Step>, second: seq<Step>)
    requires Exec(s, first).Some?
    ensures Exec(s, first + second) == Exec(Exec(s, first).value, second)
  {
    if second == [] {
      assert first + second == first;
    } else {
      var init, last := second[..|second| - 1], second[|second| - 1];
      ExecConcat(s, first, init);
      ExecOne(s, first + init, last);
      assert first + second == first + init + [last] && second == init + [last];
    }
  }

  lemma ReachableExec(s: State, steps: seq<Step>)
    requires Reachable(s) && Exec(s, steps).Some?
    ensures Reachable(Exec(s, steps).value)
  {
    var clients: nat, before: seq<Step> :| Exec(Start(clients), before) == Some(s);
    ExecConcat(Start(clients), before, steps);
  }
}
