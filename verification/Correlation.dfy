/**
 Responses and requests, over all runs: which requests' answers can reach a client that waits
 for its own request, and how far requests may be apart for it to get no answer but its own.
 The line may corrupt packets, and the stick may send frames nobody asked for.
 */
module Correlation {
  import opened Wrappers
  import opened Bytes
  import opened Frames
  import opened Protocol
  import opened Numbering
  import opened Reception
  import opened Transmission
  import opened WaitScan
  import opened Calls

  // ---------- Deliveries and requests ----------

  /** A client that was handed a frame for its own request had pushed that request. */
  ghost predicate DeliveriesOwned(h: History) {
    forall d :: d in h.delivered && d.want.request.Some? ==> Owns(h.pushed, d.want.client, d.want.request.value)
  }

  lemma DeliveriesOwnedKept(s: State, step: Step)
    requires DeliveriesOwned(s.history) && NumberingSound(s) && Enabled(s, step)
    ensures DeliveriesOwned(Next(s, step).history)
  {
    var h, g := s.history, Next(s, step).history;
    forall d | d in g.delivered && d.want.request.Some?
      ensures Owns(g.pushed, d.want.client, d.want.request.value)
    {
      if d in h.delivered {
        OwnsMonotone(h.pushed, g.pushed, d.want.client, d.want.request.value);
      } else {
        assert LabelledClient(s.clients[step.c], step.c, h.taken) && d.want == WantOf(s.clients[step.c]);
      }
    }
  }

  lemma {:induction false} DeliveriesOwnedInvariant(clients: nat, steps: seq<Step>)
    requires Exec(Start(clients), steps).Some?
    ensures DeliveriesOwned(Exec(Start(clients), steps).value.history)
  {
    if steps != [] {
      var init := steps[..|steps| - 1];
      DeliveriesOwnedInvariant(clients, init);
      NumberingInvariant(clients, init);
      DeliveriesOwnedKept(Exec(Start(clients), init).value, steps[|steps| - 1]);
    }
  }

  /** The frame handed out carries this number. */
  ghost predicate Carries(h: History, d: Delivery, number: byte) {
    d.arrival < |h.arrived| && h.arrived[d.arrival].frame.sequenceNumber == number
  }

  /**
   One response.  If the frame handed to a client that waits for its own request carries the
   number of a pushed request less than 256 numbers away, that is the client's request.
   */
  lemma ResponseReachesItsRequest(s: State, d: Delivery, r: Request)
    requires Reachable(s) && d in s.history.delivered && d.want.request.Some?
    requires r in s.history.pushed && Carries(s.history, d, r.frame.sequenceNumber)
    requires -0x100 < r.index - d.want.request.value < 0x100
    ensures r.index == d.want.request.value && r.client == d.want.client
  {
    NumberingHolds(s);
    ReceivingHolds(s);
    var clients: nat, steps: seq<Step> :| Exec(Start(clients), steps) == Some(s);
    DeliveriesOwnedInvariant(clients, steps);
    assert Labelled(r, r.client, s.history.taken) && Satisfies(s.history, d.arrival, d.want);
    SameNumberIff(r.index, d.want.request.value);
    var i :| 0 <= i < |s.history.pushed| && s.history.pushed[i] == r;
    assert Owns(s.history.pushed, r.client, r.index);
    OneOwner(s, r.index, r.client, d.want.client);
  }

  // ---------- A stick that answers ----------

  /** An arrival that answers request `n`: a packet read as it was sent, under the number of the request. */
  ghost predicate IsAnswer(a: Arrival, n: nat) {
    ReadPacket(PacketOf(a)) == Accepted(a.frame) && a.frame.sequenceNumber == n % 0x100
  }

  /**
   `answers` says of each arrival which request it answers.  An arrival that answers none was
   corrupted on the line, or is a frame the stick has sent of its own accord.
   */
  ghost predicate Answering(h: History, answers: seq<Option<nat>>) {
    && |h.arrived| <= |answers|
    && forall k :: 0 <= k < |h.arrived| && answers[k].Some? ==> IsAnswer(h.arrived[k], answers[k].value)
  }

  /** The request of index `n` is on the line completely. */
  ghost predicate IsTransmitted(s: State, n: nat) {
    exists i :: 0 <= i < |s.history.pushed| && i < |Transmitted(s)| && s.history.pushed[i].index == n
  }

  /** The stick has answered only requests that were transmitted, and none twice. */
  ghost predicate Honest(s: State, answers: seq<Option<nat>>) {
    && Answering(s.history, answers)
    && (forall k :: 0 <= k < |s.history.arrived| && answers[k].Some? ==> IsTransmitted(s, answers[k].value))
    && forall i, j :: 0 <= i < j < |s.history.arrived| && answers[i].Some? ==> answers[i] != answers[j]
  }

  /** The answer to request `n` is in the receive queue. */
  ghost predicate AnswerQueued(s: State, answers: seq<Option<nat>>, n: nat) {
    exists q :: q in s.history.queued && q < |answers| && answers[q] == Some(n)
  }

  ghost predicate Awaited(s: State, n: nat) {
    exists c :: 0 <= c < |s.clients| && Waits(s.clients[c]) && WantOf(s.clients[c]).request == Some(n)
  }

  /** Queued answers and requests waited for are less than 256 numbers apart. */
  ghost predicate Close(s: State, answers: seq<Option<nat>>) {
    forall m: nat, n: nat :: AnswerQueued(s, answers, m) && Awaited(s, n) ==> -0x100 < m - n < 0x100
  }

  /** From a request on that is waited for or whose answer is queued, at most `bound` numbers have been taken. */
  ghost predicate Recent(s: State, answers: seq<Option<nat>>, bound: nat) {
    forall n: nat :: AnswerQueued(s, answers, n) || Awaited(s, n) ==> s.history.taken - n <= bound
  }

  lemma RecentIsClose(s: State, answers: seq<Option<nat>>)
    requires Reachable(s) && Honest(s, answers) && Recent(s, answers, 0x100)
    ensures Close(s, answers)
  {
    NumberingHolds(s);
    ReceivingHolds(s);
    forall m: nat, n: nat | AnswerQueued(s, answers, m) && Awaited(s, n)
      ensures -0x100 < m - n < 0x100
    {
      var q :| q in s.history.queued && q < |answers| && answers[q] == Some(m);
      assert IsTransmitted(s, m);
      var i :| 0 <= i < |s.history.pushed| && s.history.pushed[i].index == m;
      assert Labelled(s.history.pushed[i], s.history.pushed[i].client, s.history.taken);
      var c :| 0 <= c < |s.clients| && Waits(s.clients[c]) && WantOf(s.clients[c]).request == Some(n);
      assert LabelledClient(s.clients[c], c, s.history.taken);
    }
  }

  /**
   Arrival `q` is one that this client should get: the answer to its request, with the command
   it waits for, or an arrival that answers no request but looks like it.
   */
  ghost predicate Fits(h: History, answers: seq<Option<nat>>, q: nat, want: Want) {
    && q < |h.arrived| && q < |answers|
    && if answers[q].Some? then answers[q] == want.request && want.command in {COMMAND_ANY, h.arrived[q].frame.command}
       else Satisfies(h, q, want)
  }

  /**
   One search, exactly.  With queued answers close to the requests waited for, a client that
   waits for its own request finds a frame if and only if an arrival that fits is queued, and
   it finds the first of these.
   */
  lemma SearchFindsIffQueued(s: State, answers: seq<Option<nat>>, c: nat)
    requires Reachable(s) && Answering(s.history, answers) && Close(s, answers)
    requires Enabled(s, Search(c)) && s.clients[c].want.request.Some?
    ensures var want, queued := s.clients[c].want, s.history.queued;
            var k := FirstMatch(s.memory.receiveQueue, want.number, want.command);
            && (k < |s.memory.receiveQueue| <==> exists q :: q in queued && Fits(s.history, answers, q, want))
            && (k < |s.memory.receiveQueue| ==>
                 && k < |queued| && Fits(s.history, answers, queued[k], want)
                 && forall q :: q in queued && Fits(s.history, answers, q, want) ==> queued[k] <= q)
  {
    NumberingHolds(s);
    ReceivingHolds(s);
    var want, queued := s.clients[c].want, s.history.queued;
    forall i | 0 <= i < |queued|
      ensures Fits(s.history, answers, queued[i], want)
         <==> Matches(s.memory.receiveQueue[i], want.number, want.command)
    {
      FitsIffMatches(s, answers, c, i);
    }
    FirstFit(s, answers, want);
  }

  lemma FirstFit(s: State, answers: seq<Option<nat>>, want: Want)
    requires QueueFaithful(s)
    requires forall i :: 0 <= i < |s.history.queued| ==>
               (Fits(s.history, answers, s.history.queued[i], want)
                <==> Matches(s.memory.receiveQueue[i], want.number, want.command))
    ensures var queued := s.history.queued;
            var k := FirstMatch(s.memory.receiveQueue, want.number, want.command);
            && (k < |s.memory.receiveQueue| <==> exists q :: q in queued && Fits(s.history, answers, q, want))
            && (k < |s.memory.receiveQueue| ==>
                 && k < |queued| && Fits(s.history, answers, queued[k], want)
                 && forall q :: q in queued && Fits(s.history, answers, q, want) ==> queued[k] <= q)
  {
    var queued := s.history.queued;
    var k := FirstMatch(s.memory.receiveQueue, want.number, want.command);
    if k < |queued| {
      assert queued[k] in queued;
    }
    forall q | q in queued && Fits(s.history, answers, q, want)
      ensures k < |queued| && queued[k] <= q
    {
      var i :| 0 <= i < |queued| && queued[i] == q;
      assert k <= i;
    }
  }

  lemma FitsIffMatches(s: State, answers: seq<Option<nat>>, c: nat, i: nat)
    requires NumberingSound(s) && QueueFaithful(s) && Answering(s.history, answers) && Close(s, answers)
    requires Enabled(s, Search(c)) && s.clients[c].want.request.Some?
    requires i < |s.history.queued|
    ensures var want := s.clients[c].want;
            Fits(s.history, answers, s.history.queued[i], want)
            <==> Matches(s.memory.receiveQueue[i], want.number, want.command)
  {
    var want, q := s.clients[c].want, s.history.queued[i];
    assert q in s.history.queued;
    assert LabelledClient(s.clients[c], c, s.history.taken);
    if answers[q].Some? {
      assert AnswerQueued(s, answers, answers[q].value);
      assert Waits(s.clients[c]) && WantOf(s.clients[c]) == want;
      assert Awaited(s, want.request.value);
      SameNumberIff(answers[q].value, want.request.value);
    }
  }

  // ---------- Every run ----------

  /** Nobody who waited for a request of its own was handed the answer to another. */
  ghost predicate AnswersRight(h: History, answers: seq<Option<nat>>) {
    forall d :: d in h.delivered && d.want.request.Some? ==>
      d.arrival < |answers| && (answers[d.arrival].Some? ==> answers[d.arrival] == d.want.request)
  }

  lemma {:induction false} AnswersStayRight(clients: nat, steps: seq<Step>, answers: seq<Option<nat>>)
    requires Exec(Start(clients), steps).Some?
    requires Answering(Exec(Start(clients), steps).value.history, answers)
    requires Always(Start(clients), steps, s => Close(s, answers))
    ensures AnswersRight(Exec(Start(clients), steps).value.history, answers)
  {
    if steps != [] {
      var init, last := steps[..|steps| - 1], steps[|steps| - 1];
      var s := Exec(Start(clients), init).value;
      Grows(s, last);
      AnswersStayRight(clients, init, answers);
      if last.Search? && Next(s, last).history != s.history && s.clients[last.c].want.request.Some? {
        assert Reachable(s);
        SearchFindsIffQueued(s, answers, last.c);
      }
    }
  }

  lemma Grows(s: State, step: Step)
    requires Enabled(s, step)
    ensures s.history.arrived <= Next(s, step).history.arrived && s.history.taken <= Next(s, step).history.taken
  {
  }

  /** A run in which the stick is honest, and outstanding requests are recent, at every moment. */
  ghost predicate HonestRun(clients: nat, steps: seq<Step>, answers: seq<Option<nat>>, bound: nat) {
    && Exec(Start(clients), steps).Some?
    && Always(Start(clients), steps, s => Honest(s, answers) && Recent(s, answers, bound))
  }

  /**
   Response correlation, end to end.  Let the stick answer only transmitted requests, none
   twice and each under its number, and let no request be waited for, or its answer left in
   the queue, while more than 256 numbers are taken from its own on.  Then in every run a
   client that is handed a frame for its own request is handed the answer to that request, or
   a frame that answers none; no request's answer goes to two waits; and a frame that answers
   none comes from a packet with a valid checksum if it had two bytes, unless number 0 is
   waited for with command 0 or any.
   */
  lemma EveryWaitGetsItsAnswer(clients: nat, steps: seq<Step>, answers: seq<Option<nat>>)
    requires HonestRun(clients, steps, answers, 0x100)
    ensures var h := Exec(Start(clients), steps).value.history;
            && AnswersRight(h, answers)
            && DeliveriesOwned(h)
            && (forall i, j :: 0 <= i < j < |h.delivered| && Answered(h, answers, i) && Answered(h, answers, j) ==>
                  h.delivered[i].want.request != h.delivered[j].want.request)
            && (forall d :: d in h.delivered && !(d.want.number == 0 && d.want.command in {0, COMMAND_ANY}) ==>
                  d.arrival < |h.arrived| && !ReadPacket(PacketOf(h.arrived[d.arrival])).Rejected?)
  {
    var s := Exec(Start(clients), steps).value;
    var h := s.history;
    AlwaysClose(clients, steps, answers);
    AnswersStayRight(clients, steps, answers);
    DeliveriesOwnedInvariant(clients, steps);
    assert Reachable(s);
    ReceivingHolds(s);
    forall i, j | 0 <= i < j < |h.delivered| && Answered(h, answers, i) && Answered(h, answers, j)
      ensures h.delivered[i].want.request != h.delivered[j].want.request
    {
      assert h.delivered[i] in h.delivered && h.delivered[j] in h.delivered;
      ArrivalsAreHandedOutOnce(s, h.delivered[i].arrival);
    }
    forall d | d in h.delivered && !(d.want.number == 0 && d.want.command in {0, COMMAND_ANY})
      ensures d.arrival < |h.arrived| && !ReadPacket(PacketOf(h.arrived[d.arrival])).Rejected?
    {
      var i :| 0 <= i < |h.delivered| && h.delivered[i] == d;
      OnlyValidFramesAreDelivered(s, i);
    }
  }

  /** The `i`-th delivery is of an answer, to a client that waited for its own request. */
  ghost predicate Answered(h: History, answers: seq<Option<nat>>, i: nat) {
    && i < |h.delivered| && h.delivered[i].want.request.Some?
    && h.delivered[i].arrival < |answers| && answers[h.delivered[i].arrival].Some?
  }

  lemma {:induction false} AlwaysClose(clients: nat, steps: seq<Step>, answers: seq<Option<nat>>)
    requires HonestRun(clients, steps, answers, 0x100)
    ensures Always(Start(clients), steps, s => Close(s, answers))
  {
    var s := Exec(Start(clients), steps).value;
    assert Reachable(s);
    RecentIsClose(s, answers);
    if steps != [] {
      AlwaysClose(clients, steps[..|steps| - 1], answers);
    }
  }

  /**
   A client that names its command is safe from the rest, too: if it is not command 0 or any,
   and no valid frame that answers no request has this command, the client is handed nothing
   but its answer.
   */
  lemma NamedCommandGetsItsAnswer(clients: nat, steps: seq<Step>, answers: seq<Option<nat>>, d: Delivery)
    requires HonestRun(clients, steps, answers, 0x100)
    requires d in Exec(Start(clients), steps).value.history.delivered
    requires d.want.request.Some? && d.want.command !in {0, COMMAND_ANY}
    requires forall k :: 0 <= k < |answers| && k < |Exec(Start(clients), steps).value.history.arrived| ==>
               var a := Exec(Start(clients), steps).value.history.arrived[k];
               answers[k].None? && !ReadPacket(PacketOf(a)).Rejected? ==> a.frame.command != d.want.command
    ensures d.arrival < |answers| && answers[d.arrival] == d.want.request
  {
    EveryWaitGetsItsAnswer(clients, steps, answers);
    var s := Exec(Start(clients), steps).value;
    assert Reachable(s);
    ReceivingHolds(s);
    assert Satisfies(s.history, d.arrival, d.want);
  }

  // ---------- The bound is exact ----------

  /** Whatever an honest stick sends, nobody is handed the answer to another's request if `bound` is kept. */
  ghost predicate Safe(bound: nat) {
    forall clients: nat, steps: seq<Step>, answers: seq<Option<nat>> ::
      HonestRun(clients, steps, answers, bound) ==> AnswersRight(Exec(Start(clients), steps).value.history, answers)
  }

  /**
   What a caller has to keep, exactly: waiting is safe if and only if at most 256 numbers are
   taken from a request on until it has been waited for and its answer collected.
   */
  lemma SafeIff(bound: nat)
    ensures Safe(bound) <==> bound <= 0x100
  {
    forall clients: nat, steps: seq<Step>, answers: seq<Option<nat>> |
      bound <= 0x100 && HonestRun(clients, steps, answers, bound)
      ensures AnswersRight(Exec(Start(clients), steps).value.history, answers)
    {
      AlwaysImplies(Start(clients), steps, s => Honest(s, answers) && Recent(s, answers, bound),
                    s => Honest(s, answers) && Recent(s, answers, 0x100));
      EveryWaitGetsItsAnswer(clients, steps, answers);
    }
    if bound > 0x100 {
      var answers, n := [Some(0)], 0x101;
      var clients, steps, s := AnswerHandedOut(0, 0x100, n);
      AlwaysImplies(Start(clients), steps, t => HonestWithin(t, answers, n),
                    t => Honest(t, answers) && Recent(t, answers, bound));
      assert s.history.delivered[0] in s.history.delivered && HonestRun(clients, steps, answers, bound);
      assert !AnswersRight(s.history, answers);
    }
  }

  lemma {:induction false} AlwaysImplies(s: State, steps: seq<Step>, P: State -> bool, Q: State -> bool)
    requires Exec(s, steps).Some? && Always(s, steps, P) && forall t :: P(t) ==> Q(t)
    ensures Always(s, steps, Q)
  {
    if steps != [] {
      AlwaysImplies(s, steps[..|steps| - 1], P, Q);
    }
  }

  /** In some run with an honest stick, a client that waits for its own request `n` is handed the answer to `m`. */
  ghost predicate CanReach(m: nat, n: nat) {
    exists clients: nat, steps: seq<Step>, answers: seq<Option<nat>>, i: nat ::
      Reaches(clients, steps, answers, i, m, n)
  }

  ghost predicate Reaches(clients: nat, steps: seq<Step>, answers: seq<Option<nat>>, i: nat, m: nat, n: nat) {
    && Exec(Start(clients), steps).Some?
    && Always(Start(clients), steps, s => Honest(s, answers))
    && var h := Exec(Start(clients), steps).value.history;
       && i < |h.delivered| && h.delivered[i].want.request == Some(n)
       && h.delivered[i].arrival < |answers| && answers[h.delivered[i].arrival] == Some(m)
  }

  /** Whose answer can reach whom, exactly: that of a request a multiple of 256 numbers away. */
  lemma CanReachIff(m: nat, n: nat)
    ensures CanReach(m, n) <==> (m - n) % 0x100 == 0
  {
    forall clients: nat, steps: seq<Step>, answers: seq<Option<nat>>, i: nat | Reaches(clients, steps, answers, i, m, n)
      ensures (m - n) % 0x100 == 0
    {
      var s := Exec(Start(clients), steps).value;
      assert Reachable(s);
      ReceivingHolds(s);
      var d := s.history.delivered[i];
      assert d in s.history.delivered && Satisfies(s.history, d.arrival, d.want);
      SameNumberIff(m, n);
    }
    if (m - n) % 0x100 == 0 {
      var total := (if m < n then n else m) + 1;
      var clients, steps, s := AnswerHandedOut(m, n, total);
      var answers := [Some(m)];
      AlwaysImplies(Start(clients), steps, t => HonestWithin(t, answers, total), t => Honest(t, answers));
      assert Reaches(clients, steps, answers, 0, m, n);
    }
  }

  // ---------- The runs ----------

  /** Firmware requests of one client, in the order of their numbers. */
  ghost function Requests(n: nat): seq<Request> {
    seq(n, i requires 0 <= i => Request(0, i, RequestFrame(i)))
  }

  ghost function RequestFrame(i: nat): Frame {
    Frame(0x0D, i % 0x100, 0, 5, [])
  }

  /** These requests have been enqueued, and nothing has arrived. */
  ghost predicate Enqueued(s: State, n: nat) {
    && s.clients == [Idle] && s.worker.Selecting?
    && s.memory.pending == [] && s.memory.receiveQueue == [] && s.memory.sequenceNumber == n % 0x100
    && s.history == Requested(n).(written := s.history.written)
  }

  ghost function Requested(n: nat): History {
    History(n, Requests(n), [], [], [], [], [], [])
  }

  lemma {:induction false} EnqueueMany(n: nat) returns (s: State)
    ensures Reachable(s) && Enqueued(s, n)
  {
    if n == 0 {
      s := Start(1);
      assert Exec(s, []) == Some(s);
    } else {
      var before := EnqueueMany(n - 1);
      s := EnqueueOneMore(before, n - 1);
      ReachableExec(before, [TakeNumber(0, RequestFrame(0)), Push(0), WritePipe(0)]);
    }
  }

  lemma EnqueueOneMore(s: State, n: nat) returns (t: State)
    requires Enqueued(s, n)
    ensures Exec(s, [TakeNumber(0, RequestFrame(0)), Push(0), WritePipe(0)]) == Some(t)
    ensures Enqueued(t, n + 1)
  {
    t := EnqueueIsARun(s, 0, RequestFrame(0));
    NextNumber(n);
    assert Requests(n) + [Request(0, n, RequestFrame(n))] == Requests(n + 1);
  }

  ghost predicate HonestWithin(s: State, answers: seq<Option<nat>>, n: nat) {
    Honest(s, answers) && s.history.taken <= n
  }

  /** Before anything arrives, the stick is honest. */
  lemma {:induction false} HonestBefore(clients: nat, steps: seq<Step>, answers: seq<Option<nat>>, n: nat)
    requires Exec(Start(clients), steps).Some?
    requires Exec(Start(clients), steps).value.history.arrived == []
    requires Exec(Start(clients), steps).value.history.taken <= n
    ensures Always(Start(clients), steps, s => HonestWithin(s, answers, n))
  {
    if steps != [] {
      var init := steps[..|steps| - 1];
      Grows(Exec(Start(clients), init).value, steps[|steps| - 1]);
      HonestBefore(clients, init, answers, n);
    }
  }

  lemma HonestOneMore(clients: nat, steps: seq<Step>, step: Step, answers: seq<Option<nat>>, n: nat)
    requires Exec(Start(clients), steps).Some? && Enabled(Exec(Start(clients), steps).value, step)
    requires Always(Start(clients), steps, s => HonestWithin(s, answers, n))
    requires HonestWithin(Next(Exec(Start(clients), steps).value, step), answers, n)
    ensures Exec(Start(clients), steps + [step]) == Some(Next(Exec(Start(clients), steps).value, step))
    ensures Always(Start(clients), steps + [step], s => HonestWithin(s, answers, n))
  {
    ExecOne(Start(clients), steps, step);
    assert (steps + [step])[..|steps|] == steps;
  }

  /** With `total` requests on the line, the client waits for request `n` when the answer to `m` is queued. */
  lemma AnswerHandedOut(m: nat, n: nat, total: nat) returns (clients: nat, steps: seq<Step>, s: State)
    requires m < total && n < total && (m - n) % 0x100 == 0
    ensures Exec(Start(clients), steps) == Some(s)
    ensures Always(Start(clients), steps, t => HonestWithin(t, [Some(m)], total))
    ensures s.history.delivered == [Delivery(0, Want(0, n % 0x100, COMMAND_ANY, Some(n)))]
  {
    var answered;
    clients, steps, answered := AnswerQueuedAlone(m, total);
    SameNumberIff(m, n);
    var begin := WaitForOwn(0, n, COMMAND_ANY);
    var waiting := Next(answered, begin);
    StillHonest(answered, waiting, m);
    HonestOneMore(clients, steps, begin, [Some(m)], total);
    s := Next(waiting, Search(0));
    StillHonest(answered, s, m);
    HonestOneMore(clients, steps + [begin], Search(0), [Some(m)], total);
    steps := steps + [begin] + [Search(0)];
  }

  /** With `total` requests on the line, the stick answers `m`; the worker reads the answer and pushes it. */
  lemma AnswerQueuedAlone(m: nat, total: nat) returns (clients: nat, steps: seq<Step>, s: State)
    requires m < total
    ensures Exec(Start(clients), steps) == Some(s)
    ensures Always(Start(clients), steps, t => HonestWithin(t, [Some(m)], total))
    ensures s.clients == [Idle] && s.history.taken == total && s.history.pushed == Requests(total)
    ensures s.history.delivered == [] && s.history.queued == [0] && s.memory.receiveQueue == [RequestFrame(m)]
    ensures HonestWithin(s, [Some(m)], total) && IsTransmitted(s, m)
  {
    var one := EnqueueMany(total);
    var drain, two := WorkerDrains(one);
    ReachableExec(one, drain);
    WireDecodesToPushedFrames(two);
    var read;
    clients, steps, read := AnswerRead(two, m);
    HonestBefore(clients, steps, [Some(m)], total);
    s := AnswerPushed(read, m, total);
    HonestOneMore(clients, steps, PushReceived(None), [Some(m)], total);
    steps := steps + [PushReceived(None)];
  }

  lemma AnswerPushed(s: State, m: nat, total: nat) returns (t: State)
    requires s.worker.Received? && s.worker.arrival.frame == RequestFrame(m) && IsAnswer(s.worker.arrival, m)
    requires s.clients == [Idle] && s.memory.receiveQueue == []
    requires s.history == Requested(total).(written := s.history.written, offered := s.history.offered,
                                            consumed := s.history.consumed)
    requires m < total <= |s.history.written|
    ensures Enabled(s, PushReceived(None)) && t == Next(s, PushReceived(None))
    ensures t.clients == [Idle] && t.history.taken == total && t.history.pushed == Requests(total)
    ensures t.history.delivered == [] && t.history.queued == [0] && t.memory.receiveQueue == [RequestFrame(m)]
    ensures HonestWithin(t, [Some(m)], total) && IsTransmitted(t, m)
  {
    t := Next(s, PushReceived(None));
    assert t.history.pushed[m].index == m;
    assert IsTransmitted(t, m);
  }

  /** The stick sends the answer, and the worker reads it. */
  lemma AnswerRead(s: State, m: nat) returns (clients: nat, steps: seq<Step>, t: State)
    requires Reachable(s) && s.worker.Selecting? && s.memory.pending == []
    ensures Exec(Start(clients), steps) == Some(t)
    ensures t.worker.Received? && t.worker.arrival.frame == RequestFrame(m) && IsAnswer(t.worker.arrival, m)
    ensures t.clients == s.clients && t.memory == s.memory
    ensures t.history == s.history.(offered := t.history.offered, consumed := t.history.consumed)
  {
    var f := RequestFrame(m);
    var arrive := Arrive(Encoded(f));
    assert [] + Encoded(f) == Encoded(f);
    LineRoundTrip(f);
    ExecSingle(s, arrive);
    var one := Next(s, arrive);
    ExecTwo(one, StartRead, FinishRead(f));
    t := Next(Next(one, StartRead), FinishRead(f));
    ExecConcat(s, [arrive], [StartRead, FinishRead(f)]);
    var before: seq<Step>;
    clients, before :| Exec(Start(clients), before) == Some(s);
    steps := before + ([arrive] + [StartRead, FinishRead(f)]);
    ExecConcat(Start(clients), before, [arrive] + [StartRead, FinishRead(f)]);
  }

  lemma StillHonest(s: State, t: State, m: nat)
    requires IsTransmitted(s, m) && Honest(s, [Some(m)])
    requires t.worker == s.worker && t.history.written == s.history.written
    requires t.history.pushed == s.history.pushed && t.history.arrived == s.history.arrived
    ensures Honest(t, [Some(m)])
  {
    assert Transmitted(t) == Transmitted(s);
  }
}
