/**
 Where things come from, over all runs: every request on its way is a frame some client gave
 to `conbee_enqueue_frame`, under the number it was given, and every client that waits, or was
 handed a frame, waits for just what its call of `conbee_wait_for_frame` asked for.
 */
module Origins {
  import opened Wrappers
  import opened Bytes
  import opened Frames
  import opened Protocol
  import opened Numbering
  import Reception
  import Slip
  import Transmission

  // ---------- Requests ----------

  /** The calls of `conbee_enqueue_frame`, in the order they took their numbers. */
  ghost function Takes(steps: seq<Step>): seq<Step> {
    if steps == [] then []
    else Takes(steps[..|steps| - 1]) + if steps[|steps| - 1].TakeNumber? then [steps[|steps| - 1]] else []
  }

  /** The request is this call's: its client's, and its frame under the number of the index. */
  ghost predicate GivenBy(call: Step, r: Request) {
    && call.TakeNumber? && call.c == r.client
    && r.frame == call.frame.(sequenceNumber := r.index % 0x100)
  }

  ghost predicate RequestGiven(r: Request, calls: seq<Step>) {
    r.index < |calls| && GivenBy(calls[r.index], r)
  }

  ghost predicate RequestsGiven(s: State, calls: seq<Step>) {
    && s.history.taken == |calls|
    && (forall r :: r in s.history.pushed ==> RequestGiven(r, calls))
    && (forall c :: 0 <= c < |s.clients| && s.clients[c].Numbered? ==> RequestGiven(s.clients[c].request, calls))
  }

  lemma RequestsGivenKept(s: State, step: Step, calls: seq<Step>)
    requires RequestsGiven(s, calls) && s.memory.sequenceNumber == s.history.taken % 0x100 && Enabled(s, step)
    ensures RequestsGiven(Next(s, step), calls + if step.TakeNumber? then [step] else [])
  {
    var t, more := Next(s, step), calls + if step.TakeNumber? then [step] else [];
    forall r | r in t.history.pushed
      ensures RequestGiven(r, more)
    {
      assert RequestGiven(r, calls);
    }
    forall c | 0 <= c < |t.clients| && t.clients[c].Numbered?
      ensures RequestGiven(t.clients[c].request, more)
    {
      assert t.clients[c] == s.clients[c] ==> RequestGiven(t.clients[c].request, calls);
    }
  }

  lemma {:induction false} RequestsGivenInvariant(clients: nat, steps: seq<Step>)
    requires Exec(Start(clients), steps).Some?
    ensures RequestsGiven(Exec(Start(clients), steps).value, Takes(steps))
  {
    if steps != [] {
      var init := steps[..|steps| - 1];
      RequestsGivenInvariant(clients, init);
      NumberingInvariant(clients, init);
      RequestsGivenKept(Exec(Start(clients), init).value, steps[|steps| - 1], Takes(init));
    }
  }

  /**
   From the caller to the line.  The `i`-th packet that has been decoded from the line is that
   of a frame a client gave to its call of `conbee_enqueue_frame`, unchanged but for the
   number: the call that took the n-th number, for some n, under n modulo 256.
   */
  lemma WireCarriesGivenFrames(clients: nat, steps: seq<Step>, i: nat)
    requires Exec(Start(clients), steps).Some?
    requires i < |Slip.DecodeAll(Exec(Start(clients), steps).value.memory.sent)|
    ensures var s := Exec(Start(clients), steps).value;
            && i < |s.history.pushed|
            && var r := s.history.pushed[i];
               && r.index < |Takes(steps)| && Takes(steps)[r.index].TakeNumber?
               && var f := Takes(steps)[r.index].frame.(sequenceNumber := r.index % 0x100);
                  Writable(f) && Slip.DecodeAll(s.memory.sent)[i] == Serialise(f)
  {
    var s := Exec(Start(clients), steps).value;
    assert Reachable(s);
    RequestsGivenInvariant(clients, steps);
    Transmission.WireDecodesToPushedFrames(s);
    assert Transmission.Transmitted(s)[i] == Transmission.FramesOf(s.history.pushed)[i];
    assert s.history.pushed[i] in s.history.pushed && RequestGiven(s.history.pushed[i], Takes(steps));
  }

  // ---------- Waits ----------

  /** The last call of `conbee_wait_for_frame` this client has begun. */
  ghost function LastWait(steps: seq<Step>, c: nat): Option<Step> {
    if steps == [] then None
    else if Begins(steps[|steps| - 1], c) then Some(steps[|steps| - 1])
    else LastWait(steps[..|steps| - 1], c)
  }

  ghost predicate Begins(step: Step, c: nat) {
    (step.WaitForOwn? || step.WaitForAny?) && step.c == c
  }

  /** What the call asked for: the number of the client's own request or the one given, and the command given. */
  ghost predicate AskedBy(call: Step, pushed: seq<Request>, want: Want) {
    && Begins(call, want.client) && want.command == call.command
    && if call.WaitForAny? then want.number == call.number && want.request == None
       else
         && call.i < |pushed| && pushed[call.i].client == want.client
         && want.number == pushed[call.i].frame.sequenceNumber && want.request == Some(pushed[call.i].index)
  }

  ghost predicate WantsAsked(s: State, steps: seq<Step>) {
    forall c :: 0 <= c < |s.clients| && Waits(s.clients[c]) ==>
      && WantOf(s.clients[c]).client == c
      && LastWait(steps, c).Some? && AskedBy(LastWait(steps, c).value, s.history.pushed, WantOf(s.clients[c]))
  }

  lemma WantsAskedKept(s: State, steps: seq<Step>, step: Step)
    requires WantsAsked(s, steps) && Enabled(s, step)
    ensures WantsAsked(Next(s, step), steps + [step])
  {
    var t := Next(s, step);
    assert (steps + [step])[..|steps|] == steps;
    forall c | 0 <= c < |t.clients| && Waits(t.clients[c])
      ensures WantOf(t.clients[c]).client == c && LastWait(steps + [step], c).Some?
      ensures AskedBy(LastWait(steps + [step], c).value, t.history.pushed, WantOf(t.clients[c]))
    {
      if Begins(step, c) {
        assert AskedBy(step, t.history.pushed, WantOf(t.clients[c]));
      } else {
        assert Waits(s.clients[c]) && WantOf(t.clients[c]) == WantOf(s.clients[c]);
      }
    }
  }

  ghost predicate DeliveriesAsked(h: History, steps: seq<Step>) {
    forall d :: d in h.delivered ==> exists call :: call in steps && AskedBy(call, h.pushed, d.want)
  }

  lemma DeliveriesAskedKept(s: State, steps: seq<Step>, step: Step)
    requires WantsAsked(s, steps) && DeliveriesAsked(s.history, steps) && Enabled(s, step)
    ensures DeliveriesAsked(Next(s, step).history, steps + [step])
  {
    var h, g := s.history, Next(s, step).history;
    forall d | d in g.delivered
      ensures exists call :: call in steps + [step] && AskedBy(call, g.pushed, d.want)
    {
      var call;
      if d in h.delivered {
        call :| call in steps && AskedBy(call, h.pushed, d.want);
      } else {
        assert d.want == WantOf(s.clients[step.c]);
        LastWaitIsAStep(steps, step.c);
        call := LastWait(steps, step.c).value;
      }
      assert AskedBy(call, g.pushed, d.want);
    }
  }

  lemma {:induction false} LastWaitIsAStep(steps: seq<Step>, c: nat)
    ensures LastWait(steps, c).Some? ==> LastWait(steps, c).value in steps
  {
    if steps != [] && !Begins(steps[|steps| - 1], c) {
      LastWaitIsAStep(steps[..|steps| - 1], c);
    }
  }

  lemma {:induction false} AskedInvariant(clients: nat, steps: seq<Step>)
    requires Exec(Start(clients), steps).Some?
    ensures WantsAsked(Exec(Start(clients), steps).value, steps)
    ensures DeliveriesAsked(Exec(Start(clients), steps).value.history, steps)
  {
    if steps != [] {
      var init, last := steps[..|steps| - 1], steps[|steps| - 1];
      AskedInvariant(clients, init);
      var s := Exec(Start(clients), init).value;
      WantsAskedKept(s, init, last);
      DeliveriesAskedKept(s, init, last);
      assert init + [last] == steps;
    }
  }

  /**
   From the queue to the caller.  Whatever was handed out was handed to a client for a call it
   made, and is what this call asked for: a frame with the number given, or with that of the
   client's own request, and with the command given, unless that was 0xFF.
   */
  lemma DeliveredAsAsked(clients: nat, steps: seq<Step>, d: Delivery)
    requires Exec(Start(clients), steps).Some?
    requires d in Exec(Start(clients), steps).value.history.delivered
    ensures var h := Exec(Start(clients), steps).value.history;
            && d.arrival < |h.arrived|
            && var f := h.arrived[d.arrival].frame;
               exists call ::
                 && call in steps && Begins(call, d.want.client)
                 && (call.command == 0xFF || f.command == call.command)
                 && if call.WaitForAny? then f.sequenceNumber == call.number && d.want.request == None
                    else
                      && call.i < |h.pushed| && h.pushed[call.i].client == d.want.client
                      && f.sequenceNumber == h.pushed[call.i].frame.sequenceNumber
                      && d.want.request == Some(h.pushed[call.i].index)
  {
    var s := Exec(Start(clients), steps).value;
    assert Reachable(s);
    AskedInvariant(clients, steps);
    Reception.ReceivingHolds(s);
    assert Reception.Satisfies(s.history, d.arrival, d.want);
    var call :| call in steps && AskedBy(call, s.history.pushed, d.want);
  }

  /** A client inside `conbee_wait_for_frame` waits for what its latest call has asked for. */
  lemma WaitsForWhatItAsked(clients: nat, steps: seq<Step>, c: nat)
    requires Exec(Start(clients), steps).Some? && c < |Exec(Start(clients), steps).value.clients|
    requires Waits(Exec(Start(clients), steps).value.clients[c])
    ensures var s := Exec(Start(clients), steps).value;
            var want := WantOf(s.clients[c]);
            && LastWait(steps, c).Some?
            && var call := LastWait(steps, c).value;
               && Begins(call, c) && want.client == c && want.command == call.command
               && if call.WaitForAny? then want.number == call.number && want.request == None
                  else
                    && call.i < |s.history.pushed| && s.history.pushed[call.i].client == c
                    && want.number == s.history.pushed[call.i].frame.sequenceNumber
                    && want.request == Some(s.history.pushed[call.i].index)
  {
    AskedInvariant(clients, steps);
  }
}
