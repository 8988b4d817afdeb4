/**
 Sleeping clients, over all runs: exactly when a client is left asleep while a frame it waits
 for is in the receive queue, and two runs in which that happens.
 */
module Waiting {
  import opened Wrappers
  import opened Bytes
  import opened Frames
  import opened Protocol
  import opened WaitScan
  import opened Calls

  ghost predicate Satisfied(frame: Frame, want: Want) {
    Matches(frame, want.number, want.command)
  }

  /** No client sleeps while a frame it waits for is queued. */
  ghost predicate NoneStranded(s: State) {
    forall c, i :: 0 <= c < |s.clients| && s.clients[c].Asleep? && 0 <= i < |s.memory.receiveQueue| ==>
      !Satisfied(s.memory.receiveQueue[i], s.clients[c].want)
  }

  /**
   The two ways to miss a frame.  A client goes to sleep though a frame it waits for has been
   queued since its search, for the mutex was free in between; or a frame is pushed and the
   one signal wakes nobody or another client, while a client that waits for it sleeps on.
   */
  ghost predicate Misses(s: State, step: Step)
    requires Enabled(s, step)
  {
    match step
    case Sleep(c) => exists f :: f in s.memory.receiveQueue && Satisfied(f, s.clients[c].want)
    case PushReceived(woken) =>
      exists c :: 0 <= c < |s.clients| && s.clients[c].Asleep? && woken != Some(c)
                  && Satisfied(s.worker.arrival.frame, s.clients[c].want)
    case _ => false
  }

  /** Only a miss strands a client, and every miss does. */
  lemma StrandsIffMisses(s: State, step: Step)
    requires NoneStranded(s) && Enabled(s, step)
    ensures NoneStranded(Next(s, step)) <==> !Misses(s, step)
  {
    var t := Next(s, step);
    if step.Sleep? {
      assert t.clients[step.c].Asleep? && t.memory == s.memory;
    } else if step.PushReceived? {
      PushStrandsIffMisses(s, step.woken);
    } else if step.Search? {
      assert forall f :: f in t.memory.receiveQueue ==> f in s.memory.receiveQueue;
      assert forall c :: 0 <= c < |t.clients| && t.clients[c].Asleep? ==> t.clients[c] == s.clients[c];
    } else {
      assert t.memory.receiveQueue == s.memory.receiveQueue;
    }
  }

  lemma PushStrandsIffMisses(s: State, woken: Option<nat>)
    requires NoneStranded(s) && Enabled(s, PushReceived(woken))
    ensures NoneStranded(Next(s, PushReceived(woken))) <==> !Misses(s, PushReceived(woken))
  {
    var t, n := Next(s, PushReceived(woken)), |s.memory.receiveQueue|;
    assert t.memory.receiveQueue[n] == s.worker.arrival.frame;
    if Misses(s, PushReceived(woken)) {
      var c :| 0 <= c < |s.clients| && s.clients[c].Asleep? && woken != Some(c)
               && Satisfied(s.worker.arrival.frame, s.clients[c].want);
      assert t.clients[c] == s.clients[c];
    }
  }

  /** No step of the run misses a frame. */
  ghost predicate NeverMisses(s: State, steps: seq<Step>)
    requires Exec(s, steps).Some?
    decreases |steps|
  {
    steps == [] ||
    var init, last := steps[..|steps| - 1], steps[|steps| - 1];
    NeverMisses(s, init) && !Misses(Exec(s, init).value, last)
  }

  /**
   Whole runs, exactly: throughout a run no client ever sleeps on a queued frame if and only
   if no step of the run misses one.
   */
  lemma {:induction false} NeverStrandedIff(clients: nat, steps: seq<Step>)
    requires Exec(Start(clients), steps).Some?
    ensures Always(Start(clients), steps, NoneStranded) <==> NeverMisses(Start(clients), steps)
  {
    if steps != [] {
      var init, last := steps[..|steps| - 1], steps[|steps| - 1];
      NeverStrandedIff(clients, init);
      var s := Exec(Start(clients), init).value;
      if NoneStranded(s) {
        StrandsIffMisses(s, last);
      } else {
        assert !Always(Start(clients), init, NoneStranded);
      }
    }
  }

  /** A signal is lost only if nobody sleeps; otherwise it moves exactly one sleeping client on to search again. */
  lemma SignalWakesOne(s: State, woken: Option<nat>)
    requires Enabled(s, PushReceived(woken))
    ensures var clients := Next(s, PushReceived(woken)).clients;
            if exists c :: 0 <= c < |s.clients| && s.clients[c].Asleep? then
              exists c :: 0 <= c < |s.clients| && s.clients[c].Asleep?
                          && clients == s.clients[c := Scanning(s.clients[c].want)]
            else clients == s.clients
  {
    if woken.Some? {
      assert s.clients[woken.value].Asleep?;
    }
  }

  /** A stranded client needs no more than a wake-up: it then takes the first queued frame that it waits for. */
  lemma WakingRescues(s: State, c: nat) returns (t: State)
    requires c < |s.clients| && s.clients[c].Asleep? && |s.history.queued| == |s.memory.receiveQueue|
    requires exists f :: f in s.memory.receiveQueue && Satisfied(f, s.clients[c].want)
    ensures Exec(s, [Wake(c), Search(c)]) == Some(t)
    ensures exists k: nat ::
              && k < |s.memory.receiveQueue| && Satisfied(s.memory.receiveQueue[k], s.clients[c].want)
              && (forall i :: 0 <= i < k ==> !Satisfied(s.memory.receiveQueue[i], s.clients[c].want))
              && t.memory.receiveQueue == s.memory.receiveQueue[..k] + s.memory.receiveQueue[k + 1..]
              && t.history.delivered == s.history.delivered + [Delivery(s.history.queued[k], s.clients[c].want)]
    ensures t.clients == s.clients[c := Idle]
  {
    var want := s.clients[c].want;
    var k := FirstMatch(s.memory.receiveQueue, want.number, want.command);
    var f :| f in s.memory.receiveQueue && Satisfied(f, want);
    var i :| 0 <= i < |s.memory.receiveQueue| && s.memory.receiveQueue[i] == f;
    assert k <= i;
    ExecTwo(s, Wake(c), Search(c));
    t := Next(Next(s, Wake(c)), Search(c));
    assert Satisfied(s.memory.receiveQueue[k], want);
  }

  // ---------- Both misses happen ----------

  /** A request of the version, numbered 0, which the stick may send back as it is. */
  const RESPONSE: Frame := Frame(0x0D, 0, 0, 5, [])

  /**
   The gap.  A client has searched and not yet gone to sleep when the frame is pushed: nobody
   is woken, and a run without spurious wake-ups leaves it asleep with its frame queued.
   */
  lemma SignalCanBeMissed() returns (steps: seq<Step>, s: State)
    ensures Exec(Start(1), steps) == Some(s) && forall step :: step in steps ==> !step.Wake?
    ensures s.worker.Selecting? && s.memory.pending == [] && s.memory.receiveQueue == [RESPONSE]
    ensures s.clients == [Asleep(Want(0, 0, COMMAND_ANY, None))] && !NoneStranded(s)
  {
    var wait := WaitForAny(0, 0, COMMAND_ANY);
    var one := LooksTooEarly(wait);
    var receive, two := Answered(one, None);
    ExecSingle(two, Sleep(0));
    s := Next(two, Sleep(0));
    ExecConcat(Start(1), [wait, Search(0)], receive);
    ExecConcat(Start(1), [wait, Search(0)] + receive, [Sleep(0)]);
    steps := [wait, Search(0)] + receive + [Sleep(0)];
    assert Satisfied(s.memory.receiveQueue[0], s.clients[0].want);
  }

  lemma LooksTooEarly(wait: Step) returns (s: State)
    requires wait == WaitForAny(0, 0, COMMAND_ANY)
    ensures Exec(Start(1), [wait, Search(0)]) == Some(s)
    ensures s == Start(1).(clients := [Unlocked(Want(0, 0, COMMAND_ANY, None))])
  {
    ExecTwo(Start(1), wait, Search(0));
    s := Next(Next(Start(1), wait), Search(0));
    assert s.clients == [Unlocked(Want(0, 0, COMMAND_ANY, None))];
  }

  /** The stick sends a response, and the worker receives it, pushes it and signals. */
  lemma Answered(s: State, woken: Option<nat>) returns (steps: seq<Step>, t: State)
    requires s.worker.Selecting? && s.memory.pending == [] && CanWake(s, woken)
    ensures steps == [Arrive(Encoded(RESPONSE))] + [StartRead, FinishRead(RESPONSE), PushReceived(woken)]
    ensures Exec(s, steps) == Some(t)
    ensures t.worker.Selecting? && t.memory == Store(s.memory, RESPONSE)
    ensures t.clients == if woken.None? then s.clients
                         else s.clients[woken.value := Scanning(s.clients[woken.value].want)]
  {
    var arrive := Arrive(Encoded(RESPONSE));
    assert [] + Encoded(RESPONSE) == Encoded(RESPONSE);
    LineRoundTrip(RESPONSE);
    ExecSingle(s, arrive);
    t := ReceiveTurnIsARun(Next(s, arrive), RESPONSE, woken);
    steps := [arrive] + [StartRead, FinishRead(RESPONSE), PushReceived(woken)];
    ExecConcat(s, [arrive], [StartRead, FinishRead(RESPONSE), PushReceived(woken)]);
  }

  /**
   The wrong client.  Both clients sleep when the frame is pushed, none is in the gap; the
   signal wakes the one that waits for another number.  It searches and sleeps again, and the
   client the frame is for never wakes.
   */
  lemma WrongClientCanBeWoken() returns (before: seq<Step>, b: State, after: seq<Step>, s: State)
    ensures Exec(Start(2), before) == Some(b) && |b.clients| == 2 && b.clients[0].Asleep? && b.clients[1].Asleep?
    ensures b.worker.Selecting? && b.memory == Start(2).memory
    ensures Exec(b, after) == Some(s) && Exec(Start(2), before + after) == Some(s)
    ensures forall step :: step in before + after ==> !step.Wake?
    ensures s.clients == b.clients && s.worker.Selecting? && s.memory == Store(b.memory, RESPONSE)
    ensures !NoneStranded(s)
  {
    before, b := BothFallAsleep();
    after, s := WrongClientSearches(b);
    ExecConcat(Start(2), before, after);
  }

  /** Client 0 waits for number 1, and client 1 for number 0. */
  lemma BothFallAsleep() returns (steps: seq<Step>, s: State)
    ensures steps == FallingAsleep(0, 1) + FallingAsleep(1, 0)
    ensures Exec(Start(2), steps) == Some(s)
    ensures s == Start(2).(clients := [Asleep(Want(0, 1, COMMAND_ANY, None)), Asleep(Want(1, 0, COMMAND_ANY, None))])
  {
    assert Exec(Start(2), []) == Some(Start(2));
    var one := FallsAsleep(Start(2), 0, 1);
    s := FallsAsleep(one, 1, 0);
    ExecConcat(Start(2), FallingAsleep(0, 1), FallingAsleep(1, 0));
    steps := FallingAsleep(0, 1) + FallingAsleep(1, 0);
    assert s.clients == [Asleep(Want(0, 1, COMMAND_ANY, None)), Asleep(Want(1, 0, COMMAND_ANY, None))];
  }

  /** The signal for number 0 wakes client 0. */
  lemma WrongClientSearches(b: State) returns (steps: seq<Step>, s: State)
    requires b.worker.Selecting? && b.memory.pending == [] && b.memory.receiveQueue == []
    requires b.clients == [Asleep(Want(0, 1, COMMAND_ANY, None)), Asleep(Want(1, 0, COMMAND_ANY, None))]
    ensures Exec(b, steps) == Some(s) && forall step :: step in steps ==> !step.Wake?
    ensures s.clients == b.clients && s.worker.Selecting? && s.memory == Store(b.memory, RESPONSE)
    ensures !NoneStranded(s)
  {
    var receive, one := Answered(b, Some(0));
    assert one.memory.receiveQueue == [RESPONSE];
    s := SearchesInVain(one, 0);
    steps := receive + [Search(0), Sleep(0)];
    ExecConcat(b, receive, [Search(0), Sleep(0)]);
    assert s.clients == b.clients;
    assert Satisfied(s.memory.receiveQueue[0], s.clients[1].want);
  }

  /** A client finds nothing and goes to sleep. */
  lemma SearchesInVain(s: State, c: nat) returns (t: State)
    requires c < |s.clients| && s.clients[c].Scanning?
    requires forall f :: f in s.memory.receiveQueue ==> !Satisfied(f, s.clients[c].want)
    ensures Exec(s, [Search(c), Sleep(c)]) == Some(t)
    ensures t == s.(clients := s.clients[c := Asleep(s.clients[c].want)])
  {
    var want := s.clients[c].want;
    var k := FirstMatch(s.memory.receiveQueue, want.number, want.command);
    assert k < |s.memory.receiveQueue| ==> Satisfied(s.memory.receiveQueue[k], want);
    assert Next(s, Search(c)) == s.(clients := s.clients[c := Unlocked(want)]);
    ExecTwo(s, Search(c), Sleep(c));
    t := Next(Next(s, Search(c)), Sleep(c));
  }

  ghost function FallingAsleep(c: nat, number: byte): seq<Step> {
    [WaitForAny(c, number, COMMAND_ANY), Search(c), Sleep(c)]
  }

  lemma FallsAsleep(s: State, c: nat, number: byte) returns (t: State)
    requires Reachable(s) && c < |s.clients| && s.clients[c].Idle? && s.memory.receiveQueue == []
    ensures Exec(s, FallingAsleep(c, number)) == Some(t) && Reachable(t)
    ensures t == s.(clients := s.clients[c := Asleep(Want(c, number, COMMAND_ANY, None))])
  {
    t := WaitIsARun(s, WaitForAny(c, number, COMMAND_ANY));
    ReachableExec(s, FallingAsleep(c, number));
  }
}
