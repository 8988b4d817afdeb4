/**
 Sequence numbers, over all runs: the n-th number taken is n mod 256, every number taken is
 with exactly one client about to push or has been pushed exactly once, and the frames of
 one client are pushed in the order their numbers were taken.  Clients wait for no requests
 but their own.
 */
module Numbering {
  import opened Wrappers
  import opened Bytes
  import opened Frames
  import opened Protocol
  import opened Counting
  import WaitScan

  // ---------- The conservation of indices ----------

  /** How many clients have taken index `n` and not pushed it yet. */
  ghost function InHands(clients: seq<Client>, n: nat): nat {
    if clients == [] then 0
    else InHands(clients[..|clients| - 1], n) + InHand(clients[|clients| - 1], n)
  }

  ghost function InHand(client: Client, n: nat): nat {
    if client.Numbered? && client.request.index == n then 1 else 0
  }

  ghost function Indices(requests: seq<Request>): seq<nat> {
    seq(|requests|, i requires 0 <= i < |requests| => requests[i].index)
  }

  lemma {:induction false} InHandsUpdate(clients: seq<Client>, c: nat, client: Client, n: nat)
    requires c < |clients|
    ensures InHands(clients[c := client], n) == InHands(clients, n) - InHand(clients[c], n) + InHand(client, n)
  {
    var last := |clients| - 1;
    if c == last {
      assert clients[c := client][..last] == clients[..last];
    } else {
      InHandsUpdate(clients[..last], c, client, n);
      assert clients[c := client][..last] == clients[..last][c := client];
    }
  }

  lemma {:induction false} NothingInHand(clients: seq<Client>, n: nat)
    requires forall c :: 0 <= c < |clients| ==> !clients[c].Numbered?
    ensures InHands(clients, n) == 0
  {
    if clients != [] {
      NothingInHand(clients[..|clients| - 1], n);
    }
  }

  /** Every index taken is in exactly one place: in one client's hand, or once among the pushed requests. */
  ghost predicate IndicesConserved(s: State) {
    forall n: nat :: Times(Indices(s.history.pushed), n) + InHands(s.clients, n) == if n < s.history.taken then 1 else 0
  }

  lemma IndicesKept(s: State, step: Step)
    requires NumbersRight(s) && IndicesConserved(s) && Enabled(s, step)
    ensures IndicesConserved(Next(s, step))
  {
    var t := Next(s, step);
    forall n: nat
      ensures Times(Indices(t.history.pushed), n) + InHands(t.clients, n) == if n < t.history.taken then 1 else 0
    {
      assert Times(Indices(s.history.pushed), n) + InHands(s.clients, n) == if n < s.history.taken then 1 else 0;
      InHandsStep(s, step, n);
      if step.Push? {
        PushedIndex(s.history.pushed, s.clients[step.c].request, n);
      }
    }
  }

  /** Only taking a number and pushing change what the clients have in hand. */
  lemma InHandsStep(s: State, step: Step, n: nat)
    requires Enabled(s, step)
    ensures InHands(Next(s, step).clients, n) == InHands(s.clients, n)
              + (if step.TakeNumber? && s.history.taken == n then 1 else 0)
              - (if step.Push? && s.clients[step.c].request.index == n then 1 else 0)
  {
    var t := Next(s, step);
    if step.PushReceived? {
      if step.woken.Some? {
        InHandsUpdate(s.clients, step.woken.value, t.clients[step.woken.value], n);
      }
    } else if t.clients != s.clients {
      InHandsUpdate(s.clients, step.c, t.clients[step.c], n);
    }
  }

  lemma PushedIndex(pushed: seq<Request>, request: Request, n: nat)
    ensures Times(Indices(pushed + [request]), n) == Times(Indices(pushed), n) + if request.index == n then 1 else 0
  {
    TimesOne(Indices(pushed), request.index, n);
    assert Indices(pushed + [request]) == Indices(pushed) + [request.index];
  }

  // ---------- Numbers and order ----------

  /** A request carries the number that its index makes it. */
  ghost predicate Labelled(request: Request, client: nat, taken: nat) {
    && request.client == client && request.index < taken
    && request.frame.sequenceNumber == request.index % 0x100
  }

  ghost predicate LabelledClient(client: Client, c: nat, taken: nat) {
    match client
    case Idle => true
    case Numbered(request) => Labelled(request, c, taken)
    case Pushed(request) => Labelled(request, c, taken)
    case Scanning(want) => LabelledWant(want, c, taken)
    case Unlocked(want) => LabelledWant(want, c, taken)
    case Asleep(want) => LabelledWant(want, c, taken)
  }

  /** A client waiting for its own request waits for that request's number. */
  ghost predicate LabelledWant(want: Want, c: nat, taken: nat) {
    && want.client == c
    && (want.request.Some? ==> want.request.value < taken && want.number == want.request.value % 0x100)
  }

  ghost predicate NumbersRight(s: State) {
    && s.memory.sequenceNumber == s.history.taken % 0x100
    && (forall c :: 0 <= c < |s.clients| ==> LabelledClient(s.clients[c], c, s.history.taken))
    && (forall r :: r in s.history.pushed ==> Labelled(r, r.client, s.history.taken))
  }

  lemma NumbersKept(s: State, step: Step)
    requires NumbersRight(s) && Enabled(s, step)
    ensures NumbersRight(Next(s, step))
  {
    if step.TakeNumber? {
      NumbersKeptByTaking(s, step.c, step.frame);
    } else {
      var t := Next(s, step);
      forall c | 0 <= c < |t.clients|
        ensures LabelledClient(t.clients[c], c, t.history.taken)
      {
        ClientKeepsLabel(s, step, c);
      }
      if step.Push? {
        assert LabelledClient(s.clients[step.c], step.c, s.history.taken);
      }
    }
  }

  /** Unless a number is taken, a client goes on with what it has, or waits for what it has pushed. */
  lemma ClientKeepsLabel(s: State, step: Step, c: nat)
    requires NumbersRight(s) && Enabled(s, step) && !step.TakeNumber? && c < |s.clients|
    ensures LabelledClient(Next(s, step).clients[c], c, s.history.taken)
  {
    assert LabelledClient(s.clients[c], c, s.history.taken);
    if step.WaitForOwn? {
      assert s.history.pushed[step.i] in s.history.pushed;
    }
  }

  lemma NumbersKeptByTaking(s: State, c: nat, frame: Frame)
    requires NumbersRight(s) && Enabled(s, TakeNumber(c, frame))
    ensures NumbersRight(Next(s, TakeNumber(c, frame)))
  {
    var t, taken := Next(s, TakeNumber(c, frame)), s.history.taken;
    NextNumber(taken);
    forall d | 0 <= d < |t.clients|
      ensures LabelledClient(t.clients[d], d, t.history.taken)
    {
      assert d != c ==> t.clients[d] == s.clients[d];
    }
    forall r | r in t.history.pushed
      ensures Labelled(r, r.client, t.history.taken)
    {
      assert Labelled(r, r.client, taken);
    }
  }

  lemma NextNumber(n: nat)
    ensures (n % 0x100 + 1) % 0x100 == (n + 1) % 0x100
  {
  }

  /** Pushes of one client are in the order of their indices, and a number in its hand is the latest. */
  ghost predicate ClientsInOrder(s: State) {
    var pushed := s.history.pushed;
    && (forall i, j :: 0 <= i < j < |pushed| && pushed[i].client == pushed[j].client ==>
          pushed[i].index < pushed[j].index)
    && (forall i, c :: 0 <= i < |pushed| && 0 <= c < |s.clients| && s.clients[c].Numbered? && pushed[i].client == c ==>
          pushed[i].index < s.clients[c].request.index)
  }

  lemma OrderKept(s: State, step: Step)
    requires NumbersRight(s) && ClientsInOrder(s) && Enabled(s, step)
    ensures ClientsInOrder(Next(s, step))
  {
    var t := Next(s, step);
    if step.Push? {
      OrderKeptByPush(s, step.c);
    } else if step.TakeNumber? {
      forall r | r in s.history.pushed
        ensures r.index < s.history.taken
      {
        assert Labelled(r, r.client, s.history.taken);
      }
    } else {
      OrderUnchanged(s, t);
    }
  }

  lemma OrderUnchanged(s: State, t: State)
    requires ClientsInOrder(s) && t.history.pushed == s.history.pushed && |t.clients| == |s.clients|
    requires forall c :: 0 <= c < |t.clients| && t.clients[c].Numbered? ==> t.clients[c] == s.clients[c]
    ensures ClientsInOrder(t)
  {
  }

  lemma OrderKeptByPush(s: State, c: nat)
    requires NumbersRight(s) && ClientsInOrder(s) && Enabled(s, Push(c))
    ensures ClientsInOrder(Next(s, Push(c)))
  {
    assert LabelledClient(s.clients[c], c, s.history.taken);
  }

  // ---------- Ownership ----------

  /** The request of index `n` has been pushed, by this client. */
  ghost predicate Owns(pushed: seq<Request>, client: nat, n: nat) {
    exists i :: 0 <= i < |pushed| && pushed[i].index == n && pushed[i].client == client
  }

  /** A client waits for no request but its own. */
  ghost predicate WantsOwned(s: State) {
    forall c :: 0 <= c < |s.clients| && Waits(s.clients[c]) && WantOf(s.clients[c]).request.Some? ==>
      Owns(s.history.pushed, c, WantOf(s.clients[c]).request.value)
  }

  lemma WantsOwnedKept(s: State, step: Step)
    requires WantsOwned(s) && Enabled(s, step)
    ensures WantsOwned(Next(s, step))
  {
    var t := Next(s, step);
    forall c | 0 <= c < |t.clients| && Waits(t.clients[c]) && WantOf(t.clients[c]).request.Some?
      ensures Owns(t.history.pushed, c, WantOf(t.clients[c]).request.value)
    {
      if step.WaitForOwn? && step.c == c {
        assert t.history.pushed[step.i].index == WantOf(t.clients[c]).request.value;
      } else {
        assert Waits(s.clients[c]) && WantOf(t.clients[c]).request == WantOf(s.clients[c]).request;
        OwnsMonotone(s.history.pushed, t.history.pushed, c, WantOf(s.clients[c]).request.value);
      }
    }
  }

  lemma OwnsMonotone(pushed: seq<Request>, more: seq<Request>, client: nat, n: nat)
    requires Owns(pushed, client, n) && pushed <= more
    ensures Owns(more, client, n)
  {
    var i :| 0 <= i < |pushed| && pushed[i].index == n && pushed[i].client == client;
    assert more[i] == pushed[i];
  }

  /** A client somewhere inside `conbee_wait_for_frame`. */
  ghost predicate Waits(client: Client) {
    client.Scanning? || client.Unlocked? || client.Asleep?
  }

  ghost function WantOf(client: Client): Want
    requires Waits(client)
  {
    match client
    case Scanning(want) => want
    case Unlocked(want) => want
    case Asleep(want) => want
  }

  // ---------- Every run ----------

  ghost predicate NumberingSound(s: State) {
    IndicesConserved(s) && NumbersRight(s) && ClientsInOrder(s) && WantsOwned(s)
  }

  lemma {:induction false} NumberingInvariant(clients: nat, steps: seq<Step>)
    requires Exec(Start(clients), steps).Some?
    ensures NumberingSound(Exec(Start(clients), steps).value)
  {
    if steps == [] {
      forall n: nat
        ensures InHands(Start(clients).clients, n) == 0
      {
        NothingInHand(Start(clients).clients, n);
      }
    } else {
      var last := steps[|steps| - 1];
      NumberingInvariant(clients, steps[..|steps| - 1]);
      var s := Exec(Start(clients), steps[..|steps| - 1]).value;
      IndicesKept(s, last);
      NumbersKept(s, last);
      OrderKept(s, last);
      WantsOwnedKept(s, last);
    }
  }

  lemma NumberingHolds(s: State)
    requires Reachable(s)
    ensures NumberingSound(s)
  {
    var clients: nat, steps: seq<Step> :| Exec(Start(clients), steps) == Some(s);
    NumberingInvariant(clients, steps);
  }

  // ---------- What follows ----------

  /**
   No request is pushed twice; a client's requests are pushed in the order it took their
   numbers; and each carries its index modulo 256.
   */
  lemma PushesAreOrdered(s: State, i: nat, j: nat)
    requires Reachable(s) && i < j < |s.history.pushed|
    ensures var a, b := s.history.pushed[i], s.history.pushed[j];
            && a.index != b.index
            && (a.client == b.client ==> a.index < b.index)
            && a.frame.sequenceNumber == a.index % 0x100
  {
    NumberingHolds(s);
    var indices := Indices(s.history.pushed);
    assert Times(indices, indices[i]) + InHands(s.clients, indices[i]) <= 1;
    if indices[i] == indices[j] {
      OnceMeansDistinct(indices, i, j);
      assert false;
    }
    assert s.history.pushed[i] in s.history.pushed;
  }

  /** Once no client is between taking a number and pushing, every number taken has been pushed. */
  lemma EveryNumberIsPushed(s: State, n: nat)
    requires Reachable(s) && n < s.history.taken
    requires forall c :: 0 <= c < |s.clients| ==> !s.clients[c].Numbered?
    ensures exists i :: 0 <= i < |s.history.pushed| && s.history.pushed[i].index == n
  {
    NumberingHolds(s);
    var indices := Indices(s.history.pushed);
    NothingInHand(s.clients, n);
    assert Times(indices, n) + InHands(s.clients, n) == 1;
    TimesPositiveIff(indices, n);
    var i :| 0 <= i < |indices| && indices[i] == n;
    assert s.history.pushed[i].index == n;
  }

  /** Some frame would satisfy both. */
  ghost predicate Confusable(a: Want, b: Want) {
    exists f: Frame :: WaitScan.Matches(f, a.number, a.command) && WaitScan.Matches(f, b.number, b.command)
  }

  /** The index of a request belongs to one client, and to one push. */
  lemma OneOwner(s: State, n: nat, c: nat, d: nat)
    requires Reachable(s) && Owns(s.history.pushed, c, n) && Owns(s.history.pushed, d, n)
    ensures c == d
  {
    var pushed := s.history.pushed;
    var i :| 0 <= i < |pushed| && pushed[i].index == n && pushed[i].client == c;
    var j :| 0 <= j < |pushed| && pushed[j].index == n && pushed[j].client == d;
    if i < j {
      PushesAreOrdered(s, i, j);
    } else if j < i {
      PushesAreOrdered(s, j, i);
    }
  }

  /**
   Response correlation, exactly.  Two clients waiting for their own requests wait for
   different requests; one and the same frame could satisfy both if and only if the commands
   are compatible and the requests a multiple of 256 numbers apart.
   */
  lemma ConfusableIff(s: State, c: nat, d: nat)
    requires Reachable(s) && c < |s.clients| && d < |s.clients| && c != d
    requires Waits(s.clients[c]) && WantOf(s.clients[c]).request.Some?
    requires Waits(s.clients[d]) && WantOf(s.clients[d]).request.Some?
    ensures var a, b := WantOf(s.clients[c]), WantOf(s.clients[d]);
            && a.request != b.request
            && (Confusable(a, b) <==>
                 && (a.request.value - b.request.value) % 0x100 == 0
                 && (a.command == b.command || a.command == COMMAND_ANY || b.command == COMMAND_ANY))
  {
    NumberingHolds(s);
    var a, b := WantOf(s.clients[c]), WantOf(s.clients[d]);
    assert LabelledClient(s.clients[c], c, s.history.taken) && LabelledClient(s.clients[d], d, s.history.taken);
    SameNumberIff(a.request.value, b.request.value);
    CompatibleIff(a, b);
    if a.request == b.request {
      OneOwner(s, a.request.value, c, d);
      assert false;
    }
  }

  /** What it takes for one frame to satisfy both of two waiting calls. */
  lemma CompatibleIff(a: Want, b: Want)
    ensures Confusable(a, b) <==>
              a.number == b.number && (a.command == b.command || a.command == COMMAND_ANY || b.command == COMMAND_ANY)
  {
    if a.number == b.number && (a.command == b.command || a.command == COMMAND_ANY || b.command == COMMAND_ANY) {
      var f := Frame(if a.command == COMMAND_ANY then b.command else a.command, a.number, 0, 0, []);
      assert WaitScan.Matches(f, a.number, a.command) && WaitScan.Matches(f, b.number, b.command);
    }
  }

  lemma SameNumberIff(m: nat, n: nat)
    ensures m % 0x100 == n % 0x100 <==> (m - n) % 0x100 == 0
    ensures -0x100 < m - n < 0x100 && m != n ==> m % 0x100 != n % 0x100
  {
    assert m - n == 0x100 * (m / 0x100 - n / 0x100) + (m % 0x100 - n % 0x100);
  }

  /**
   So while the requests being waited for lie within 256 consecutive numbers, a frame that
   satisfies one of the clients waiting for their own requests satisfies no other.
   */
  lemma AtMostOneClientMatches(s: State, first: nat, f: Frame, c: nat, d: nat)
    requires Reachable(s) && c < |s.clients| && d < |s.clients| && c != d
    requires Waits(s.clients[c]) && WantOf(s.clients[c]).request.Some?
    requires Waits(s.clients[d]) && WantOf(s.clients[d]).request.Some?
    requires first <= WantOf(s.clients[c]).request.value < first + 0x100
    requires first <= WantOf(s.clients[d]).request.value < first + 0x100
    ensures !(WaitScan.Matches(f, WantOf(s.clients[c]).number, WantOf(s.clients[c]).command)
              && WaitScan.Matches(f, WantOf(s.clients[d]).number, WantOf(s.clients[d]).command))
  {
    ConfusableIff(s, c, d);
    SameNumberIff(WantOf(s.clients[c]).request.value, WantOf(s.clients[d]).request.value);
  }
}
