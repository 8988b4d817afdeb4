/**
 src/conbee.c, `conbee_wait_for_frame`: the search of the receive queue for the frame a
 caller waits for.  The loop as written never moves on to the next item; the repaired loop
 does, and the last part says exactly when the difference does not show.
 */
module WaitScan {
  import opened Wrappers
  import opened Bytes
  import opened Frames
  import opened Queues

  /** Whether a received frame is one the caller waits for. */
  predicate Matches(f: Frame, number: byte, command: byte) {
    (command == COMMAND_ANY && f.sequenceNumber == number) || (f.command == command && f.sequenceNumber == number)
  }

  /** The position of the first frame waited for, or the length of the queue if there is none. */
  function FirstMatch(frames: seq<Frame>, number: byte, command: byte): (k: nat)
    ensures k <= |frames|
    ensures k < |frames| ==> frames[k].sequenceNumber == number && command in {frames[k].command, 0xFF}
    ensures k < |frames| ==> Matches(frames[k], number, command)
    ensures forall i :: 0 <= i < k ==> !Matches(frames[i], number, command)
    ensures forall i :: 0 <= i < k ==> frames[i].sequenceNumber != number || command !in {frames[i].command, 0xFF}
  {
    if frames == [] || Matches(frames[0], number, command) then 0
    else 1 + FirstMatch(frames[1..], number, command)
  }

  /** One search of the (repaired) loop, under the mutex: the first frame waited for is taken out. */
  method TakeFirstMatch(queue: Queue<Frame>, number: byte, command: byte) returns (found: Option<Frame>)
    requires queue.Linked()
    modifies queue, queue.items
    ensures queue.Linked()
    ensures found.None? <==>
              forall f :: f in old(queue.contents) ==>
                f.sequenceNumber != number || (command != 0xFF && f.command != command)
    ensures found.None? ==> queue.contents == old(queue.contents) && queue.items == old(queue.items)
    ensures found.Some? ==>
              var k := FirstMatch(old(queue.contents), number, command);
              && k < |old(queue.contents)| && found.value == old(queue.contents)[k]
              && queue.contents == old(queue.contents)[..k] + old(queue.contents)[k + 1..]
              && queue.items == old(queue.items)[..k] + old(queue.items)[k + 1..]
  {
    var item := queue.head;
    ghost var i := 0;
    while item != null
      invariant i <= |queue.items| && item == At(queue.items, i)
      invariant Iterations(queue.contents, number, command, 1, i) == Looking(i)
      decreases |queue.items| - i
    {
      var frame := item.contents;
      if Matches(frame, number, command) {
        RepairedScanProgress(queue.contents, number, command, i + 1);
        queue.DeleteRepaired(item, i);
        return Some(frame);
      }
      item := item.next;
      i := i + 1;
    }
    RepairedScanProgress(queue.contents, number, command, i);
    found := None;
  }

  // ---------- The loop as written ----------

  /** The inner loop between two iterations: at an item (or past the last), or finished. */
  datatype Scan = Looking(k: nat) | Found(k: nat) | NotFound

  /** One iteration; `advance` is 1 for the repaired loop and 0 for the loop as written. */
  function Iterate(frames: seq<Frame>, number: byte, command: byte, advance: nat, scan: Scan): Scan {
    match scan
    case Looking(k) =>
      if k >= |frames| then NotFound
      else if Matches(frames[k], number, command) then Found(k)
      else Looking(k + advance)
    case _ => scan
  }

  function Iterations(frames: seq<Frame>, number: byte, command: byte, advance: nat, n: nat): Scan {
    if n == 0 then Looking(0)
    else Iterate(frames, number, command, advance, Iterations(frames, number, command, advance, n - 1))
  }

  /** The repaired loop finishes, with the first match if there is one. */
  lemma RepairedScanFinishes(frames: seq<Frame>, number: byte, command: byte)
    ensures var k := FirstMatch(frames, number, command);
            Iterations(frames, number, command, 1, |frames| + 1) == if k < |frames| then Found(k) else NotFound
  {
    RepairedScanProgress(frames, number, command, |frames| + 1);
  }

  lemma {:induction false} RepairedScanProgress(frames: seq<Frame>, number: byte, command: byte, n: nat)
    ensures var k := FirstMatch(frames, number, command);
            Iterations(frames, number, command, 1, n) ==
            if n <= k then Looking(n) else if k < |frames| then Found(k) else NotFound
  {
    if n > 0 {
      RepairedScanProgress(frames, number, command, n - 1);
    }
  }

  /** The loop as written finishes if and only if the queue is empty or its head is the frame waited for. */
  lemma ScanAsWrittenFinishesIff(frames: seq<Frame>, number: byte, command: byte)
    ensures (exists n: nat :: !Iterations(frames, number, command, 0, n).Looking?)
       <==> (frames == [] || Matches(frames[0], number, command))
  {
    if frames == [] || Matches(frames[0], number, command) {
      assert Iterations(frames, number, command, 0, 0) == Looking(0);
      assert !Iterations(frames, number, command, 0, 1).Looking?;
    } else {
      forall n: nat
        ensures Iterations(frames, number, command, 0, n).Looking?
      {
        StaysAtHead(frames, number, command, n);
      }
    }
  }

  lemma {:induction false} StaysAtHead(frames: seq<Frame>, number: byte, command: byte, n: nat)
    requires frames != [] && !Matches(frames[0], number, command)
    ensures Iterations(frames, number, command, 0, n) == Looking(0)
  {
    if n > 0 {
      StaysAtHead(frames, number, command, n - 1);
    }
  }
}
