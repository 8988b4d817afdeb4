/**
 src/conbee-queue.c: the doubly linked queue, on heap nodes.  `Push`, `Pop` and `Delete` are
 the code as written; `PopRepaired` and `DeleteRepaired` add the link updates it leaves out.
 The contracts of the unrepaired operations say exactly when the links survive.
 */
module Queues {
  import opened Wrappers

  class Item<T> {
    var contents: T
    var next: Item?<T>
    var previous: Item?<T>

    constructor (contents: T)
      ensures this.contents == contents && next == null && previous == null
    {
      this.contents, next, previous := contents, null, null;
    }
  }

  /** The node at position `i`, null off either end. */
  ghost function At<T>(items: seq<Item<T>>, i: int): Item?<T> {
    if 0 <= i < |items| then items[i] else null
  }

  class Queue<T> {
    var head: Item?<T>
    var tail: Item?<T>
    /** the nodes of the queue, from head to tail */
    ghost var items: seq<Item<T>>
    /** their contents */
    ghost var contents: seq<T>

    /** Following `next` from the head visits the nodes in order. */
    ghost predicate Forward()
      reads this, items
    {
      && |items| == |contents|
      && (forall i, j :: 0 <= i < j < |items| ==> items[i] != items[j])
      && (forall i {:trigger items[i].contents} :: 0 <= i < |items| ==> items[i].contents == contents[i])
      && head == At(items, 0)
      && (forall i {:trigger items[i].next} :: 0 <= i < |items| ==> items[i].next == At(items, i + 1))
    }

    /** What `Push` and `Pop` need.  The tail of an empty queue is never looked at. */
    ghost predicate Chain()
      reads this, items
    {
      Forward() && (items != [] ==> tail == items[|items| - 1])
    }

    /** The whole doubly linked list: `previous` undoes `next`, and is null at the head. */
    ghost predicate Linked()
      reads this, items
    {
      && Chain()
      && forall i {:trigger items[i].previous} :: 0 <= i < |items| ==> items[i].previous == At(items, i - 1)
    }

    /** `conbee_queue_init` */
    constructor ()
      ensures Linked() && contents == [] && items == []
    {
      head, tail := null, null;
      items, contents := [], [];
    }

    /** `conbee_queue_push` */
    method Push(x: T)
      requires Chain()
      modifies this, items
      ensures Chain() && contents == old(contents) + [x]
      ensures |items| == |old(items)| + 1 && items[..|old(items)|] == old(items) && fresh(items[|old(items)|])
      ensures old(Linked()) ==> Linked()
    {
      var item := new Item(x);
      Append(item);
      items, contents := items + [item], contents + [x];
    }

    /** The statements of `conbee_queue_push` that link the new node, whatever state the queue is in. */
    method Append(item: Item<T>)
      requires head != null ==> tail != null
      modifies `head, `tail, item`previous, (if head == null then {} else {tail})`next
      ensures tail == item
      ensures old(head) == null ==> head == item && item.previous == old(item.previous)
      ensures old(head) != null ==> head == old(head) && item.previous == old(tail) && old(tail).next == item
    {
      if head == null {
        head, tail := item, item;
      } else {
        item.previous := tail;
        tail.next := item;
        tail := item;
      }
    }

    /**
     `conbee_queue_pop`.  The forward chain stays right, but the new head keeps a link to the
     node just removed: the whole list survives only if the queue becomes empty or was so.
     */
    method Pop() returns (x: Option<T>)
      requires Chain()
      modifies this
      ensures Chain()
      ensures x.None? <==> old(contents) == []
      ensures x.None? ==> contents == [] && items == old(items)
      ensures x.Some? ==> x.value == old(contents)[0] && contents == old(contents)[1..] && items == old(items)[1..]
      ensures old(Linked()) ==> (Linked() <==> |old(items)| <= 1)
    {
      if head == null {
        return None;
      }
      x := Some(head.contents);
      var next := head.next;
      head := next;
      if head == null {
        tail := null;
      }
      items, contents := items[1..], contents[1..];
      assert |items| > 0 ==> items[0].previous == old(items[1].previous);
    }

    /** `Pop` with the missing update: the new head has no predecessor. */
    method PopRepaired() returns (x: Option<T>)
      requires Linked()
      modifies this, items
      ensures Linked()
      ensures x.None? <==> old(contents) == []
      ensures x.None? ==> contents == [] && items == old(items)
      ensures x.Some? ==> x.value == old(contents)[0] && contents == old(contents)[1..] && items == old(items)[1..]
    {
      x := Pop();
      if head != null {
        assert head == items[0] == old(items)[1];
        head.previous := null;
      }
    }

    /**
     `conbee_queue_delete`.  Walking forward from the head finds the remaining nodes in
     order, but the successor's `previous` and the tail are not updated: the whole list
     survives exactly when the deleted node was the only one.
     */
    method Delete(item: Item<T>, ghost k: nat)
      requires Linked() && k < |items| && items[k] == item
      modifies this, items
      ensures items == old(items[..k] + items[k + 1..]) && contents == old(contents[..k] + contents[k + 1..])
      ensures Forward() && tail == old(tail)
      ensures forall i :: 0 <= i < |old(items)| ==> old(items)[i].previous == old(items[i].previous)
      ensures Linked() <==> |old(items)| == 1
    {
      assert item.previous == At(items, k - 1) && item.next == At(items, k + 1);
      Unlink(item);
      RemoveAt(k);
      if |items| > 0 {
        assert k < |items| ==> items[k].previous == item;
        assert !Linked();
      }
    }

    /** The statements of `conbee_queue_delete`, whatever state the queue is in. */
    method Unlink(item: Item<T>)
      modifies `head, (if item.previous == null then {} else {item.previous})`next
      ensures item.previous == null ==> head == item.next
      ensures item.previous != null ==> head == old(head) && item.previous.next == old(item.next)
    {
      if item.previous == null {
        head := item.next;
      } else {
        item.previous.next := item.next;
      }
    }

    /** Following `next` from the head skips the node at position `k`. */
    ghost predicate Skips(k: nat)
      requires k < |items|
      reads this, items
    {
      && |items| == |contents|
      && (forall i, j :: 0 <= i < j < |items| ==> items[i] != items[j])
      && (forall i {:trigger items[i].contents} :: 0 <= i < |items| ==> items[i].contents == contents[i])
      && head == At(items, if k == 0 then 1 else 0)
      && (forall i {:trigger items[i].next} :: 0 <= i < |items| && i != k ==>
            items[i].next == At(items, if i == k - 1 then k + 1 else i + 1))
    }

    /** Following `previous` from the tail skips it too. */
    ghost predicate SkipsBack(k: nat)
      requires k < |items|
      reads this, items
    {
      && tail == At(items, if k + 1 == |items| then k - 1 else |items| - 1)
      && (forall i {:trigger items[i].previous} :: 0 <= i < |items| && i != k ==>
            items[i].previous == At(items, if i == k + 1 then k - 1 else i - 1))
    }

    /** The ghost side of a deletion. */
    ghost method RemoveAt(k: nat)
      requires k < |items| && Skips(k)
      modifies `items, `contents
      ensures items == old(items[..k] + items[k + 1..]) && contents == old(contents[..k] + contents[k + 1..])
      ensures forall i :: 0 <= i < |items| ==> items[i] == old(items)[if i < k then i else i + 1]
      ensures Forward()
    {
      items, contents := items[..k] + items[k + 1..], contents[..k] + contents[k + 1..];
    }

    /** `Delete` with the two missing updates. */
    method DeleteRepaired(item: Item<T>, ghost k: nat)
      requires Linked() && k < |items| && items[k] == item
      modifies this, items
      ensures Linked()
      ensures items == old(items[..k] + items[k + 1..]) && contents == old(contents[..k] + contents[k + 1..])
    {
      UnlinkRepaired(item, k);
      RemoveLinkedAt(k);
    }

    /** The pointer updates of the repaired deletion: both neighbours skip the node. */
    method UnlinkRepaired(item: Item<T>, ghost k: nat)
      requires Linked() && k < |items| && items[k] == item
      modifies `head, `tail, items
      ensures Skips(k) && SkipsBack(k)
    {
      assert item.previous == At(items, k - 1) && item.next == At(items, k + 1);
      Unlink(item);
      if item.next == null {
        tail := item.previous;
      } else {
        item.next.previous := item.previous;
      }
    }

    /** The ghost side of a repaired deletion. */
    ghost method RemoveLinkedAt(k: nat)
      requires k < |items| && Skips(k) && SkipsBack(k)
      modifies `items, `contents
      ensures items == old(items[..k] + items[k + 1..]) && contents == old(contents[..k] + contents[k + 1..])
      ensures Linked()
    {
      RemoveAt(k);
    }
  }

  // ---------- Any interleaving of the operations ----------

  datatype Operation<T> = Init | Push(x: T) | Pop | Delete(k: nat)

  /** A queue as a sequence: the queue's contents and the values popped so far. */
  datatype Model<T> = Model(contents: seq<T>, popped: seq<T>)

  function Perform<T>(m: Model<T>, op: Operation<T>): Model<T> {
    match op
    case Init => m.(contents := [])
    case Push(x) => m.(contents := m.contents + [x])
    case Pop => if m.contents == [] then m else Model(m.contents[1..], m.popped + [m.contents[0]])
    case Delete(k) => if k < |m.contents| then m.(contents := m.contents[..k] + m.contents[k + 1..]) else m
  }

  function PerformAll<T>(ops: seq<Operation<T>>): Model<T> {
    if ops == [] then Model([], []) else Perform(PerformAll(ops[..|ops| - 1]), ops[|ops| - 1])
  }

  /** Values popped earlier do not matter to an operation. */
  lemma PerformLater<T>(m: Model<T>, op: Operation<T>)
    ensures Perform(m, op) == (var now := Perform(m.(popped := []), op); now.(popped := m.popped + now.popped))
  {
  }

  /** The node at position `k`, reached by following `next` from the head. */
  method NodeAt<T>(queue: Queue<T>, k: nat) returns (item: Item?<T>)
    requires queue.Chain()
    ensures item == if k < |queue.items| then queue.items[k] else null
  {
    item := queue.head;
    var i := 0;
    while i < k && item != null
      invariant 0 <= i <= k
      invariant i <= |queue.items| && item == At(queue.items, i)
    {
      item := item.next;
      i := i + 1;
    }
  }

  /** One operation on the repaired queue; Init starts a new one. */
  method PerformOn<T>(queue: Queue<T>, op: Operation<T>) returns (next: Queue<T>, popped: seq<T>)
    requires queue.Linked()
    modifies queue, queue.items
    ensures next.Linked()
    ensures next == queue || fresh(next)
    ensures forall k :: 0 <= k < |next.items| ==> next.items[k] in old(queue.items) || fresh(next.items[k])
    ensures Model(next.contents, popped) == Perform(Model(old(queue.contents), []), op)
  {
    next, popped := queue, [];
    match op {
      case Init =>
        next := new Queue<T>();
      case Push(x) =>
        queue.Push(x);
      case Pop =>
        var x := queue.PopRepaired();
        popped := if x.Some? then [x.value] else [];
      case Delete(k) =>
        var item := NodeAt(queue, k);
        if item != null {
          queue.DeleteRepaired(item, k);
        }
    }
  }

  /** The repaired queue does, under every sequence of operations, what a plain sequence does. */
  method Replay<T>(ops: seq<Operation<T>>) returns (popped: seq<T>, rest: seq<T>)
    ensures Model(rest, popped) == PerformAll(ops)
  {
    var queue := new Queue<T>();
    popped := [];
    var i := 0;
    while i < |ops|
      invariant 0 <= i <= |ops|
      invariant queue.Linked() && fresh(queue) && forall k :: 0 <= k < |queue.items| ==> fresh(queue.items[k])
      invariant Model(queue.contents, popped) == PerformAll(ops[..i])
    {
      assert ops[..i + 1][..i] == ops[..i];
      PerformLater(Model(queue.contents, popped), ops[i]);
      var now;
      queue, now := PerformOn(queue, ops[i]);
      popped := popped + now;
      i := i + 1;
    }
    assert ops[..|ops|] == ops;
    rest := Walk(queue);
  }

  /** Push and pop as written are enough for a first-in first-out queue, stale links and all. */
  method ReplayAsWritten<T>(ops: seq<Operation<T>>) returns (popped: seq<T>, rest: seq<T>)
    requires forall op :: op in ops ==> !op.Delete?
    ensures Model(rest, popped) == PerformAll(ops)
  {
    var queue := new Queue<T>();
    popped := [];
    var i := 0;
    while i < |ops|
      invariant 0 <= i <= |ops|
      invariant fresh(queue) && fresh(queue.items) && queue.Chain()
      invariant Model(queue.contents, popped) == PerformAll(ops[..i])
    {
      assert ops[..i + 1][..i] == ops[..i];
      assert ops[i] in ops;
      match ops[i] {
        case Init =>
          queue := new Queue<T>();
        case Push(x) =>
          queue.Push(x);
        case Pop =>
          var x := queue.Pop();
          if x.Some? {
            popped := popped + [x.value];
          }
        case Delete(_) =>
          assert false;
      }
      i := i + 1;
    }
    assert ops[..|ops|] == ops;
    rest := Walk(queue);
  }

  /** The contents met by following `next` from the head. */
  method Walk<T>(queue: Queue<T>) returns (all: seq<T>)
    requires queue.Forward()
    ensures all == queue.contents
  {
    all := [];
    var item := queue.head;
    while item != null
      invariant |all| <= |queue.items| && item == At(queue.items, |all|)
      invariant all == queue.contents[..|all|]
      decreases |queue.items| - |all|
    {
      all := all + [item.contents];
      item := item.next;
    }
  }

  // ---------- What the unrepaired delete does ----------

  /** Deleting the last node leaves the tail behind: the next value pushed is lost. */
  method PushAfterDeletingTheLast<T>(a: T, b: T, c: T) returns (all: seq<T>)
    ensures all == [a]
  {
    var queue := new Queue<T>();
    queue.Push(a);
    queue.Push(b);
    queue.Delete(queue.tail, 1);
    var item := new Item(c);
    queue.Append(item);
    all := Walk(queue);
  }

  /** Deleting two nodes from the front leaves the second in the queue: its `previous` is stale. */
  method DeleteTwice<T>(a: T, b: T) returns (all: seq<T>)
    ensures all == [b]
  {
    var queue := new Queue<T>();
    queue.Push(a);
    queue.Push(b);
    var one, two := queue.head, queue.tail;
    queue.Delete(one, 0);
    queue.Unlink(two);
    all := Walk(queue);
  }
}
