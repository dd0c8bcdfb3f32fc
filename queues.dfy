/**
 * The queue of lib/Queue.ts, a subclass of the linked list that works on the list's own
 * `head`, `tail` and size: `enqueue` links a node after the tail, `dequeue` unlinks the head.
 * Here the queue holds its list and updates those fields directly.
 */
module Queues {
  import opened Wrappers
  import opened Lists

  class Queue<T(==)> {
    const list: List<T>

    ghost predicate Valid()
      reads this, list, list.Nodes
    {
      list.Valid()
    }

    /** `new Queue()`: empty. */
    constructor ()
      ensures Valid() && fresh(list) && list.Contents == [] && list.Nodes == []
    {
      list := new List();
    }

    /** The `front` getter: the head's value, if any. */
    method Front() returns (r: Option<T>)
      requires Valid()
      ensures r == if list.Contents == [] then None else Some(list.Contents[0])
    {
      if list.head == null {
        r := None;
      } else {
        r := Some(list.head.value);
      }
    }

    /** The `back` getter: the tail's value, if any. */
    method Back() returns (r: Option<T>)
      requires Valid()
      ensures r == if list.Contents == [] then None else Some(list.Contents[|list.Contents| - 1])
    {
      if list.tail == null {
        r := None;
      } else {
        r := Some(list.tail.value);
      }
    }

    /** `enqueue(value)`: a new tail node, which is also the head of an empty queue. */
    method Enqueue(value: T)
      requires Valid()
      modifies list, list.Nodes
      ensures Valid()
      ensures list.Contents == old(list.Contents) + [value]
      ensures |list.Nodes| > 0 && fresh(list.Nodes[|list.Nodes| - 1])
      ensures list.Nodes[..|list.Nodes| - 1] == old(list.Nodes)
    {
      ghost var spine := list.Nodes;
      var node := new Node(value, null);
      if list.tail == null {
        list.head := node;
      } else {
        list.tail.next := node;
      }
      list.tail := node;
      list.size := list.size + 1;
      list.Nodes := list.Nodes + [node];
      list.Contents := list.Contents + [value];
      assert forall k :: 0 <= k < |spine| - 1 ==> spine[k] != spine[|spine| - 1];
    }

    /** `dequeue()`: the head's value, unlinked; nothing changes on an empty queue. Taking the
        last value also clears the tail. */
    method Dequeue() returns (r: Option<T>)
      requires Valid()
      modifies list
      ensures Valid()
      ensures old(list.Contents) == [] ==> r == None && list.Nodes == [] && list.Contents == []
      ensures old(list.Contents) != [] ==> r == Some(old(list.Contents)[0])
      ensures old(list.Contents) != [] ==> list.Contents == old(list.Contents)[1..]
      ensures old(list.Contents) != [] ==> list.Nodes == old(list.Nodes)[1..]
      ensures list.Contents == [] ==> list.head == null && list.tail == null && list.size == 0
    {
      if list.head == null {
        return None;
      }
      var value := list.head.value;
      list.head := list.head.next;
      if list.head == null {
        list.tail := null;
      }
      list.size := list.size - 1;
      list.Nodes := list.Nodes[1..];
      list.Contents := list.Contents[1..];
      return Some(value);
    }

    /** The inherited `add(value)`: prepends, so a later `dequeue` takes it first. */
    method Add(value: T)
      requires Valid()
      modifies list
      ensures Valid()
      ensures list.Contents == [value] + old(list.Contents)
      ensures fresh(list.Nodes[0]) && list.Nodes[1..] == old(list.Nodes)
    {
      list.Add(value);
    }
  }

  /** Mixing the inherited `add` with `dequeue` is last in, first out. */
  method AddThenDequeue<T(==)>(q: Queue<T>, value: T) returns (r: Option<T>)
    requires q.Valid()
    modifies q.list
    ensures q.Valid()
    ensures r == Some(value) && q.list.Contents == old(q.list.Contents)
  {
    q.Add(value);
    r := q.Dequeue();
  }

  /** Enqueuing values one by one keeps them in the order they came, front to back. */
  method EnqueueEach<T(==)>(q: Queue<T>, xs: seq<T>)
    requires q.Valid()
    modifies q.list, q.list.Nodes
    ensures q.Valid()
    ensures q.list.Contents == old(q.list.Contents) + xs
  {
    for i := 0 to |xs|
      invariant q.Valid()
      invariant q.list.Contents == old(q.list.Contents) + xs[..i]
      invariant |old(q.list.Nodes)| <= |q.list.Nodes| && q.list.Nodes[..|old(q.list.Nodes)|] == old(q.list.Nodes)
      invariant forall k :: |old(q.list.Nodes)| <= k < |q.list.Nodes| ==> fresh(q.list.Nodes[k])
    {
      assert xs[..i + 1] == xs[..i] + [xs[i]];
      q.Enqueue(xs[i]);
    }
    assert xs[..|xs|] == xs;
  }

  /** Dequeuing until the queue is empty yields its values front to back. */
  method DequeueAll<T(==)>(q: Queue<T>) returns (out: seq<T>)
    requires q.Valid()
    modifies q.list
    ensures q.Valid() && q.list.Contents == []
    ensures out == old(q.list.Contents)
  {
    out := [];
    while q.list.head != null
      invariant q.Valid()
      invariant out + q.list.Contents == old(q.list.Contents)
      decreases |q.list.Contents|
    {
      ghost var rest := q.list.Contents;
      var r := q.Dequeue();
      assert rest == [r.value] + q.list.Contents;
      out := out + [r.value];
    }
  }

  /** Values enqueued on an empty queue leave in the order they came: first in, first out. */
  method EnqueueThenDrain<T(==)>(q: Queue<T>, xs: seq<T>) returns (out: seq<T>)
    requires q.Valid() && q.list.Contents == []
    modifies q.list, q.list.Nodes
    ensures q.Valid() && q.list.Contents == []
    ensures out == xs
  {
    EnqueueEach(q, xs);
    out := DequeueAll(q);
  }
}
