/**
 * The singly linked list of lib/List.ts: `head`, `tail` and a size counter, updated in place.
 * `add` prepends, so iteration runs from the most recently added value to the first one;
 * `delete` unlinks the first node, from the head, whose value matches.
 *
 * The ghost spine `Nodes` lists the nodes reachable from `head` in order and `Contents`
 * their values; `Valid()` ties both to the real fields.
 */
module Lists {

  class Node<T> {
    var value: T
    var next: Node?<T>

    constructor (value: T, next: Node?<T>)
      ensures this.value == value && this.next == next
    {
      this.value := value;
      this.next := next;
    }
  }

  /** `s` without its first occurrence of `v`; `s` itself when `v` does not occur. */
  function RemoveFirst<T(==)>(s: seq<T>, v: T): seq<T> {
    if s == [] then []
    else if s[0] == v then s[1..]
    else [s[0]] + RemoveFirst(s[1..], v)
  }

  /** Removing the first occurrence at index i keeps everything before and after it, in order. */
  lemma {:induction false} RemoveFirstAt<T>(s: seq<T>, v: T, i: nat)
    requires i < |s| && s[i] == v && v !in s[..i]
    ensures RemoveFirst(s, v) == s[..i] + s[i + 1..]
  {
    if i > 0 {
      assert s[1..][..i - 1] == s[1..i];
      RemoveFirstAt(s[1..], v, i - 1);
      assert s[1..][i..] == s[i + 1..];
    }
  }

  /** An absent value leaves the sequence as it is. */
  lemma {:induction false} RemoveFirstAbsent<T>(s: seq<T>, v: T)
    requires v !in s
    ensures RemoveFirst(s, v) == s
  {
    if s != [] {
      assert v !in s[1..];
      RemoveFirstAbsent(s[1..], v);
    }
  }

  /** Exactly one copy of a present value goes; the others remain. */
  lemma {:induction false} RemoveFirstMultiset<T>(s: seq<T>, v: T)
    ensures multiset(RemoveFirst(s, v)) == multiset(s) - multiset{v}
  {
    if s != [] {
      assert s == [s[0]] + s[1..];
      if s[0] != v {
        RemoveFirstMultiset(s[1..], v);
      }
    }
  }

  /** Index arithmetic for a sequence with its i-th element dropped. */
  lemma Dropped<X>(s: seq<X>, i: nat, r: seq<X>)
    requires i < |s| && r == s[..i] + s[i + 1..]
    ensures |r| == |s| - 1
    ensures forall k :: 0 <= k < i ==> r[k] == s[k]
    ensures forall k :: i <= k < |r| ==> r[k] == s[k + 1]
  {
  }

  /** What `forEach(callback)` amounts to once the callback's effect is a value: it is handed
      (value, value) for each node from head to tail, in that order. */
  function Visit<A, T>(f: (A, T, T) -> A, acc: A, s: seq<T>): A {
    if s == [] then acc else Visit(f, f(acc, s[0], s[0]), s[1..])
  }

  /** The pairs `entries()` yields for the given contents. */
  function Mirrored<T>(s: seq<T>): (r: seq<(T, T)>)
    ensures |r| == |s| && forall i :: 0 <= i < |s| ==> r[i] == (s[i], s[i])
  {
    if s == [] then [] else [(s[0], s[0])] + Mirrored(s[1..])
  }

  /** A callback that records its arguments sees exactly the pairs `entries()` yields. */
  lemma {:induction false} VisitRecords<T>(acc: seq<(T, T)>, s: seq<T>)
    decreases s
    ensures Visit((r: seq<(T, T)>, v: T, m: T) => r + [(v, m)], acc, s) == acc + Mirrored(s)
  {
    if s != [] {
      VisitRecords(acc + [(s[0], s[0])], s[1..]);
    }
  }

  class List<T(==)> {
    var head: Node?<T>
    var tail: Node?<T>
    var size: nat
    ghost var Nodes: seq<Node<T>>
    ghost var Contents: seq<T>

    ghost predicate Valid()
      reads this, Nodes
    {
      && size == |Nodes| == |Contents|
      && (Nodes == [] ==> head == null && tail == null)
      && (Nodes != [] ==> head == Nodes[0] && tail == Nodes[|Nodes| - 1] && tail.next == null)
      && (forall i :: 0 <= i < |Nodes| ==> Nodes[i].value == Contents[i])
      && (forall i :: 0 <= i < |Nodes| - 1 ==> Nodes[i].next == Nodes[i + 1])
      && (forall i, j :: 0 <= i < j < |Nodes| ==> Nodes[i] != Nodes[j])
    }

    /** `new List()`: empty. */
    constructor ()
      ensures Valid() && Contents == [] && Nodes == []
    {
      head, tail, size := null, null, 0;
      Nodes, Contents := [], [];
    }

    /** The `size` getter. */
    method Size() returns (n: nat)
      requires Valid()
      ensures n == |Contents|
    {
      n := size;
    }

    /** `add(value)`: a new head node; the tail moves only when the list was empty. */
    method Add(value: T)
      requires Valid()
      modifies this
      ensures Valid()
      ensures Contents == [value] + old(Contents)
      ensures fresh(Nodes[0]) && Nodes[1..] == old(Nodes)
      ensures old(Nodes) != [] ==> tail == old(tail)
    {
      var node := new Node(value, head);
      head := node;
      if head.next == null {
        tail := head;
      }
      size := size + 1;
      Nodes := [node] + Nodes;
      Contents := [value] + Contents;
    }

    /** `delete(value)`: walks from the head, unlinks the first matching node and reports
        whether there was one. */
    method Delete(value: T) returns (found: bool)
      requires Valid()
      modifies this, Nodes
      ensures Valid()
      ensures found <==> value in old(Contents)
      ensures Contents == RemoveFirst(old(Contents), value)
      ensures forall n :: n in Nodes ==> n in old(Nodes)
      ensures !found ==> Nodes == old(Nodes) && head == old(head) && tail == old(tail)
    {
      var previous: Node?<T> := null;
      var node := head;
      ghost var i := 0;
      while node != null
        invariant 0 <= i <= |Nodes|
        invariant node == (if i < |Nodes| then Nodes[i] else null)
        invariant previous == (if i == 0 then null else Nodes[i - 1])
        invariant value !in Contents[..i]
        decreases |Nodes| - i
      {
        if node.value == value {
          RemoveFirstAt(Contents, value, i);
          Unlink(previous, node, i);
          return true;
        }
        assert Contents[..i + 1] == Contents[..i] + [Contents[i]];
        previous := node;
        node := node.next;
        i := i + 1;
      }
      assert Contents[..i] == Contents;
      RemoveFirstAbsent(Contents, value);
      return false;
    }

    /** The body of the match branch of `delete`: bypass the i-th node. */
    method Unlink(previous: Node?<T>, node: Node<T>, ghost i: nat)
      requires Valid()
      requires i < |Nodes| && node == Nodes[i]
      requires previous == (if i == 0 then null else Nodes[i - 1])
      modifies this, Nodes
      ensures Valid()
      ensures Nodes == old(Nodes[..i] + Nodes[i + 1..])
      ensures Contents == old(Contents[..i] + Contents[i + 1..])
    {
      ghost var spine, values := Nodes, Contents;
      if i < |spine| - 1 {
        assert node.next == spine[i + 1];
      }
      assert node.next == null <==> i == |spine| - 1;
      if previous == null {
        head := node.next;
      } else {
        previous.next := node.next;
      }
      if node.next == null {
        tail := previous;
      }
      size := size - 1;
      Nodes := Nodes[..i] + Nodes[i + 1..];
      Contents := Contents[..i] + Contents[i + 1..];
      Dropped(spine, i, Nodes);
      Dropped(values, i, Contents);
      forall k | 0 <= k < |Nodes| - 1
        ensures Nodes[k].next == Nodes[k + 1]
      {
        if k < i - 1 {
          assert spine[k] != spine[i - 1];
        } else if k >= i > 0 {
          assert spine[k + 1] != spine[i - 1];
        }
      }
    }

    /** `clear()`: no head, no tail, size 0. */
    method Clear()
      modifies this
      ensures Valid() && Contents == [] && Nodes == []
      ensures head == null && tail == null && size == 0
    {
      head, tail, size := null, null, 0;
      Nodes, Contents := [], [];
    }

    /** `has(value)`: walks from the head until a node matches. */
    method Has(value: T) returns (present: bool)
      requires Valid()
      ensures present <==> value in Contents
    {
      var node := head;
      ghost var i := 0;
      while node != null
        invariant 0 <= i <= |Nodes|
        invariant node == (if i < |Nodes| then Nodes[i] else null)
        invariant value !in Contents[..i]
        decreases |Nodes| - i
      {
        if node.value == value {
          return true;
        }
        assert Contents[..i + 1] == Contents[..i] + [Contents[i]];
        node := node.next;
        i := i + 1;
      }
      assert Contents[..i] == Contents;
      return false;
    }

    /** `[Symbol.iterator]()`, `values()` and `keys()`: the values from head to tail. */
    method Values() returns (vs: seq<T>)
      requires Valid()
      ensures vs == Contents
    {
      vs := [];
      var node := head;
      ghost var i := 0;
      while node != null
        invariant 0 <= i <= |Nodes|
        invariant node == (if i < |Nodes| then Nodes[i] else null)
        invariant vs == Contents[..i]
        decreases |Nodes| - i
      {
        vs := vs + [node.value];
        node := node.next;
        i := i + 1;
      }
    }

    /** `entries()`: each value paired with itself, from head to tail. */
    method Entries() returns (es: seq<(T, T)>)
      requires Valid()
      ensures es == Mirrored(Contents)
    {
      es := [];
      var node := head;
      ghost var i := 0;
      while node != null
        invariant 0 <= i <= |Nodes|
        invariant node == (if i < |Nodes| then Nodes[i] else null)
        invariant es == Mirrored(Contents[..i])
        decreases |Nodes| - i
      {
        es := es + [(node.value, node.value)];
        node := node.next;
        i := i + 1;
      }
      assert Contents[..i] == Contents;
    }

    /** `forEach(callback)`, the callback's effect threaded through as an accumulator. */
    method ForEach<A>(callback: (A, T, T) -> A, init: A) returns (acc: A)
      requires Valid()
      ensures acc == Visit(callback, init, Contents)
    {
      acc := init;
      var node := head;
      ghost var i := 0;
      while node != null
        invariant 0 <= i <= |Nodes|
        invariant node == (if i < |Nodes| then Nodes[i] else null)
        invariant Visit(callback, acc, Contents[i..]) == Visit(callback, init, Contents)
        decreases |Nodes| - i
      {
        assert Contents[i..][1..] == Contents[i + 1..];
        acc := callback(acc, node.value, node.value);
        node := node.next;
        i := i + 1;
      }
    }
  }

  /** The values of s, last first. */
  function Reversed<T>(s: seq<T>): seq<T> {
    if s == [] then [] else [s[|s| - 1]] + Reversed(s[..|s| - 1])
  }

  /** One more value at the back of s comes out first. */
  lemma ReversedStep<T>(xs: seq<T>, i: nat, rest: seq<T>)
    requires i < |xs|
    ensures Reversed(xs[..i + 1]) + rest == [xs[i]] + (Reversed(xs[..i]) + rest)
  {
    assert xs[..i + 1][..i] == xs[..i];
  }

  /** Adding values one by one keeps every one of them, duplicates included, and iteration
      then yields them in reverse order of insertion. */
  method AddEach<T(==)>(list: List<T>, xs: seq<T>)
    requires list.Valid()
    modifies list
    ensures list.Valid()
    ensures list.Contents == Reversed(xs) + old(list.Contents)
  {
    for i := 0 to |xs|
      invariant list.Valid()
      invariant list.Contents == Reversed(xs[..i]) + old(list.Contents)
    {
      ReversedStep(xs, i, old(list.Contents));
      list.Add(xs[i]);
    }
    assert xs[..|xs|] == xs;
  }
}
