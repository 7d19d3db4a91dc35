/**
 The doubly linked lists of bf16-bitfury16.h.
 */
module BfList {
  import opened Common

  class Node<T> {
    const data: T
    var next: Node?<T>
    var prev: Node?<T>

    constructor (data: T)
      ensures this.data == data && next == null && prev == null
    {
      this.data := data;
      next, prev := null, null;
    }
  }

  ghost predicate Chain<T>(s: seq<Node<T>>)
    reads s
  {
    forall i | 0 <= i < |s| - 1 :: s[i].next == s[i + 1] && s[i + 1].prev == s[i]
  }

  // `nodes` is the list from head to tail.
  ghost predicate Linked<T>(head: Node?<T>, tail: Node?<T>, nodes: seq<Node<T>>)
    reads nodes
  {
    if nodes == [] then head == null && tail == null
    else
      && head == nodes[0] && tail == nodes[|nodes| - 1]
      && Distinct(nodes) && Chain(nodes)
      && nodes[0].prev == null && nodes[|nodes| - 1].next == null
  }

  function Data<T>(nodes: seq<Node<T>>): (r: seq<T>)
    ensures |r| == |nodes|
    ensures forall i | 0 <= i < |nodes| :: r[i] == nodes[i].data
  {
    if nodes == [] then [] else [nodes[0].data] + Data(nodes[1..])
  }

  class List<T> {
    var head: Node?<T>
    var tail: Node?<T>
    var count: int
    ghost var nodes: seq<Node<T>>

    ghost predicate Valid()
      reads this, nodes
    {
      Linked(head, tail, nodes) && count == |nodes|
    }

    constructor ()
      ensures Valid() && nodes == [] && fresh(this)
    {
      head, tail, count, nodes := null, null, 0, [];
    }

    // LIST_PUSH_TAIL and the counting that goes with it
    method PushTail(item: Node<T>)
      requires Valid() && item !in nodes && item.next == null && item.prev == null
      modifies this, nodes, item
      ensures Valid() && nodes == old(nodes) + [item]
    {
      if head == null {
        head := item;
        tail := item;
      } else {
        tail.next := item;
        item.prev := tail;
        tail := item;
      }
      count := count + 1;
      nodes := nodes + [item];
    }

    // A new item at the tail.
    method Enqueue(data: T)
      requires Valid()
      modifies this, nodes
      ensures Valid() && Data(nodes) == old(Data(nodes)) + [data]
      ensures |nodes| == |old(nodes)| + 1 && nodes[..|old(nodes)|] == old(nodes) && fresh(nodes[|old(nodes)|])
    {
      var item := new Node(data);
      PushTail(item);
    }

    // LIST_POP_HEAD
    method PopHead()
      requires Valid() && nodes != []
      modifies this, nodes
      ensures Valid() && nodes == old(nodes)[1..]
    {
      assert |nodes| > 1 ==> nodes[0].next == nodes[1];
      if head != tail {
        head := head.next;
        head.prev := null;
      } else {
        head := null;
        tail := null;
      }
      count := count - 1;
      nodes := nodes[1..];
    }

    // The item at the head, taken off.
    method Dequeue() returns (data: T)
      requires Valid() && nodes != []
      modifies this, nodes
      ensures Valid() && nodes == old(nodes)[1..]
      ensures old(Data(nodes)) == [data] + Data(nodes)
    {
      data := head.data;
      PopHead();
    }

    lemma HeadIsFirst()
      requires Valid()
      ensures head == null <==> nodes == []
    {
    }

    // The loop of cmd_buffer_clear.
    method Clear()
      requires Valid()
      modifies this, nodes
      ensures Valid() && nodes == []
    {
      hide Linked;
      HeadIsFirst();
      ghost var s := nodes;
      while head != null
        invariant Valid() && |nodes| <= |s| && nodes == s[|s| - |nodes|..]
        decreases |nodes|
      {
        HeadIsFirst();
        assert forall o | o in nodes :: o in s;
        PopHead();
      }
      HeadIsFirst();
      count := 0;
    }

    // LIST_REMOVE of the item that stands at position i
    method Remove(item: Node<T>, ghost i: nat)
      requires Valid() && i < |nodes| && nodes[i] == item
      modifies this, nodes
      ensures Valid() && nodes == old(nodes)[..i] + old(nodes)[i + 1..]
    {
      assert i + 1 < |nodes| ==> nodes[i].next == nodes[i + 1];
      assert i > 0 ==> nodes[i - 1].next == nodes[i - 1 + 1] && nodes[i - 1 + 1].prev == nodes[i - 1];
      if head != tail {
        if head == item {
          head := head.next;
          head.prev := null;
        } else if tail == item {
          tail := tail.prev;
          tail.next := null;
        } else {
          var prev := item.prev;
          var next := item.next;
          prev.next := next;
          next.prev := prev;
        }
      } else {
        head := null;
        tail := null;
      }
      count := count - 1;
      nodes := nodes[..i] + nodes[i + 1..];
    }
  }
}
