/** src/list.c: the singly linked list. Allocation always succeeds and nothing is freed. */
module List {

  class Node<T> {
    var data: T
    var next: Node?<T>

    constructor (data: T, next: Node?<T>)
      ensures this.data == data && this.next == next
    {
      this.data, this.next := data, next;
    }
  }

  /** The variable of the caller that holds the head of the list. */
  class List<T> {
    var head: Node?<T>
    ghost var nodes: seq<Node<T>>
    ghost var contents: seq<T>

    ghost function Successor(i: int): Node?<T>
      reads this
    {
      if 0 <= i + 1 < |nodes| then nodes[i + 1] else null
    }

    ghost predicate Valid()
      reads this, nodes
    {
      && |nodes| == |contents|
      && head == (if nodes == [] then null else nodes[0])
      && (forall i :: 0 <= i < |nodes| ==> nodes[i].data == contents[i])
      && (forall i {:trigger Successor(i)} :: 0 <= i < |nodes| ==> nodes[i].next == Successor(i))
      && (forall i, j :: 0 <= i < j < |nodes| ==> nodes[i] != nodes[j])
    }

    constructor ()
      ensures Valid() && contents == [] && nodes == []
    {
      head, nodes, contents := null, [], [];
    }

    /** Setting the head to NULL drops the list. */
    method Reset()
      modifies this
      ensures Valid() && contents == [] && nodes == []
    {
      head, nodes, contents := null, [], [];
    }

    /** list_push_head */
    method PushHead(data: T)
      requires Valid()
      modifies this
      ensures Valid() && contents == [data] + old(contents)
      ensures fresh(nodes[0]) && nodes == [nodes[0]] + old(nodes)
    {
      ghost var was := nodes;
      var newNode := new Node(data, head);
      assert forall i :: 0 <= i < |was| ==> was[i].next == Successor(i);
      head := newNode;
      nodes := [newNode] + nodes;
      contents := [data] + contents;
      forall i | 0 <= i < |nodes| ensures nodes[i].next == Successor(i) {
        assert i > 0 ==> nodes[i] == was[i - 1];
      }
    }

    /** list_push_tail: walks to the last node and hangs the new one on it. */
    method PushTail(data: T)
      requires Valid()
      modifies this, nodes
      ensures Valid() && contents == old(contents) + [data]
      ensures |nodes| > 0 && fresh(nodes[|nodes| - 1]) && nodes == old(nodes) + [nodes[|nodes| - 1]]
    {
      var newNode := new Node(data, null);
      var ptr := head;
      if ptr == null {
        head := newNode;
      } else {
        ghost var i := 0;
        while ptr.next != null
          invariant i < |nodes| && ptr == nodes[i]
          decreases |nodes| - i
        {
          assert ptr.next == Successor(i);
          ptr := ptr.next;
          i := i + 1;
        }
        assert ptr.next == Successor(i);
        ptr.next := newNode;
      }
      ghost var was := nodes;
      assert forall i :: 0 <= i < |was| - 1 ==> was[i].next == Successor(i);
      nodes := nodes + [newNode];
      contents := contents + [data];
      assert forall i :: 0 <= i < |was| - 1 ==> was[i].next == Successor(i);
    }
  }
}
