/** The replacement queue of vm/lru.cc: nodes linked both ways, never reordered by use. */
module Replacement {
  class Node<T> {
    var next: Node?<T>
    var prev: Node?<T>
    const value: T

    constructor (value: T)
      ensures this.value == value && next == null && prev == null
    {
      this.value, next, prev := value, null, null;
    }
  }

  class Queue<T> {
    var head: Node?<T>
    var tail: Node?<T>
    ghost var spine: seq<Node<T>>      // the nodes from head to tail
    ghost var repr: set<Node<T>>       // every node that was ever in the queue

    ghost predicate Valid()
      reads this, repr
    {
      && (forall i :: 0 <= i < |spine| ==> spine[i] in repr)
      && (spine == [] ==> head == null && tail == null)
      && (spine != [] ==> head == spine[0] && tail == spine[|spine| - 1] && spine[0].prev == null && tail.next == null)
      && (forall i :: 0 <= i < |spine| - 1 ==> spine[i].next == spine[i + 1])
      && (forall i :: 1 <= i < |spine| ==> spine[i].prev == spine[i - 1])
      && (forall i, j :: 0 <= i < j < |spine| ==> spine[i] != spine[j])
    }

    ghost function View(): seq<T>
      reads this
    {
      Values(spine)
    }

    static ghost function Values(nodes: seq<Node<T>>): seq<T> {
      seq(|nodes|, i requires 0 <= i < |nodes| => nodes[i].value)
    }

    constructor ()
      ensures Valid() && spine == [] && repr == {}
    {
      head, tail, spine, repr := null, null, [], {};
    }

    method AddPage(page: T)
      requires Valid()
      modifies this, repr
      ensures Valid() && View() == [page] + old(View()) && fresh(repr - old(repr))
    {
      var node := new Node(page);
      ReplaceHead(node);
    }

    /** replace_head for a node that is not in the list, which the loop finds out. */
    method ReplaceHead(node: Node<T>)
      requires Valid() && node !in spine
      modifies this, repr, node
      ensures Valid() && spine == [node] + old(spine) && repr == old(repr) + {node}
    {
      if head == null {
        head, tail := node, node;
        node.next, node.prev := null, null;
        spine, repr := [node], repr + {node};
        return;
      }
      var current := head;
      ghost var i := 0;
      while current != null
        invariant 0 <= i <= |spine|
        invariant if i < |spine| then current == spine[i] else current == null
        decreases |spine| - i
      {
        assert current != node;
        current := current.next;
        i := i + 1;
      }
      node.next := head;
      node.prev := null;
      head.prev := node;
      head := node;
      spine, repr := [node] + spine, repr + {node};
    }

    /** GetLRU */
    method Last() returns (page: T)
      requires Valid() && spine != []
      ensures page == View()[|spine| - 1]
    {
      page := tail.value;
    }

    /** Remove_LRU_Page, which dereferences the new tail. */
    method RemoveLast()
      requires Valid() && |spine| >= 2
      modifies this, repr
      ensures Valid() && View() == old(View()[..|spine| - 1]) && repr == old(repr)
    {
      assert spine[|spine| - 1].prev == spine[|spine| - 2];
      tail := tail.prev;
      tail.next := null;
      spine := spine[..|spine| - 1];
    }
  }
}
