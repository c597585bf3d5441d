/** The intrusive doubly linked list under every queue of the kernel. */
module LinkedList {
  // The list head and tail are elements of their own, and what is between them is a sequence.

  /** struct list_elem */
  class ListElem {
    var prev: ListElem?
    var next: ListElem?

    constructor () {
      prev, next := null, null;
    }
  }

  /** The elements are linked both ways in this order, and no element stands twice. */
  ghost predicate Chained(nodes: seq<ListElem>)
    reads nodes
  {
    && (forall i, j :: 0 <= i < j < |nodes| ==> nodes[i] != nodes[j])
    && (forall i :: 0 <= i < |nodes| - 1 ==> nodes[i].next == nodes[i + 1] && nodes[i + 1].prev == nodes[i])
  }

  class List {
    const head: ListElem
    const tail: ListElem
    ghost var elems: seq<ListElem>

    ghost function Nodes(): seq<ListElem>
      reads this
    {
      [head] + elems + [tail]
    }

    ghost predicate Valid()
      reads this, head, tail, Nodes()
    {
      Chained(Nodes()) && head.prev == null && tail.next == null
    }

    /** list_init */
    constructor ()
      ensures Valid() && elems == [] && fresh(head) && fresh(tail)
    {
      head := new ListElem();
      tail := new ListElem();
      elems := [];
      new;
      head.prev, head.next := null, tail;
      tail.prev, tail.next := head, null;
    }

    method Append(elem: ListElem)
      requires Valid() && elem !in Nodes()
      modifies this, elem, tail, Nodes()[|elems|]
      ensures Valid() && elems == old(elems) + [elem]
    {
      ghost var nodes := Nodes();
      ghost var n := |elems|;
      assert nodes[n + 1] == tail && nodes[n].next == tail;
      elem.next := tail;
      elem.prev := tail.prev;
      tail.prev.next := elem;
      tail.prev := elem;
      elems := elems + [elem];
      assert Nodes() == nodes[..n + 1] + [elem] + [tail];
      assert forall i :: 0 <= i <= n ==> Nodes()[i] == nodes[i];
    }

    method Push(elem: ListElem)
      requires Valid() && elem !in Nodes()
      modifies this, elem, head, Nodes()[1]
      ensures Valid() && elems == [elem] + old(elems)
    {
      ghost var nodes := Nodes();
      assert nodes[0] == head && head.next == nodes[1];
      elem.prev := head;
      elem.next := head.next;
      head.next.prev := elem;
      head.next := elem;
      elems := [elem] + elems;
      assert Nodes() == [head] + [elem] + nodes[1..];
      assert forall i :: 2 <= i < |Nodes()| ==> Nodes()[i] == nodes[i - 1];
    }

    /** list_remove, of the element at place k. */
    method Remove(elem: ListElem, ghost k: nat)
      requires Valid() && k < |elems| && elems[k] == elem
      modifies this, Nodes()[k], Nodes()[k + 2]
      ensures Valid() && elems == old(elems[..k] + elems[k + 1..])
      ensures elem !in Nodes()
    {
      ghost var nodes := Nodes();
      assert nodes[k + 1] == elem;
      assert elem.prev == nodes[k] && elem.next == nodes[k + 2] by {
        assert nodes[k].next == nodes[k + 1] && nodes[k + 1].prev == nodes[k];
        assert nodes[k + 1].next == nodes[k + 2];
      }
      elem.prev.next := elem.next;
      elem.next.prev := elem.prev;
      elems := elems[..k] + elems[k + 1..];
      assert Nodes() == nodes[..k + 1] + nodes[k + 2..];
      assert forall i :: 0 <= i < |Nodes()| ==> Nodes()[i] == if i <= k then nodes[i] else nodes[i + 1];
    }

    method Empty() returns (empty: bool)
      requires Valid()
      ensures empty <==> elems == []
    {
      assert Nodes()[0] == head && head.next == Nodes()[1] && Nodes()[|elems| + 1] == tail;
      return head.next == tail;
    }

    method PopFront() returns (first: ListElem?)
      requires Valid()
      modifies this, head, Nodes()[if elems == [] then 1 else 2]
      ensures Valid()
      ensures old(elems) == [] ==> first == null && elems == []
      ensures old(elems) != [] ==> first == old(elems[0]) && elems == old(elems[1..]) && first !in Nodes()
    {
      assert Nodes()[0] == head && head.next == Nodes()[1] && Nodes()[|elems| + 1] == tail;
      first := head.next;
      if first == tail {
        return null;
      }
      ghost var was := elems;
      Remove(first, 0);
      assert was[..0] + was[1..] == was[1..];
    }

    method Find(elem: ListElem) returns (found: bool)
      requires Valid() && elem != head && elem != tail
      ensures found <==> elem in elems
    {
      ghost var nodes := Nodes();
      assert nodes[0] == head && head.next == nodes[1] && nodes[|elems| + 1] == tail;
      var e := head.next;
      ghost var i := 1;
      while e != tail
        invariant 1 <= i <= |elems| + 1 && e == nodes[i]
        invariant forall j :: 1 <= j < i ==> nodes[j] != elem
        decreases |elems| + 1 - i
      {
        if e == elem {
          assert elems[i - 1] == elem;
          return true;
        }
        assert nodes[i].next == nodes[i + 1];
        e := e.next;
        i := i + 1;
      }
      assert i == |elems| + 1;
      forall j | 0 <= j < |elems|
        ensures elems[j] != elem
      {
        assert nodes[j + 1] == elems[j];
      }
      return false;
    }
  }
}
