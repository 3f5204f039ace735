/**
 lib/kernel/list.c: the intrusive doubly linked list between two sentinels, refining a sequence of
 elements.
 */
module KernelList {

  /** struct list_elem */
  class Elem {
    var prev: Elem?
    var next: Elem?

    constructor ()
      ensures prev == null && next == null
    {
      prev, next := null, null;
    }
  }

  ghost predicate Distinct(nodes: seq<Elem>) {
    forall i, j :: 0 <= i < j < |nodes| ==> nodes[i] != nodes[j]
  }

  /** next and prev are mutual inverses along `nodes`, with nothing beyond the two ends. */
  ghost predicate Linked(nodes: seq<Elem>)
    reads nodes
  {
    |nodes| >= 2 && Distinct(nodes) && nodes[0].prev == null && nodes[|nodes| - 1].next == null &&
    (forall i {:trigger nodes[i].next} :: 0 <= i < |nodes| - 1 ==> nodes[i].next == nodes[i + 1]) &&
    (forall i {:trigger nodes[i].prev} :: 0 < i < |nodes| ==> nodes[i].prev == nodes[i - 1])
  }

  /** struct list; `nodes` is the chain with both sentinels. */
  class List {
    const head: Elem
    const tail: Elem
    ghost var nodes: seq<Elem>

    ghost predicate Valid()
      reads this, nodes
    {
      Linked(nodes) && nodes[0] == head && nodes[|nodes| - 1] == tail
    }

    /** The elements of the list: the chain without the sentinels. */
    ghost function Elems(): seq<Elem>
      requires Valid()
      reads this, nodes
    {
      nodes[1..|nodes| - 1]
    }

    /** list_init */
    constructor ()
      ensures Valid() && Elems() == [] && fresh(nodes)
    {
      var h := new Elem();
      var t := new Elem();
      head, tail := h, t;
      nodes := [h, t];
      new;
      head.prev := null;
      head.next := tail;
      tail.prev := head;
      tail.next := null;
    }

    /** list_insert_before: `before` is node k of the chain. Only elem and its two neighbours change. */
    method InsertBefore(before: Elem, elem: Elem, ghost k: nat)
      requires Valid() && 1 <= k < |nodes| && nodes[k] == before && elem !in nodes
      modifies this`nodes, nodes, elem
      ensures Valid() && nodes == old(nodes)[..k] + [elem] + old(nodes)[k..]
      ensures forall n :: n in old(nodes) && n != before ==> n.prev == old(n.prev)
      ensures forall n :: n in old(nodes) && n != old(nodes)[k - 1] ==> n.next == old(n.next)
      ensures elem.prev == old(nodes)[k - 1] && elem.next == before
    {
      before.prev.next := elem;
      elem.prev := before.prev;
      elem.next := before;
      before.prev := elem;
      nodes := nodes[..k] + [elem] + nodes[k..];
    }

    /** list_remove: the neighbours are joined; the element keeps its own pointers. */
    method Remove(elem: Elem, ghost k: nat)
      requires Valid() && 1 <= k < |nodes| - 1 && nodes[k] == elem
      modifies this`nodes, nodes
      ensures Valid() && nodes == old(nodes)[..k] + old(nodes)[k + 1..]
      ensures forall n :: n in old(nodes) && n != old(nodes)[k + 1] ==> n.prev == old(n.prev)
      ensures forall n :: n in old(nodes) && n != old(nodes)[k - 1] ==> n.next == old(n.next)
    {
      elem.prev.next := elem.next;
      elem.next.prev := elem.prev;
      nodes := nodes[..k] + nodes[k + 1..];
    }

    /** list_push */
    method Push(elem: Elem)
      requires Valid() && elem !in nodes
      modifies this`nodes, nodes, elem
      ensures Valid() && Elems() == [elem] + old(Elems())
    {
      InsertBefore(head.next, elem, 1);
    }

    /** list_append */
    method Append(elem: Elem)
      requires Valid() && elem !in nodes
      modifies this`nodes, nodes, elem
      ensures Valid() && Elems() == old(Elems()) + [elem]
    {
      InsertBefore(tail, elem, |nodes| - 1);
    }

    /** list_pop; on an empty list the code would follow the null pointer behind the tail. */
    method Pop() returns (elem: Elem)
      requires Valid() && Elems() != []
      modifies this`nodes, nodes
      ensures Valid() && old(Elems()) == [elem] + Elems()
    {
      elem := head.next;
      Remove(elem, 1);
    }

    /** list_empty */
    method IsEmpty() returns (b: bool)
      requires Valid()
      ensures b <==> Elems() == []
    {
      b := head.next == tail;
    }

    /** elem_find */
    method Find(obj: Elem) returns (b: bool)
      requires Valid()
      ensures b <==> obj in Elems()
    {
      var elem, i := head.next, 1;
      ghost var es := Elems();
      while elem != tail
        invariant 1 <= i < |nodes| && elem == nodes[i] && obj !in es[..i - 1]
        decreases |nodes| - i
      {
        assert elem == es[i - 1];
        if elem == obj {
          return true;
        }
        elem, i := elem.next, i + 1;
      }
      assert es[..i - 1] == es;
      return false;
    }

    /** list_traversal: the first element the callback accepts. The callback may read anything, such
        as the structure around the element, and gets the caller's argument. */
    method Traverse(func: (Elem, int) ~> bool, arg: int) returns (r: Elem?)
      requires Valid() && forall i :: 0 <= i < |Elems()| ==> func.requires(Elems()[i], arg)
      ensures r == null ==> forall i :: 0 <= i < |Elems()| ==> func.requires(Elems()[i], arg) && !func(Elems()[i], arg)
      ensures r != null ==>
                exists i :: 0 <= i < |Elems()| && Elems()[i] == r && func.requires(r, arg) && func(r, arg) &&
                            forall j :: 0 <= j < i ==> func.requires(Elems()[j], arg) && !func(Elems()[j], arg)
    {
      var elem, i := head.next, 1;
      ghost var es := Elems();
      var empty := IsEmpty();
      if empty {
        return null;
      }
      while elem != tail
        invariant 1 <= i < |nodes| && elem == nodes[i] && forall j :: 0 <= j < i - 1 ==> !func(es[j], arg)
        decreases |nodes| - i
      {
        assert elem == es[i - 1];
        if func(elem, arg) {
          return elem;
        }
        elem, i := elem.next, i + 1;
      }
      return null;
    }

    /** list_len */
    method Length() returns (length: nat)
      requires Valid()
      ensures length == |Elems()|
    {
      var elem := head.next;
      length := 0;
      while elem != tail
        invariant length < |nodes| - 1 && elem == nodes[length + 1]
        decreases |nodes| - length
      {
        length := length + 1;
        elem := elem.next;
      }
    }

    /** Removing an element just inserted restores the pointers of every node of the list. */
    method InsertThenRemove(before: Elem, elem: Elem, ghost k: nat)
      requires Valid() && 1 <= k < |nodes| && nodes[k] == before && elem !in nodes
      modifies this`nodes, nodes, elem
      ensures Valid() && nodes == old(nodes)
      ensures forall n :: n in nodes ==> n.prev == old(n.prev) && n.next == old(n.next)
    {
      InsertBefore(before, elem, k);
      assert nodes[k] == elem;
      Remove(elem, k);
      assert nodes == old(nodes);
      forall n | n in nodes
        ensures n.prev == old(n.prev) && n.next == old(n.next)
      {
        var i :| 0 <= i < |nodes| && nodes[i] == n;
      }
    }
  }
}
