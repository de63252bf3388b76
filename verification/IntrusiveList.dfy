/** The intrusive doubly-linked list: pointer surgery that refines sequences. */
module IntrusiveLists {
  import opened Sequences

  function Some(n: Node?): set<Node> {
    if n == null then {} else {n}
  }

  /** A list element; line address and id are the cache entry that embeds it. */
  class Node {
    var next: Node?
    var prev: Node?
    var owner: InList?
    var lineAddr: nat
    const lineId: nat

    constructor (id: nat)
      ensures Detached() && lineAddr == 0 && lineId == id
    {
      next, prev, owner, lineAddr, lineId := null, null, null, 0, id;
    }

    predicate Detached()
      reads this
    {
      next == null && prev == null && owner == null
    }

    /** Tie the neighbours together and forget them. */
    method Unlink(lst: InList)
      requires lst == owner && next != this && prev != this
      modifies this`next, this`prev, this`owner, Some(next)`prev, Some(prev)`next
      ensures Detached()
      ensures old(next) != null ==> old(next).prev == old(prev)
      ensures old(prev) != null ==> old(prev).next == old(next)
    {
      if next != null { next.prev := prev; }
      if prev != null { prev.next := next; }
      next, prev := null, null;
      owner := null;
    }

    /** Go right behind p, ahead of what followed it. */
    method LinkPrev(p: Node, lst: InList)
      requires Detached() && p != this && p.next != this && p.next != p
      requires p.next != null ==> p.next.prev == p
      modifies this`next, this`prev, this`owner, p`next, Some(p.next)`prev
      ensures next == old(p.next) && prev == p && owner == lst && p.next == this
      ensures old(p.next) != null ==> old(p.next).prev == this
    {
      if p.next != null {
        p.next.prev := this;
        next := p.next;
      }
      p.next := this;
      prev := p;
      owner := lst;
    }
  }

  class InList {
    var head: Node?
    var tail: Node?
    var elems: nat
    /** The elements, front to back. */
    ghost var nodes: seq<Node>

    ghost predicate Valid()
      reads this, nodes
    {
      && elems == |nodes|
      && Distinct(nodes)
      && (forall i | 0 <= i < |nodes| :: Linked(i))
      && head == At(0) && tail == At(|nodes| - 1)
    }

    ghost function At(i: int): Node?
      reads this`nodes
    {
      if 0 <= i < |nodes| then nodes[i] else null
    }

    ghost predicate Linked(i: int)
      requires 0 <= i < |nodes|
      reads this, nodes
    {
      nodes[i].owner == this && nodes[i].next == At(i + 1) && nodes[i].prev == At(i - 1)
    }

    lemma Outside(e: Node)
      requires Valid() && e.owner != this
      ensures e !in nodes
    {
      forall j | 0 <= j < |nodes| ensures nodes[j] != e { assert Linked(j); }
    }

    constructor ()
      ensures Valid() && nodes == []
    {
      head, tail, elems, nodes := null, null, 0, [];
    }

    predicate Empty()
      reads this
    {
      head == null
    }

    method PushFront(e: Node)
      requires Valid() && e.Detached()
      modifies this, e`next, e`prev, e`owner, nodes`prev
      ensures Valid() && nodes == [e] + old(nodes)
    {
      Outside(e);
      DistinctCons(e, nodes);
      if Empty() {
        head, tail := e, e;
      } else {
        assert Linked(0);
        DistinctFrom(nodes, 0);
        e.next := head;
        head.prev := e;
        head := e;
      }
      e.owner := this;
      elems := elems + 1;
      nodes := [e] + nodes;
      assert forall i | 0 < i < |nodes| :: nodes[i] == old(nodes)[i - 1] && old(Linked(i - 1));
    }

    method PushBack(e: Node)
      requires Valid() && e.Detached()
      modifies this, e`next, e`prev, e`owner, nodes`next, nodes`prev
      ensures Valid() && nodes == old(nodes) + [e]
    {
      Outside(e);
      DistinctSnoc(nodes, e);
      if Empty() {
        head, tail := e, e;
        e.owner := this;
      } else {
        assert Linked(|nodes| - 1);
        DistinctFrom(nodes, |nodes| - 1);
        e.LinkPrev(tail, this);
        tail := e;
      }
      elems := elems + 1;
      nodes := nodes + [e];
      forall j | 0 <= j < |nodes| - 1 ensures Linked(j) { assert nodes[j] == old(nodes)[j] && old(Linked(j)); }
    }

    /** Linked past the element at place i. */
    ghost predicate LinkedBut(k: nat, i: nat)
      requires k < |nodes|
      reads this`nodes, nodes
    {
      && nodes[k].owner == this
      && nodes[k].next == (if k + 1 == i then At(k + 2) else At(k + 1))
      && nodes[k].prev == (if k == i + 1 then At(k - 2) else At(k - 1))
    }

    /** Untie the element at place i from its neighbours. */
    method Untie(e: Node, ghost i: nat)
      requires Valid() && i < |nodes| && e == nodes[i]
      modifies this`head, this`tail, nodes`next, nodes`prev, nodes`owner
      ensures e.Detached()
      ensures forall k: nat | k < |nodes| && k != i :: LinkedBut(k, i)
      ensures head == (if i == 0 then At(1) else At(0))
      ensures tail == (if i + 1 == |nodes| then At(i - 1) else At(|nodes| - 1))
    {
      assert Linked(i);
      if i > 0 {
        assert Linked(i - 1);
        DistinctAt(nodes, i - 1, i);
      }
      if i + 1 < |nodes| {
        assert Linked(i + 1);
        DistinctAt(nodes, i, i + 1);
      }
      DistinctFrom(nodes, i);
      if e == head { head := e.next; }
      if e == tail { tail := e.prev; }
      e.Unlink(this);
      forall k: nat | k < |nodes| && k != i ensures LinkedBut(k, i) {
        assert old(Linked(k));
        if i > 0 && k != i - 1 { DistinctAt(nodes, k, i - 1); }
        if i + 1 < |nodes| && k != i + 1 { DistinctAt(nodes, k, i + 1); }
      }
    }

    /** Take out the element at place i of the list. */
    method Remove(e: Node, ghost i: nat)
      requires Valid() && i < |nodes| && e == nodes[i]
      modifies this, nodes`next, nodes`prev, nodes`owner
      ensures Valid() && nodes == old(nodes[..i] + nodes[i + 1..]) && e.Detached()
    {
      ghost var ns := nodes;
      DistinctRemove(nodes, i);
      Untie(e, i);
      elems := elems - 1;
      label untied:
      nodes := nodes[..i] + nodes[i + 1..];
      forall j: nat | j < |nodes| ensures Linked(j) {
        var k: nat := if j < i then j else j + 1;
        assert nodes[j] == ns[k] && old@untied(LinkedBut(k, i));
      }
    }

    method PopFront()
      requires Valid()
      modifies this, nodes`next, nodes`prev, nodes`owner
      ensures Valid() && nodes == if old(nodes) == [] then [] else old(nodes[1..])
      ensures old(nodes) != [] ==> old(nodes[0]).Detached()
    {
      if Empty() { return; }
      assert Linked(0);
      if 1 < |nodes| {
        assert Linked(1);
        DistinctFrom(nodes, 1);
      }
      DistinctFrom(nodes, 0);
      DistinctTail(nodes);
      var e := head;
      head := e.next;
      e.Unlink(this);
      if head == null { tail := null; }
      elems := elems - 1;
      nodes := nodes[1..];
      assert forall j | 0 <= j < |nodes| :: nodes[j] == old(nodes)[j + 1] && old(Linked(j + 1));
    }

    method PopBack()
      requires Valid()
      modifies this, nodes`next, nodes`prev, nodes`owner
      ensures Valid() && nodes == if old(nodes) == [] then [] else old(nodes[..|nodes| - 1])
      ensures old(nodes) != [] ==> old(nodes[|nodes| - 1]).Detached()
    {
      if Empty() { return; }
      ghost var n := |nodes| - 1;
      assert Linked(n);
      if n > 0 {
        assert Linked(n - 1);
        DistinctFrom(nodes, n - 1);
      }
      DistinctFrom(nodes, n);
      DistinctPrefix(nodes);
      var e := tail;
      tail := e.prev;
      e.Unlink(this);
      if tail == null { head := null; }
      elems := elems - 1;
      nodes := nodes[..|nodes| - 1];
      forall j | 0 <= j < |nodes| ensures Linked(j) { assert nodes[j] == old(nodes)[j] && old(Linked(j)); }
    }

    /** Linked around e, behind the element at place i. */
    ghost predicate LinkedAround(k: nat, e: Node, i: nat)
      requires k < |nodes|
      reads this`nodes, nodes
    {
      && nodes[k].owner == this
      && nodes[k].next == (if k == i then e else At(k + 1))
      && nodes[k].prev == (if k == i + 1 then e else At(k - 1))
    }

    /** Tie e to the element at place i and the one behind it. */
    method Tie(p: Node, e: Node, ghost i: nat)
      requires Valid() && e.Detached() && i < |nodes| && p == nodes[i]
      modifies e`next, e`prev, e`owner, nodes`next, nodes`prev
      ensures e.next == At(i + 1) && e.prev == p && e.owner == this && e !in nodes
      ensures forall k: nat | k < |nodes| :: LinkedAround(k, e, i)
    {
      assert Linked(i);
      if i + 1 < |nodes| {
        assert Linked(i + 1);
        DistinctAt(nodes, i, i + 1);
      }
      Outside(e);
      e.LinkPrev(p, this);
      forall k: nat | k < |nodes| ensures LinkedAround(k, e, i) {
        assert old(Linked(k));
        if k != i { DistinctAt(nodes, k, i); }
        if i + 1 < |nodes| && k != i + 1 { DistinctAt(nodes, k, i + 1); }
      }
    }

    /** Insert e right behind the element at place i. */
    method InsertAfter(p: Node, e: Node, ghost i: nat)
      requires Valid() && e.Detached() && i < |nodes| && p == nodes[i]
      modifies this, e`next, e`prev, e`owner, nodes`next, nodes`prev
      ensures Valid() && nodes == old(nodes[..i + 1] + [e] + nodes[i + 1..])
    {
      ghost var ns := nodes;
      if i + 1 < |nodes| { DistinctAt(nodes, i, |nodes| - 1); }
      Tie(p, e, i);
      DistinctInsert(nodes, i + 1, e);
      if p == tail { tail := e; }
      elems := elems + 1;
      label tied:
      nodes := nodes[..i + 1] + [e] + nodes[i + 1..];
      assert nodes[i + 1] == e;
      forall j: nat | j < |nodes| && j != i + 1 ensures Linked(j) {
        var k: nat := if j <= i then j else j - 1;
        assert nodes[j] == ns[k] && old@tied(LinkedAround(k, e, i));
      }
    }
  }
}
