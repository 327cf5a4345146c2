/** Circular doubly linked lists with a head node, as used for the run queues, the children lists and the
    list of all tasks.  The pointer operations are proved to act on the sequence of list members. */
module ListHead {

  /** A list_head; owner is the structure it lies in, which list_entry computes from its address. */
  class Node {
    const owner: nat
    var next: Node?
    var prev: Node?

    constructor (owner: nat)
      ensures this.owner == owner && next == prev == this
    {
      this.owner := owner;
      next, prev := this, this;
    }

    /** INIT_LIST_HEAD */
    method Init()
      modifies this
      ensures next == prev == this
    {
      next, prev := this, this;
    }
  }

  /** The node at position i of the circle: position 0 is the head, the members follow. */
  ghost function At(head: Node, l: seq<Node>, i: int): Node
    requires 0 <= i <= |l|
  {
    if i == 0 then head else l[i - 1]
  }

  ghost function After(head: Node, l: seq<Node>, i: int): Node
    requires 0 <= i <= |l|
  {
    if i == |l| then head else l[i]
  }

  /** Following next from head visits exactly l and returns; prev is the exact reverse. */
  ghost predicate Ring(head: Node, l: seq<Node>)
    reads head, l
  {
    && head !in l
    && (forall i, j | 0 <= i < j < |l| :: l[i] != l[j])
    && forall i {:trigger At(head, l, i)} | 0 <= i <= |l| ::
         At(head, l, i).next == After(head, l, i) && After(head, l, i).prev == At(head, l, i)
  }

  lemma Neighbours(head: Node, l: seq<Node>, i: int)
    requires Ring(head, l) && 0 <= i < |l|
    ensures l[i].prev == At(head, l, i) && l[i].next == After(head, l, i + 1)
    ensures l[i].next.prev == l[i] && l[i].prev.next == l[i]
  {
    assert At(head, l, i).next == After(head, l, i);
    assert At(head, l, i + 1) == l[i];
  }

  /** __list_add */
  method Link(node: Node, prev: Node, next: Node)
    requires node != prev && node != next
    modifies node, prev, next
    ensures node.next == next && node.prev == prev && next.prev == node && prev.next == node
    ensures prev != next ==> next.next == old(next.next) && prev.prev == old(prev.prev)
  {
    next.prev := node;
    node.next := next;
    node.prev := prev;
    prev.next := node;
  }

  /** list_add_tail: the node becomes the last member. */
  method ListAddTail(node: Node, head: Node, ghost l: seq<Node>)
    requires Ring(head, l) && node != head && node !in l
    modifies node, head, l
    ensures Ring(head, l + [node])
    ensures forall x | x in l && x != old(head.prev) :: x.next == old(x.next) && x.prev == old(x.prev)
  {
    ghost var l' := l + [node];
    assert At(head, l, |l|).next == After(head, l, |l|);
    var last := head.prev;
    assert last == At(head, l, |l|);
    forall i | 0 <= i < |l| ensures At(head, l, i).next == l[i] && l[i].prev == At(head, l, i) {
      Neighbours(head, l, i);
    }
    Link(node, last, head);
    forall i | 0 <= i <= |l'| ensures
      At(head, l', i).next == After(head, l', i) && After(head, l', i).prev == At(head, l', i)
    {
      assert i <= |l| ==> At(head, l', i) == At(head, l, i);
    }
  }

  /** list_del: the node leaves the list and its own links are cleared. */
  method ListDel(entry: Node, ghost head: Node, ghost l: seq<Node>, ghost k: int)
    requires Ring(head, l) && 0 <= k < |l| && l[k] == entry
    modifies head, l
    ensures Ring(head, l[..k] + l[k + 1..])
    ensures entry.next == entry.prev == null
  {
    ghost var l' := l[..k] + l[k + 1..];
    Neighbours(head, l, k);
    forall i | 0 <= i <= |l| ensures
      At(head, l, i).next == After(head, l, i) && After(head, l, i).prev == At(head, l, i) {}
    entry.next.prev := entry.prev;
    entry.prev.next := entry.next;
    entry.next, entry.prev := null, null;
    forall i | 0 <= i <= |l'| ensures
      At(head, l', i).next == After(head, l', i) && After(head, l', i).prev == At(head, l', i)
    {
      ghost var o := if i <= k then i else i + 1;
      assert At(head, l', i) == At(head, l, o);
      assert After(head, l', i) == if i == k then After(head, l, k + 1) else After(head, l, o);
    }
  }

  /** list_empty */
  method ListEmpty(head: Node, ghost l: seq<Node>) returns (empty: bool)
    requires Ring(head, l)
    ensures empty <==> l == []
  {
    assert At(head, l, 0).next == After(head, l, 0);
    return head.next == head;
  }
}
