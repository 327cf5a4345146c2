/** The lists of tasks as the kernel links them: rings through a list_head in every task.  One family of rings
    over the same link is a set of run queues, or all children lists.  Operations on the rings do to the lists
    what RunQueue and Process do to sequences. */
module TaskRings {
  import opened Lists
  import opened Bitmap
  import opened SchedSpec
  import opened RunQueue
  import L = ListHead

  class Rings {
    const heads: seq<L.Node>
    const links: map<nat, L.Node>
    ghost var lists: seq<seq<nat>>

    constructor (heads: seq<L.Node>, links: map<nat, L.Node>)
      requires Layout(heads, links) && forall k | 0 <= k < |heads| :: heads[k].next == heads[k].prev == heads[k]
      ensures Valid() && this.heads == heads && this.links == links && lists == seq(|heads|, _ => [])
    {
      this.heads, this.links, lists := heads, links, seq(|heads|, _ => []);
    }

    /** The links that the members of a list lie on. */
    ghost function Linked(l: seq<nat>): (r: seq<L.Node>)
      requires forall p | p in l :: p in links
      ensures |r| == |l| && forall i | 0 <= i < |l| :: r[i] == links[l[i]]
    {
      seq(|l|, i requires 0 <= i < |l| => links[l[i]])
    }

    /** The rings of two lists share no node. */
    lemma Disjoint(lists: seq<seq<nat>>, j: nat, k: nat)
      requires Layout(heads, links) && OneList(lists) && j < |lists| && k < |lists| == |heads| && j != k
      requires forall p | p in lists[j] || p in lists[k] :: p in links
      ensures heads[j] != heads[k] && heads[j] !in Linked(lists[k]) && heads[k] !in Linked(lists[j])
      ensures forall x | x in Linked(lists[j]) :: x !in Linked(lists[k])
    {
      forall x | x in Linked(lists[j]) ensures x !in Linked(lists[k]) && x != heads[k] {
        assert x.owner in lists[j] && links[x.owner] == x;
        assert forall y | y in Linked(lists[k]) :: y.owner in lists[k];
      }
    }

    ghost predicate RingAt(k: nat)
      requires k < |heads| && k < |lists|
      reads this, heads, links.Values
    {
      && (forall p | p in lists[k] :: p in links)
      && L.Ring(heads[k], Linked(lists[k]))
    }

    ghost predicate Valid()
      reads this, heads, links.Values
    {
      && Layout(heads, links) && |lists| == |heads| && OneList(lists)
      && forall k {:trigger RingAt(k)} | 0 <= k < |heads| :: RingAt(k)
    }

    lemma NoRepeat(k: nat)
      requires Valid() && k < |heads|
      ensures NoDup(lists[k]) && forall p | p in lists[k] :: p in links
    {
      assert RingAt(k);
      var l := Linked(lists[k]);
      forall i, j | 0 <= i < j < |l| ensures lists[k][i] != lists[k][j] { assert l[i] != l[j]; }
    }

    /** list_add_tail of a task that is on none of the lists. */
    method AddTail(p: nat, k: nat)
      requires Valid() && p in links && k < |heads| && forall j | 0 <= j < |lists| :: p !in lists[j]
      modifies this`lists, heads, links.Values
      ensures Valid() && lists == old(lists)[k := old(lists)[k] + [p]]
    {
      assert RingAt(k);
      ghost var was, l := lists, Linked(lists[k]);
      L.ListAddTail(links[p], heads[k], l);
      lists := lists[k := lists[k] + [p]];
      assert Linked(lists[k]) == l + [links[p]];
      forall j | 0 <= j < |heads| && j != k ensures RingAt(j) {
        assert old(RingAt(j));
        Disjoint(was, j, k);
        assert links[p] !in Linked(lists[j]);
      }
    }

    /** list_del: the task leaves the list it is on, whichever that is. */
    method Del(p: nat, ghost k: nat)
      requires Valid() && k < |heads| && p in lists[k]
      modifies this`lists, heads, links.Values
      ensures Valid() && lists == old(lists)[k := Without(old(lists)[k], p)] && lists == UnlinkFrom(old(lists), p)
      ensures p in links && forall j | 0 <= j < |lists| :: p !in lists[j]
    {
      NoRepeat(k);
      Unlisted(lists, p, k);
      assert RingAt(k);
      ghost var was, l, i := lists, Linked(lists[k]), IndexOf(lists[k], p);
      L.ListDel(links[p], heads[k], l, i);
      lists := lists[k := Without(lists[k], p)];
      assert Linked(lists[k]) == l[..i] + l[i + 1..];
      forall j | 0 <= j < |heads| && j != k ensures RingAt(j) {
        assert old(RingAt(j));
        Disjoint(was, j, k);
      }
    }

    /** INIT_LIST_HEAD of the link of a task that is on none of the lists. */
    method Reset(p: nat)
      requires Valid() && p in links && forall j | 0 <= j < |lists| :: p !in lists[j]
      modifies links[p]
      ensures Valid()
    {
      links[p].Init();
      forall j | 0 <= j < |heads| ensures RingAt(j) {
        assert old(RingAt(j));
        assert links[p] !in Linked(lists[j]) && links[p] != heads[j];
      }
    }

    /** list_empty */
    method Empty(k: nat) returns (empty: bool)
      requires Valid() && k < |heads|
      ensures empty <==> lists[k] == []
    {
      assert RingAt(k);
      empty := L.ListEmpty(heads[k], Linked(lists[k]));
    }

    /** list_first_entry */
    method First(k: nat) returns (p: nat)
      requires Valid() && k < |heads| && lists[k] != []
      ensures p == lists[k][0]
    {
      assert RingAt(k);
      assert L.At(heads[k], Linked(lists[k]), 0).next == L.After(heads[k], Linked(lists[k]), 0);
      return heads[k].next.owner;
    }

    /** The node at position i of ring k, the head being behind the last member. */
    ghost function Position(k: nat, i: nat): L.Node
      requires k < |heads| == |lists| && i <= |lists[k]| && forall p | p in lists[k] :: p in links
      reads this
    {
      if i == |lists[k]| then heads[k] else links[lists[k][i]]
    }

    lemma FollowNext(k: nat)
      requires Valid() && k < |heads|
      ensures (forall p | p in lists[k] :: p in links) && heads[k].next == Position(k, 0)
      ensures lists[k] == [] <==> Position(k, 0) == heads[k]
      ensures lists[k] != [] ==> Position(k, 0).next == Position(k, 1)
    {
      assert RingAt(k);
      var l := Linked(lists[k]);
      assert L.At(heads[k], l, 0).next == L.After(heads[k], l, 0);
      if l != [] { assert L.At(heads[k], l, 1).next == L.After(heads[k], l, 1); }
    }

    /** The loop of exit_notify: it moves the members of ring k, one by one and in order, to the end of ring m.
        The next node is read before the current one is moved. */
    method MoveAll(k: nat, m: nat)
      requires Valid() && k < |heads| && m < |heads| && k != m
      modifies this`lists, heads, links.Values
      ensures Valid() && lists == old(lists)[m := old(lists)[m] + old(lists)[k]][k := []]
    {
      ghost var was, n := lists, 0;
      FollowNext(k);
      var pos := heads[k].next;
      var next := pos.next;
      assert was[m] + was[k][..n] == was[m] && was[k][n..] == was[k];
      while pos != heads[k]
        invariant Valid() && n <= |was[k]| && lists == Handed(was, k, m, n)
        invariant (forall p | p in lists[k] :: p in links) && pos == Position(k, 0) && next != null && next == pos.next
        decreases |was[k]| - n
      {
        FollowNext(k);
        var child := pos.owner;
        assert child == lists[k][0];
        HandedNext(was, k, m, n);
        Del(child, k);
        AddTail(child, m);
        n := n + 1;
        FollowNext(k);
        pos := next;
        next := next.next;
      }
      FollowNext(k);
      HandedAll(was, k, m, n);
    }
  }

  /** After n members of list k have been handed over to list m. */
  ghost function Handed(lists: seq<seq<nat>>, k: nat, m: nat, n: nat): seq<seq<nat>>
    requires k < |lists| && m < |lists| && n <= |lists[k]|
  {
    lists[m := lists[m] + lists[k][..n]][k := lists[k][n..]]
  }

  lemma HandedNext(lists: seq<seq<nat>>, k: nat, m: nat, n: nat)
    requires k < |lists| && m < |lists| && k != m && n < |lists[k]|
    ensures var l, child := Handed(lists, k, m, n), lists[k][n];
            && l[k] != [] && l[k][0] == child && Without(l[k], child) == l[k][1..]
            && l[k := l[k][1..]][m := l[m] + [child]] == Handed(lists, k, m, n + 1)
  {
    assert lists[m] + lists[k][..n] + [lists[k][n]] == lists[m] + lists[k][..n + 1];
  }

  lemma HandedAll(lists: seq<seq<nat>>, k: nat, m: nat, n: nat)
    requires k < |lists| && m < |lists| && k != m && n <= |lists[k]| && Handed(lists, k, m, n)[k] == []
    ensures Handed(lists, k, m, n) == lists[m := lists[m] + lists[k]][k := []]
  {
    assert n == |lists[k]| && lists[k][..n] == lists[k];
  }

  /** Every task has its own link and no link is a head. */
  ghost predicate Layout(heads: seq<L.Node>, links: map<nat, L.Node>) {
    && (forall j, k | 0 <= j < k < |heads| :: heads[j] != heads[k])
    && (forall p | p in links :: links[p].owner == p && links[p] !in heads)
  }

  /** No task is on two of the lists. */
  ghost predicate OneList(lists: seq<seq<nat>>) {
    forall j, k, p | 0 <= j < |lists| && 0 <= k < |lists| && p in lists[j] && p in lists[k] :: j == k
  }

  /** The two priority arrays of the run queue, with rings for queues: array a has heads
      a * MAX_PRIO to a * MAX_PRIO + MAX_PRIO. */
  class RingRq {
    const rings: Rings
    var active: nat
    var nrActive: seq<nat>
    var bitmap: seq<Words>

    ghost predicate Valid()
      reads this, rings, rings.heads, rings.links.Values
    {
      && rings.Valid() && |rings.heads| == 2 * MAX_PRIO && active < 2 && |nrActive| == 2 && |bitmap| == 2
      && |bitmap[0]| == |bitmap[1]| == BITMAP_SIZE
    }

    /** sched_init */
    constructor (heads: seq<L.Node>, links: map<nat, L.Node>)
      requires |heads| == 2 * MAX_PRIO && Layout(heads, links)
      requires forall k | 0 <= k < |heads| :: heads[k].next == heads[k].prev == heads[k]
      ensures Valid() && rings.heads == heads && rings.links == links
      ensures forall a | 0 <= a < 2 :: IndexOk(Array(a)) && AllEmpty(Array(a).queue)
    {
      rings := new Rings(heads, links);
      active, nrActive, bitmap := 0, [0, 0], [[0, 0, 0], [0, 0, 0]];
      new;
      forall a | 0 <= a < 2 ensures Array(a) == PrioArray(0, [0, 0, 0], seq(MAX_PRIO, _ => [])) {
        assert Part(rings.lists, a) == seq(MAX_PRIO, _ => []);
      }
      EmptyIndexOk(PrioArray(0, [0, 0, 0], seq(MAX_PRIO, _ => [])));
    }

    /** The array as RunQueue has it. */
    ghost function Array(a: nat): PrioArray
      requires Valid() && a < 2
      reads this, rings, rings.heads, rings.links.Values
    {
      PrioArray(nrActive[a], bitmap[a], Part(rings.lists, a))
    }

    method EnqueueTask(p: nat, prio: int)
      requires Valid() && p in rings.links && forall j | 0 <= j < |rings.lists| :: p !in rings.lists[j]
      modifies this, rings`lists, rings.heads, rings.links.Values
      ensures Valid() && active == old(active)
      ensures Array(active) == Append(old(Array(active)), Clamp(prio), p) && Array(1 - active) == old(Array(1 - active))
    {
      var k := Clamp(prio);
      PartPut(rings.lists, active, k, rings.lists[active * MAX_PRIO + k] + [p]);
      rings.AddTail(p, active * MAX_PRIO + k);
      bitmap := bitmap[active := SetBit(bitmap[active], k)];
      nrActive := nrActive[active := nrActive[active] + 1];
    }

    /** dequeue_task of a queued task: list_del finds its ring without knowing the array, the indexes of the
        active array are adjusted. */
    method DequeueTask(p: nat, prio: int)
      requires Valid() && exists j | 0 <= j < |rings.lists| :: p in rings.lists[j]
      modifies this, rings`lists, rings.heads, rings.links.Values
      ensures Valid() && active == old(active)
      ensures Array(active) == var a := old(Array(active)); Drop(a, UnlinkFrom(a.queue, p), Clamp(prio))
      ensures Array(1 - active) == var e := old(Array(1 - active)); e.(queue := UnlinkFrom(e.queue, p))
      ensures forall j | 0 <= j < |rings.lists| :: p !in rings.lists[j]
    {
      Unlink(p);
      LowerIndexes(Clamp(prio));
    }

    method LowerIndexes(k: nat)
      requires Valid() && k < MAX_PRIO
      modifies this`bitmap, this`nrActive
      ensures Valid() && Array(1 - active) == old(Array(1 - active))
      ensures Array(active) == Drop(old(Array(active)), Part(rings.lists, active), k)
    {
      var empty := rings.Empty(active * MAX_PRIO + k);
      if empty { bitmap := bitmap[active := ClearBit(bitmap[active], k)]; }
      if nrActive[active] > 0 { nrActive := nrActive[active := nrActive[active] - 1]; }
    }

    method Unlink(p: nat)
      requires Valid() && exists j | 0 <= j < |rings.lists| :: p in rings.lists[j]
      modifies rings`lists, rings.heads, rings.links.Values
      ensures Valid() && bitmap == old(bitmap) && nrActive == old(nrActive)
      ensures forall j | 0 <= j < |rings.lists| :: p !in rings.lists[j]
      ensures forall a | 0 <= a < 2 :: Part(rings.lists, a) == UnlinkFrom(Part(old(rings.lists), a), p)
    {
      ghost var j :| 0 <= j < |rings.lists| && p in rings.lists[j];
      PartUnlink(rings.lists, p, 0);
      PartUnlink(rings.lists, p, 1);
      rings.Del(p, j);
      rings.Reset(p);
    }

    /** pick_next_task; None stands for the idle task. */
    method PickNextTask() returns (next: Option<nat>)
      requires Valid() && IndexOk(Array(0)) && IndexOk(Array(1))
      modifies this`active
      ensures Valid() && active == if AllEmpty(old(Array(active)).queue) then 1 - old(active) else old(active)
      ensures next == match FirstFit(Array(active).queue, 0)
                      case None => None
                      case Some(k) => Some(Array(active).queue[k][0])
    {
      TotalZero(Array(active).queue);
      if nrActive[active] == 0 { active := 1 - active; }
      next := Front();
    }

    method Front() returns (next: Option<nat>)
      requires Valid() && IndexOk(Array(active))
      ensures next == match FirstFit(Array(active).queue, 0)
                      case None => None
                      case Some(k) => Some(Array(active).queue[k][0])
    {
      ghost var a := Array(active);
      TotalZero(a.queue);
      if nrActive[active] == 0 {
        NoneFit(a.queue);
        return None;
      }
      var idx := FindFirstBit(bitmap[active], MAX_PRIO);
      FirstBitIsFirstFit(a, idx);
      if idx >= MAX_PRIO { return None; }
      assert a.queue[idx] == rings.lists[active * MAX_PRIO + idx];
      var empty := rings.Empty(active * MAX_PRIO + idx);
      if empty { return None; }
      var p := rings.First(active * MAX_PRIO + idx);
      return Some(p);
    }
  }

  lemma Unlisted(lists: seq<seq<nat>>, p: nat, k: nat)
    requires OneList(lists) && k < |lists| && p in lists[k] && NoDup(lists[k])
    ensures forall j | 0 <= j < |lists| :: p !in UnlinkFrom(lists, p)[j]
  {
    WithoutProps(lists[k], p);
  }

  ghost function Part(lists: seq<seq<nat>>, a: nat): (q: Queues)
    requires |lists| == 2 * MAX_PRIO && a < 2
    ensures |q| == MAX_PRIO && forall k | 0 <= k < MAX_PRIO :: q[k] == lists[a * MAX_PRIO + k]
  {
    lists[a * MAX_PRIO..a * MAX_PRIO + MAX_PRIO]
  }

  lemma PartPut(lists: seq<seq<nat>>, a: nat, k: nat, l: seq<nat>)
    requires |lists| == 2 * MAX_PRIO && a < 2 && k < MAX_PRIO
    ensures var lists' := lists[a * MAX_PRIO + k := l];
            Part(lists', a) == Part(lists, a)[k := l] && Part(lists', 1 - a) == Part(lists, 1 - a)
  {}

  lemma PartUnlink(lists: seq<seq<nat>>, p: nat, a: nat)
    requires |lists| == 2 * MAX_PRIO && a < 2
    ensures Part(UnlinkFrom(lists, p), a) == UnlinkFrom(Part(lists, a), p)
  {}
}
