/** The pool of vm_struct and the linked list through it, proved against the list of areas. */
module VmallocPool {
  import opened Lists
  import opened VmallocSpec

  datatype VmStruct = VmStruct(addr: nat, size: nat, nrPages: nat, isMap: bool, isIo: bool, next: Option<nat>,
                               inUse: bool)

  type Pool = seq<VmStruct>

  const FREE: VmStruct := VmStruct(0, 0, 0, false, false, None, false)

  /** What the structure of an area holds. */
  predicate Holds(v: VmStruct, a: Area) {
    v.addr == a.addr && v.size == a.size == (v.nrPages + 1) * PAGE && v.isMap == a.isMap && v.isIo == a.isIo
  }

  function Link(l: Areas, i: nat): Option<nat> { if i < |l| then Some(l[i].slot) else None }

  ghost predicate NodeAt(pool: Pool, l: Areas, i: nat)
    requires i < |l|
  {
    l[i].slot < |pool| && Holds(pool[l[i].slot], l[i]) && pool[l[i].slot].next == Link(l, i + 1)
  }

  /** From head, the next pointers lead through the areas of l. */
  ghost predicate Linked(pool: Pool, head: Option<nat>, l: Areas) {
    head == Link(l, 0) && forall i {:trigger NodeAt(pool, l, i)} | 0 <= i < |l| :: NodeAt(pool, l, i)
  }

  /** A structure is in use exactly when it is on the list. */
  ghost predicate Marked(pool: Pool, used: set<nat>) {
    forall s {:trigger pool[s]} | 0 <= s < |pool| :: pool[s].inUse <==> s in used
  }

  /** Each area has its own structure. */
  ghost predicate Own(l: Areas) {
    && (forall i {:trigger l[i]} | 0 <= i < |l| :: l[i].slot < MAX_AREAS)
    && (forall i, j {:trigger l[i].slot, l[j].slot} | 0 <= i < j < |l| :: l[i].slot != l[j].slot)
  }

  lemma OwnSlots(l: Areas)
    requires Inv(l)
    ensures Own(l)
  {
    forall i, j | 0 <= i < j < |l| ensures l[i].slot != l[j].slot { assert Before(l[i], l[j]); }
  }

  /** Link slot x in front of position k: the pointer that led to k now leads to x. */
  ghost function LinkIn(pool: Pool, l: Areas, k: nat, x: nat): Pool
    requires x < |pool| == MAX_AREAS && k <= |l| && Own(l)
  {
    var p := pool[x := pool[x].(next := Link(l, k))];
    if k == 0 then p else p[l[k - 1].slot := p[l[k - 1].slot].(next := Some(x))]
  }

  lemma LinkedInsert(pool: Pool, head: Option<nat>, l: Areas, k: nat, x: Area)
    requires Linked(pool, head, l) && Own(l) && k <= |l| && x.slot < |pool| == MAX_AREAS && x.slot !in Used(l)
             && Holds(pool[x.slot], x)
    ensures Linked(LinkIn(pool, l, k, x.slot), if k == 0 then Some(x.slot) else head, l[..k] + [x] + l[k..])
  {
    var pool', l' := LinkIn(pool, l, k, x.slot), l[..k] + [x] + l[k..];
    forall i | 0 <= i < |l| ensures l[i].slot != x.slot { assert l[i].slot in Used(l); }
    forall i | 0 <= i < |l'| ensures NodeAt(pool', l', i) {
      if i < k { assert NodeAt(pool, l, i); } else if i > k { assert NodeAt(pool, l, i - 1); }
      NodeInserted(pool, l, k, x, i);
    }
  }

  lemma NodeInserted(pool: Pool, l: Areas, k: nat, x: Area, i: nat)
    requires Own(l) && k <= |l| && i <= |l| && x.slot < |pool| == MAX_AREAS && Holds(pool[x.slot], x)
    requires forall j {:trigger l[j]} | 0 <= j < |l| :: l[j].slot != x.slot
    requires (i < k ==> NodeAt(pool, l, i)) && (i > k ==> NodeAt(pool, l, i - 1))
    ensures NodeAt(LinkIn(pool, l, k, x.slot), l[..k] + [x] + l[k..], i)
  {
    InsertedAt(l, k, x, i);
    if i < |l| { InsertedAt(l, k, x, i + 1); }
  }

  lemma InsertedAt(l: Areas, k: nat, x: Area, i: nat)
    requires k <= |l| && i <= |l|
    ensures (l[..k] + [x] + l[k..])[i] == if i < k then l[i] else if i == k then x else l[i - 1]
  {}

  ghost function LinkOut(pool: Pool, l: Areas, k: nat): Pool
    requires k < |l| && |pool| == MAX_AREAS && Own(l)
  {
    if k == 0 then pool else pool[l[k - 1].slot := pool[l[k - 1].slot].(next := Link(l, k + 1))]
  }

  lemma LinkedRemove(pool: Pool, head: Option<nat>, l: Areas, k: nat, v: VmStruct)
    requires Linked(pool, head, l) && Own(l) && k < |l| && |pool| == MAX_AREAS
    ensures Linked(LinkOut(pool, l, k)[l[k].slot := v], if k == 0 then Link(l, 1) else head, RemoveAt(l, k))
  {
    var pool', l' := LinkOut(pool, l, k)[l[k].slot := v], RemoveAt(l, k);
    forall i | 0 <= i < |l'| ensures NodeAt(pool', l', i) {
      assert NodeAt(pool, l, if i < k then i else i + 1);
      assert l'[i] == l[if i < k then i else i + 1];
      assert i + 1 < |l'| ==> l'[i + 1] == l[if i + 1 < k then i + 1 else i + 2];
    }
  }

  /** A structure that is not on the list may change. */
  lemma LinkedOther(pool: Pool, head: Option<nat>, l: Areas, s: nat, v: VmStruct)
    requires Linked(pool, head, l) && s < |pool| && s !in Used(l)
    ensures Linked(pool[s := v], head, l)
  {
    var pool' := pool[s := v];
    forall i | 0 <= i < |l| ensures NodeAt(pool', l, i) {
      assert NodeAt(pool, l, i);
      assert l[i].slot in Used(l);
    }
  }

  class VmAreas {
    const pool: array<VmStruct>
    var vmlist: Option<nat>
    ghost var list: Areas

    ghost predicate Valid()
      reads this, pool
    {
      pool.Length == MAX_AREAS && Inv(list) && Linked(pool[..], vmlist, list) && Marked(pool[..], Used(list))
    }

    /** vmalloc_init */
    constructor ()
      ensures Valid() && list == [] && fresh(pool)
    {
      pool := new VmStruct[MAX_AREAS](_ => FREE);
      vmlist, list := None, [];
    }

    /** alloc_vm_struct: marks the first structure that is not in use. */
    method AllocVmStruct() returns (r: Option<nat>)
      requires Valid()
      modifies pool
      ensures r == FreeFrom(Used(list), 0, MAX_AREAS)
      ensures pool[..] ==
              if r.Some? then old(pool[..])[r.value := old(pool[..])[r.value].(inUse := true)] else old(pool[..])
    {
      var i := 0;
      while i < MAX_AREAS
        invariant 0 <= i <= MAX_AREAS && pool[..] == old(pool[..])
        invariant FreeFrom(Used(list), 0, MAX_AREAS) == FreeFrom(Used(list), i, MAX_AREAS)
      {
        assert pool[..][i] == pool[i];
        if !pool[i].inUse {
          pool[i] := pool[i].(inUse := true);
          return Some(i);
        }
        i := i + 1;
      }
      return None;
    }

    /** find_vmalloc_area */
    method FindVmallocArea(size: nat) returns (r: nat)
      requires pool.Length == MAX_AREAS && Inv(list) && Linked(pool[..], vmlist, list)
      ensures r == Find(list, START, Span(size))
    {
      var addr: nat, span: nat := START, size + PAGE;
      span := (span + PAGE - 1) / PAGE * PAGE;
      var vm := vmlist;
      ghost var i := 0;
      while vm.Some?
        invariant i <= |list| && vm == Link(list, i) && span == Span(size)
        invariant Find(list, START, span) == Find(list[i..], addr, span)
        decreases |list| - i
      {
        assert NodeAt(pool[..], list, i);
        var v := pool[vm.value];
        if addr + span <= v.addr { return addr; }
        addr := v.addr + v.size;
        vm := v.next;
        i := i + 1;
      }
      if addr + span <= END { return addr; }
      return 0;
    }

    /** insert_vm_struct; prev is the structure whose next pointer is looked at, none for vmlist itself. */
    method InsertVmStruct(slot: nat, ghost x: Area)
      requires pool.Length == MAX_AREAS && Own(list) && Linked(pool[..], vmlist, list)
      requires slot == x.slot < MAX_AREAS && x.slot !in Used(list) && Holds(pool[slot], x)
      modifies this, pool
      ensures list == Insert(old(list), x) && Linked(pool[..], vmlist, list)
      ensures forall s | 0 <= s < MAX_AREAS :: pool[s].inUse == old(pool[s].inUse)
    {
      var prev, cur, k := FindPlace(pool[slot].addr);
      LinkedInsert(pool[..], vmlist, list, k, x);
      ghost var goal := LinkIn(pool[..], list, k, slot);
      pool[slot] := pool[slot].(next := cur);
      if prev.None? { vmlist := Some(slot); } else { pool[prev.value] := pool[prev.value].(next := Some(slot)); }
      assert pool[..] == goal;
      list := list[..k] + [x] + list[k..];
    }

    /** The structures in front of and behind the place for an area that begins at addr. */
    method FindPlace(addr: nat) returns (prev: Option<nat>, cur: Option<nat>, ghost k: nat)
      requires pool.Length == MAX_AREAS && Linked(pool[..], vmlist, list)
      ensures k == VmallocSpec.Place(list, addr, 0) && cur == Link(list, k)
      ensures if k == 0 then prev == None else prev == Some(list[k - 1].slot) && prev.value < MAX_AREAS
    {
      prev, cur, k := None, vmlist, 0;
      assert list != [] ==> NodeAt(pool[..], list, 0);
      while cur.Some? && pool[cur.value].addr < addr
        invariant k <= |list| && cur == Link(list, k)
                  && (if k == 0 then prev == None else prev == Some(list[k - 1].slot))
        invariant cur.Some? ==> cur.value < MAX_AREAS
        invariant prev.Some? ==> prev.value < MAX_AREAS
        invariant VmallocSpec.Place(list, addr, 0) == VmallocSpec.Place(list, addr, k)
        decreases |list| - k
      {
        assert NodeAt(pool[..], list, k);
        prev := cur;
        cur := pool[cur.value].next;
        k := k + 1;
        assert k < |list| ==> NodeAt(pool[..], list, k);
      }
      assert k < |list| ==> NodeAt(pool[..], list, k);
    }

    /** remove_vm_struct and free_vm_struct for the structure of area k. */
    method RemoveVmStruct(slot: nat, ghost k: nat)
      requires Valid() && k < |list| && slot == list[k].slot
      modifies this, pool
      ensures Valid() && list == RemoveAt(old(list), k)
    {
      OwnSlots(list);
      var prev: Option<nat>, cur := None, vmlist;
      ghost var j := 0;
      while cur.Some? && cur.value != slot
        invariant j <= k && cur == Link(list, j) && (if j == 0 then prev == None else prev == Some(list[j - 1].slot))
        invariant prev.Some? ==> prev.value < MAX_AREAS
        decreases |list| - j
      {
        assert NodeAt(pool[..], list, j);
        assert list[j].slot != list[k].slot;
        prev := cur;
        cur := pool[cur.value].next;
        j := j + 1;
      }
      assert list[j].slot == list[k].slot;
      assert j == k;
      assert NodeAt(pool[..], list, k);
      LinkedRemove(pool[..], vmlist, list, k, FREE);
      RemoveInv(list, k);
      ghost var goal := LinkOut(pool[..], list, k)[slot := FREE];
      if prev.None? {
        vmlist := pool[slot].next;
      } else {
        pool[prev.value] := pool[prev.value].(next := pool[slot].next);
      }
      pool[slot] := FREE;
      assert pool[..] == goal;
      list := RemoveAt(list, k);
    }

    /** find_vm_area */
    method FindVmArea(addr: nat) returns (vm: Option<nat>)
      requires Valid()
      ensures vm.Some? ==> vm.value < MAX_AREAS
      ensures match Locate(list, addr, 0)
              case None => vm == None
              case Some(k) => vm == Some(list[k].slot) && Holds(pool[list[k].slot], list[k])
    {
      vm := vmlist;
      ghost var i := 0;
      while vm.Some?
        invariant i <= |list| && vm == Link(list, i) && Locate(list, addr, 0) == Locate(list, addr, i)
        decreases |list| - i
      {
        assert NodeAt(pool[..], list, i);
        if pool[vm.value].addr == addr { return; }
        vm := pool[vm.value].next;
        i := i + 1;
      }
    }

    /** The list side of __vmalloc, vmap and ioremap. */
    method Reserve(size: nat, pages: nat, isMap: bool, isIo: bool, mapped: bool) returns (addr: nat)
      requires Valid() && size > 0 && pages == (size + PAGE - 1) / PAGE
      modifies this, pool
      ensures Valid() && (list, addr) == VmallocSpec.Reserve(old(list), size, isMap, isIo, mapped)
    {
      SpanPages(size);
      var slot := AllocVmStruct();
      if slot.None? { return 0; }
      var s := slot.value;
      LinkedOther(old(pool[..]), vmlist, list, s, old(pool[..])[s].(inUse := true));
      FindFits(list, Span(size));
      addr := FindVmallocArea(size);
      if addr == 0 || !mapped {
        Release(s);
        return 0;
      }
      Place(s, addr, pages, isMap, isIo);
    }

    /** free_vm_struct for a structure that has not been linked. */
    method Release(s: nat)
      requires pool.Length == MAX_AREAS && Inv(list) && Linked(pool[..], vmlist, list)
      requires s < MAX_AREAS && s !in Used(list) && Marked(pool[..], Used(list) + {s})
      modifies pool
      ensures Valid()
    {
      LinkedOther(pool[..], vmlist, list, s, FREE);
      ghost var goal := pool[..][s := FREE];
      pool[s] := FREE;
      assert pool[..] == goal;
    }

    /** Fill in the structure and link it. */
    method Place(s: nat, addr: nat, pages: nat, isMap: bool, isIo: bool)
      requires pool.Length == MAX_AREAS && Inv(list) && Linked(pool[..], vmlist, list)
      requires s < MAX_AREAS && s !in Used(list) && Marked(pool[..], Used(list) + {s})
      requires Fits(list, addr, (pages + 1) * PAGE) && addr % PAGE == 0
      modifies this, pool
      ensures Valid() && list == Insert(old(list), Area(s, addr, (pages + 1) * PAGE, isMap, isIo))
    {
      var v := VmStruct(addr, (pages + 1) * PAGE, pages, isMap, isIo, None, true);
      ghost var x := Area(s, addr, (pages + 1) * PAGE, isMap, isIo);
      LinkedOther(pool[..], vmlist, list, s, v);
      ghost var goal := pool[..][s := v];
      pool[s] := v;
      assert pool[..] == goal;
      InsertInv(list, x);
      OwnSlots(list);
      InsertVmStruct(s, x);
    }

    method Vmalloc(size: nat, mapped: bool) returns (addr: nat)
      requires Valid()
      modifies this, pool
      ensures Valid() && (list, addr) == VmallocSpec.Vmalloc(old(list), size, mapped)
    {
      if size == 0 { return 0; }
      addr := Reserve(size, (size + PAGE - 1) / PAGE, false, false, mapped);
    }

    method Vmap(pages: nat, io: bool, mapped: bool) returns (addr: nat)
      requires Valid()
      modifies this, pool
      ensures Valid() && (list, addr) == VmallocSpec.Vmap(old(list), pages, io, mapped)
    {
      if pages == 0 { return 0; }
      WholePages(pages);
      addr := Reserve(pages * PAGE, pages, true, io, mapped);
    }

    method Ioremap(phys: nat, size: nat, mapped: bool) returns (addr: nat)
      requires Valid()
      modifies this, pool
      ensures Valid() && (list, addr) == VmallocSpec.Ioremap(old(list), phys, size, mapped)
    {
      if size == 0 { return 0; }
      var offset := phys % PAGE;
      var pages := (size + offset + PAGE - 1) / PAGE;
      WholePages(pages);
      var base := Reserve(pages * PAGE, pages, false, true, mapped);
      return if base == 0 then 0 else base + offset;
    }

    method Vfree(addr: nat)
      requires Valid()
      modifies this, pool
      ensures Valid() && list == if addr == 0 then old(list) else VmallocSpec.Vfree(old(list), addr)
    {
      if addr == 0 { return; }
      var vm := FindVmArea(addr);
      if vm.None? { return; }
      RemoveVmStruct(vm.value, Locate(list, addr, 0).value);
    }

    method Vunmap(addr: nat)
      requires Valid()
      modifies this, pool
      ensures Valid() && list == if addr == 0 then old(list) else VmallocSpec.Vunmap(old(list), addr)
    {
      if addr == 0 { return; }
      var vm := FindVmArea(addr);
      if vm.None? || !pool[vm.value].isMap { return; }
      RemoveVmStruct(vm.value, Locate(list, addr, 0).value);
    }

    method Iounmap(addr: nat)
      requires Valid()
      modifies this, pool
      ensures Valid() && list == if addr == 0 then old(list) else VmallocSpec.Iounmap(old(list), addr)
    {
      if addr == 0 { return; }
      var base := addr / PAGE * PAGE;
      var vm := FindVmArea(base);
      if vm.None? || !pool[vm.value].isIo { return; }
      RemoveVmStruct(vm.value, Locate(list, base, 0).value);
    }
  }
}
