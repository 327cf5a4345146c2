/** The slab allocator as the kernel keeps it: slab headers at the start of their pages and free lists threaded
    through the free objects themselves. */
module SlabAllocator {
  import opened Lists
  import opened SlabSpec

  /** struct slab, without its list links. */
  datatype Head = Head(cache: nat, freeList: nat, inuse: nat, total: nat)

  /** The eight-byte words that are known, by address. */
  type Memory = map<nat, nat>

  predicate WordsApart(x: nat, y: nat) { x + 8 <= y || y + 8 <= x }

  /** Writing a word changes its eight bytes: every other word that shares one of them is lost. */
  function Write(mem: Memory, addr: nat, value: nat): Memory {
    (map x | x in mem && WordsApart(x, addr) :: mem[x])[addr := value]
  }

  function After(l: seq<nat>, i: nat): nat
    requires i < |l|
  {
    if i + 1 < |l| then l[i + 1] else 0
  }

  /** The free list that starts at head is l: each free object holds the address of the next one. */
  ghost predicate Chain(mem: Memory, head: nat, l: seq<nat>) {
    && head == (if l == [] then 0 else l[0])
    && forall i {:trigger l[i]} | 0 <= i < |l| :: l[i] in mem && mem[l[i]] == After(l, i)
  }

  ghost predicate Chains(mem: Memory, heads: map<nat, Head>, free: map<nat, seq<nat>>) {
    && free.Keys == heads.Keys
    && forall p {:trigger Chain(mem, heads[p].freeList, free[p])} | p in heads :: Chain(mem, heads[p].freeList, free[p])
  }

  ghost function Lift(heads: map<nat, Head>, free: map<nat, seq<nat>>): Slabs
    requires free.Keys == heads.Keys
  {
    map p | p in heads :: Slab(heads[p].cache, free[p], heads[p].inuse, heads[p].total)
  }

  /** The first n objects of l hold their links. */
  ghost predicate Threaded(mem: Memory, l: seq<nat>, n: nat)
    requires n <= |l|
  {
    forall j {:trigger l[j]} | 0 <= j < n :: l[j] in mem && mem[l[j]] == After(l, j)
  }

  ghost predicate Spaced(l: seq<nat>) { forall i, j | 0 <= i < j < |l| :: l[i] + 8 <= l[j] }

  ghost predicate OffList(x: nat, l: seq<nat>) { forall i | 0 <= i < |l| :: WordsApart(x, l[i]) }

  /** Words apart from the objects of l are as they were. */
  ghost predicate Untouched(mem: Memory, mem': Memory, l: seq<nat>) {
    forall x {:trigger OffList(x, l)} | x in mem && OffList(x, l) :: x in mem' && mem'[x] == mem[x]
  }

  /** The objects of a slab lie at equal distances inside the page. */
  lemma SlotsSpaced(page: nat, size: nat, per: nat)
    requires page % PAGE == 0 && Geometry(size, per)
    ensures var l := Slots(page, size, per);
            && Spaced(l)
            && forall i {:trigger l[i]} | 0 <= i < per ::
                 l[i] == page + HEADER + i * size && page <= l[i] && l[i] + 8 <= page + PAGE
  {
    var l := Slots(page, size, per);
    forall i {:trigger l[i]} | 0 <= i < per
      ensures l[i] == page + HEADER + i * size && page <= l[i] && l[i] + 8 <= page + PAGE
    {
      SlotsAt(page, size, per, i);
      SlotInside(page, size, per, i);
    }
    forall i, j | 0 <= i < j < per ensures l[i] + 8 <= l[j] {
      SlotsAt(page, size, per, i);
      SlotsAt(page, size, per, j);
      SlotsApart(page, size, i, j);
    }
  }

  lemma ThreadWrite(mem0: Memory, mem: Memory, l: seq<nat>, n: nat)
    requires Spaced(l) && n < |l| && Threaded(mem, l, n) && Untouched(mem0, mem, l)
    ensures Threaded(Write(mem, l[n], After(l, n)), l, n + 1) && Untouched(mem0, Write(mem, l[n], After(l, n)), l)
  {
    forall x | x in mem0 && OffList(x, l) ensures WordsApart(x, l[n]) {}
  }

  lemma ChainPop(mem: Memory, head: nat, l: seq<nat>)
    requires Chain(mem, head, l) && l != []
    ensures head in mem && Chain(mem, mem[head], l[1..])
  {}

  lemma ChainPush(mem: Memory, head: nat, l: seq<nat>, o: nat)
    requires Chain(mem, head, l) && forall x | x in l :: WordsApart(x, o)
    ensures Chain(Write(mem, o, head), o, [o] + l)
  {
    var m := Write(mem, o, head);
    forall i | 0 < i < |l| + 1 ensures l[i - 1] in m && m[l[i - 1]] == After([o] + l, i) {
      assert l[i - 1] in l;
    }
  }

  lemma ChainsPut(mem: Memory, heads: map<nat, Head>, free: map<nat, seq<nat>>, p: nat, head: Head, l: seq<nat>)
    requires Chains(mem, heads, free) && Chain(mem, head.freeList, l)
    ensures Chains(mem, heads[p := head], free[p := l])
    ensures Lift(heads[p := head], free[p := l]) == Lift(heads, free)[p := Slab(head.cache, l, head.inuse, head.total)]
  {}

  /** Memory that no free object uses may change. */
  lemma ChainsApart(mem: Memory, mem': Memory, heads: map<nat, Head>, free: map<nat, seq<nat>>)
    requires Chains(mem, heads, free)
    requires forall p, o | p in free && o in free[p] && o in mem :: o in mem' && mem'[o] == mem[o]
    ensures Chains(mem', heads, free)
  {
    forall p | p in heads ensures Chain(mem', heads[p].freeList, free[p]) {
      assert Chain(mem, heads[p].freeList, free[p]);
    }
  }

  /** A write that shares no byte with the link of a free object. */
  lemma WriteApart(mem: Memory, heads: map<nat, Head>, free: map<nat, seq<nat>>, addr: nat, value: nat)
    requires Chains(mem, heads, free) && forall q, f | q in free && f in free[q] :: WordsApart(f, addr)
    ensures Chains(Write(mem, addr, value), heads, free)
  {
    forall q, f | q in free && f in free[q] && f in mem
      ensures f in Write(mem, addr, value) && Write(mem, addr, value)[f] == mem[f]
    {
      assert WordsApart(f, addr);
    }
    ChainsApart(mem, Write(mem, addr, value), heads, free);
  }

  /** Free objects of other slabs are not on a fresh page. */
  lemma OtherPage(h: Heap, p: nat, o: nat, page: nat)
    requires Inv(h) && p in h.slabs && o in h.slabs[p].free && page % PAGE == 0 && page != p
    ensures o + 8 <= page || page + PAGE <= o
  {
    var d := h.slabs[p].cache;
    assert CacheOk(h.slabs, h.caches[d], d, 0) && Filed(h.slabs, h.caches[d], p, 0);
    var i := SlotIndex(p, h.caches[d].size, h.caches[d].per, o);
    SlotInside(p, h.caches[d].size, h.caches[d].per, i);
    if o < page { PagesApart(o, page); } else { PagesApart(page, o); }
  }

  /** The objects of a slab on a fresh page are apart from all free objects. */
  lemma FreshFree(heads: map<nat, Head>, free: map<nat, seq<nat>>, caches: seq<Cache>, page: nat)
    requires free.Keys == heads.Keys && Inv(Heap(Lift(heads, free), caches))
    requires CanUse(Heap(Lift(heads, free), caches), page) && page > 0
    ensures forall p, o | p in free && o in free[p] :: o + 8 <= page || page + PAGE <= o
  {
    var h := Heap(Lift(heads, free), caches);
    forall p, o | p in free && o in free[p] ensures o + 8 <= page || page + PAGE <= o {
      assert h.slabs[p].free == free[p];
      OtherPage(h, p, o, page);
    }
  }

  lemma ChainsDrop(mem: Memory, heads: map<nat, Head>, free: map<nat, seq<nat>>, p: nat)
    requires Chains(mem, heads, free)
    ensures Chains(mem, heads - {p}, free - {p}) && Lift(heads - {p}, free - {p}) == Lift(heads, free) - {p}
  {}

  /** A word inside a live object shares no byte with the link word of any free object. */
  lemma InsideNotFree(heads: map<nat, Head>, free: map<nat, seq<nat>>, caches: seq<Cache>, obj: nat, addr: nat)
    requires free.Keys == heads.Keys
    requires var h := Heap(Lift(heads, free), caches);
             Inv(h) && Live(h, obj) && obj <= addr && addr + 8 <= obj + caches[h.slabs[Mask(obj)].cache].size
    ensures forall q, f | q in free && f in free[q] :: WordsApart(f, addr)
  {
    var h := Heap(Lift(heads, free), caches);
    forall q, f | q in free && f in free[q] ensures WordsApart(f, addr) {
      assert h.slabs[q].free == free[q];
      FreeApart(h, obj, q, f);
    }
  }

  lemma FreeApart(h: Heap, o: nat, q: nat, f: nat)
    requires Inv(h) && Live(h, o) && q in h.slabs && f in h.slabs[q].free
    ensures f + 8 <= o || f >= o + h.caches[h.slabs[Mask(o)].cache].size
  {
    var d := h.slabs[q].cache;
    assert CacheOk(h.slabs, h.caches[d], d, 0) && Filed(h.slabs, h.caches[d], q, 0);
    var size, per := h.caches[d].size, h.caches[d].per;
    var j := SlotIndex(q, size, per, f);
    SlotInside(q, size, per, j);
    LivePlace(h, o);
    if q != Mask(o) {
      if f >= o { PagesApart(o, f); } else { PagesApart(f, o); }
    } else {
      var i := SlotIndex(q, size, per, o);
      if f >= o { SlotOrder(q, size, i, j); } else { SlotOrder(q, size, j, i); }
    }
  }

  const SIZES: seq<nat> := [32, 64, 128, 256, 512, 1024, 2048, 4096]

  /** kmalloc_index: the smallest size that fits. */
  function KmallocIndex(size: nat): (k: int)
    ensures -1 <= k < 8 && (k == -1 <==> size > 4096)
    ensures k >= 0 ==> size <= SIZES[k] && (k > 0 ==> SIZES[k - 1] < size)
  {
    if size <= 32 then 0 else if size <= 64 then 1 else if size <= 128 then 2 else if size <= 256 then 3
    else if size <= 512 then 4 else if size <= 1024 then 5 else if size <= 2048 then 6 else if size <= 4096 then 7
    else -1
  }

  /** kmalloc_caches: one cache for each size but the last. */
  predicate Sized(caches: seq<Cache>, sized: seq<Option<nat>>) {
    && |sized| == 8 && sized[7] == None && |caches| >= 7 && caches[6].per == 1
    && forall j | 0 <= j < 7 :: sized[j] == Some(j) && caches[j].size == SIZES[j]
  }

  lemma AllocKeepsSizes(h: Heap, c: nat, page: nat)
    requires Inv(h) && c < |h.caches| && CanUse(h, page)
    ensures var h' := Alloc(h, c, page).0;
            && |h'.caches| == |h.caches|
            && forall d | 0 <= d < |h.caches| ::
                 h'.caches[d].size == h.caches[d].size && h'.caches[d].per == h.caches[d].per
  {}

  /** The cache for 2048 bytes holds one object to a slab, so that kmalloc and kfree of that size leave something
      for kmalloc_verify to report. */
  lemma LargestReported(h: Heap, sized: seq<Option<nat>>, page: nat)
    requires Inv(h) && Sized(h.caches, sized) && CanUse(h, page) && page > 0
    ensures KmallocIndex(2048) == 6 && sized[6] == Some(6)
    ensures var (h', o) := Alloc(h, 6, page);
            Inv(h') && Live(h', o) && Inv(Free(h', 6, o)) && Errors(Free(h', 6, o), 6) > 0
  {
    SingleObjectReported(h, 6, page);
  }

  class Allocator {
    var heads: map<nat, Head>
    var mem: Memory
    var caches: seq<Cache>
    ghost var free: map<nat, seq<nat>>

    ghost predicate Valid()
      reads this
    {
      Chains(mem, heads, free)
    }

    ghost function View(): Heap
      requires Valid()
      reads this
    {
      Heap(Lift(heads, free), caches)
    }

    constructor ()
      ensures Valid() && View() == Heap(map[], [])
    {
      heads, mem, caches, free := map[], map[], [], map[];
    }

    /** kmem_cache_create */
    method KmemCacheCreate(size: nat) returns (c: Option<nat>)
      requires Valid()
      modifies this`caches
      ensures Valid() && (View(), c) == Create(old(View()), size)
    {
      if |caches| >= MAX_CACHES { return None; }
      var o := if size < MIN_OBJ then MIN_OBJ else size;
      o := (o + 7) / 8 * 8;
      var per := (PAGE - HEADER) / o;
      if per == 0 { return None; }
      caches := caches + [Cache(o, per, [], [], [], 0, 0, 0)];
      return Some(|caches| - 1);
    }

    /** slab_init_objs: threads the free list through the objects in address order. */
    method SlabInitObjs(page: nat, size: nat, per: nat) returns (first: nat)
      requires page % PAGE == 0 && Geometry(size, per)
      modifies this`mem
      ensures Chain(mem, first, Slots(page, size, per))
      ensures forall x | x in old(mem) && (x + 8 <= page || page + PAGE <= x) :: x in mem && mem[x] == old(mem)[x]
    {
      ghost var l := Slots(page, size, per);
      SlotsSpaced(page, size, per);
      first := Thread(page + HEADER, size, per, l);
      forall x | x in old(mem) && (x + 8 <= page || page + PAGE <= x) ensures x in mem && mem[x] == old(mem)[x] {
        assert OffList(x, l);
      }
    }

    method Thread(base: nat, size: nat, per: nat, ghost l: seq<nat>) returns (first: nat)
      requires |l| == per > 0 && Spaced(l) && forall i {:trigger l[i]} | 0 <= i < per :: l[i] == base + i * size
      modifies this`mem
      ensures Chain(mem, first, l) && Untouched(old(mem), mem, l)
    {
      first := base;
      var prev := base;
      var i := 1;
      assert l[0] == base + 0 * size;
      while i < per
        invariant 1 <= i <= per && first == l[0] && prev == l[i - 1]
        invariant Threaded(mem, l, i - 1) && Untouched(old(mem), mem, l)
      {
        var obj := base + i * size;
        assert obj == l[i];
        ThreadWrite(old(mem), mem, l, i - 1);
        mem := Write(mem, prev, obj);
        prev := obj;
        i := i + 1;
      }
      ThreadWrite(old(mem), mem, l, i - 1);
      mem := Write(mem, prev, 0);
    }

    /** slab_alloc: a new slab on a fresh page. */
    method SlabAlloc(c: nat, page: nat)
      requires Valid() && Inv(View()) && c < |caches| && CanUse(View(), page) && page > 0
      modifies this
      ensures Valid() && caches == old(caches)[c := old(caches)[c].(slabCount := old(caches)[c].slabCount + 1)]
      ensures View().slabs
                == old(View()).slabs[page := Slab(c, Slots(page, caches[c].size, caches[c].per), 0, caches[c].per)]
    {
      ghost var l := Slots(page, caches[c].size, caches[c].per);
      ghost var mem0 := mem;
      assert CacheOk(View().slabs, caches[c], c, 0);
      FreshFree(heads, free, caches, page);
      var first := SlabInitObjs(page, caches[c].size, caches[c].per);
      ChainsApart(mem0, mem, heads, free);
      ChainsPut(mem, heads, free, page, Head(c, first, 0, caches[c].per), l);
      heads := heads[page := Head(c, first, 0, caches[c].per)];
      free := free[page := l];
      caches := caches[c := caches[c].(slabCount := caches[c].slabCount + 1)];
    }

    /** kmem_cache_alloc; page is what alloc_page returns if it is called. */
    method KmemCacheAlloc(c: nat, page: nat) returns (obj: nat)
      requires Valid() && Inv(View()) && c < |caches| && CanUse(View(), page)
      modifies this
      ensures Valid() && (View(), obj) == Alloc(old(View()), c, page)
    {
      ghost var h := View();
      RefillOk(h.slabs, caches[c], c, page);
      if caches[c].partial == [] {
        if caches[c].empty != [] {
          caches := caches[c := caches[c].(partial := [caches[c].empty[0]], empty := caches[c].empty[1..])];
        } else if page == 0 {
          return 0;
        } else {
          SlabAlloc(c, page);
          caches := caches[c := caches[c].(partial := [page])];
        }
      }
      ghost var r := Refill(h.slabs, h.caches[c], c, page);
      assert View().slabs == r.0 && caches == h.caches[c := r.1];
      obj := TakeFirst(c);
      assert caches == h.caches[c := Take(r.0, r.1).1];
    }

    /** The tail of kmem_cache_alloc. */
    method TakeFirst(c: nat) returns (obj: nat)
      requires Valid() && c < |caches| && caches[c].partial != [] && caches[c].partial[0] in heads
      requires free[caches[c].partial[0]] != []
      modifies this`heads, this`caches, this`free
      ensures Valid() && obj == old(free[caches[c].partial[0]])[0]
      ensures View() == var h := old(View()); var t := Take(h.slabs, h.caches[c]); Heap(t.0, h.caches[c := t.1])
    {
      var p := caches[c].partial[0];
      assert Chain(mem, heads[p].freeList, free[p]);
      ChainPop(mem, heads[p].freeList, free[p]);
      obj := heads[p].freeList;
      var head := heads[p].(freeList := mem[obj], inuse := heads[p].inuse + 1);
      ChainsPut(mem, heads, free, p, head, free[p][1..]);
      heads := heads[p := head];
      free := free[p := free[p][1..]];
      if heads[p].inuse == heads[p].total {
        caches := caches[c := caches[c].(partial := caches[c].partial[1..], full := [p] + caches[c].full)];
      }
      caches := caches[c := caches[c].(allocs := caches[c].allocs + 1)];
    }

    /** kmem_cache_free */
    method KmemCacheFree(c: nat, obj: nat)
      requires Valid() && Inv(View()) && c < |caches| && (obj == 0 || Live(View(), obj))
      modifies this
      ensures Valid() && View() == if obj == 0 then old(View()) else Free(old(View()), c, obj)
    {
      if obj == 0 { return; }
      ghost var h := View();
      var p := Mask(obj);
      if heads[p].cache != c { return; }
      FreeReady(h, obj);
      var wasFull := heads[p].inuse == heads[p].total;
      GiveBack(p, obj);
      assert p in View().slabs;
      Reshelve(c, p, wasFull);
      caches := caches[c := caches[c].(frees := caches[c].frees + 1)];
    }

    /** The object goes to the front of its slab's free list. */
    method GiveBack(p: nat, obj: nat)
      requires Valid() && Inv(View()) && Live(View(), obj) && p == Mask(obj) && heads[p].inuse > 0
      modifies this`heads, this`mem, this`free
      ensures Valid() && caches == old(caches)
      ensures View().slabs == var s := old(View()).slabs[p];
                              old(View()).slabs[p := s.(free := [obj] + s.free, inuse := s.inuse - 1)]
    {
      LivePlace(View(), obj);
      InsideNotFree(heads, free, caches, obj, obj);
      assert Chain(mem, heads[p].freeList, free[p]);
      ChainPush(mem, heads[p].freeList, free[p], obj);
      WriteApart(mem, heads, free, obj, heads[p].freeList);
      mem := Write(mem, obj, heads[p].freeList);
      var head := heads[p].(freeList := obj, inuse := heads[p].inuse - 1);
      ChainsPut(mem, heads, free, p, head, [obj] + free[p]);
      heads := heads[p := head];
      free := free[p := [obj] + free[p]];
    }

    /** The slab moves between lists as its use count requires. */
    method Reshelve(c: nat, p: nat, wasFull: bool)
      requires Valid() && c < |caches| && p in heads && caches[c].slabCount > 0
      requires if wasFull then p in caches[c].full else p in caches[c].partial
      modifies this`heads, this`caches, this`free
      ensures Valid()
      ensures var h := old(View());
              var t := Refile(h.slabs, h.caches[c], p, wasFull);
              View() == Heap(t.0, h.caches[c := t.1])
    {
      var cache := caches[c];
      if wasFull {
        caches := caches[c := cache.(full := Without(cache.full, p), partial := [p] + cache.partial)];
      } else if heads[p].inuse == 0 {
        cache := cache.(partial := Without(cache.partial, p));
        if cache.empty == [] {
          caches := caches[c := cache.(empty := [p])];
        } else {
          ChainsDrop(mem, heads, free, p);
          heads := heads - {p};
          free := free - {p};
          caches := caches[c := cache.(slabCount := cache.slabCount - 1)];
        }
      }
    }

    /** A client writes a word inside an object it holds, aligned or not: no free list changes. */
    method Store(obj: nat, addr: nat, value: nat)
      requires Valid() && Inv(View()) && Live(View(), obj)
      requires obj <= addr && addr + 8 <= obj + caches[View().slabs[Mask(obj)].cache].size
      modifies this`mem
      ensures Valid() && View() == old(View()) && mem == Write(old(mem), addr, value)
      ensures forall q, f | q in free && f in free[q] :: WordsApart(f, addr)
    {
      InsideNotFree(heads, free, caches, obj, addr);
      WriteApart(mem, heads, free, addr, value);
      mem := Write(mem, addr, value);
    }

    /** kfree: the header at the start of the pointer's page names the cache; a page that is no slab goes back
        to the page allocator, as the page that is returned. */
    method Kfree(ptr: nat) returns (page: Option<nat>)
      requires Valid() && Inv(View()) && (ptr == 0 || Mask(ptr) !in heads || Live(View(), ptr))
      modifies this
      ensures Valid() && Inv(View())
      ensures page == if ptr == 0 || Mask(ptr) in old(heads) then None else Some(Mask(ptr))
      ensures View() == if ptr == 0 || page.Some? then old(View())
                        else Free(old(View()), old(heads[Mask(ptr)].cache), ptr)
    {
      if ptr == 0 { return None; }
      if Mask(ptr) !in heads { return Some(Mask(ptr)); }
      FreeInv(View(), heads[Mask(ptr)].cache, ptr);
      KmemCacheFree(heads[Mask(ptr)].cache, ptr);
      return None;
    }

    /** The checks kmalloc_verify makes on one cache. */
    method VerifyCache(c: nat) returns (errors: nat)
      requires Valid() && Inv(View()) && c < |caches|
      ensures errors == Errors(View(), c)
    {
      var cache := caches[c];
      assert CacheOk(View().slabs, cache, c, 0);
      var a := CheckPartial(cache.partial, c);
      var b := CheckFull(cache.full);
      var d := CheckEmpty(cache.empty);
      return a + b + d;
    }

    method CheckPartial(l: seq<nat>, c: nat) returns (errors: nat)
      requires Valid() && forall p | p in l :: p in heads
      ensures errors == PartialErrors(View().slabs, l, c)
    {
      errors := 0;
      ghost var slabs := View().slabs;
      var i := 0;
      while i < |l|
        invariant 0 <= i <= |l| && errors + PartialErrors(slabs, l[i..], c) == PartialErrors(slabs, l, c)
      {
        var s := heads[l[i]];
        if s.cache != c { errors := errors + 1; }
        if s.inuse >= s.total { errors := errors + 1; }
        if s.inuse == 0 { errors := errors + 1; }
        i := i + 1;
      }
    }

    method CheckFull(l: seq<nat>) returns (errors: nat)
      requires Valid() && forall p | p in l :: p in heads
      ensures errors == FullErrors(View().slabs, l)
    {
      errors := 0;
      ghost var slabs := View().slabs;
      var i := 0;
      while i < |l|
        invariant 0 <= i <= |l| && errors + FullErrors(slabs, l[i..]) == FullErrors(slabs, l)
      {
        if heads[l[i]].inuse != heads[l[i]].total { errors := errors + 1; }
        i := i + 1;
      }
    }

    method CheckEmpty(l: seq<nat>) returns (errors: nat)
      requires Valid() && forall p | p in l :: p in heads
      ensures errors == EmptyErrors(View().slabs, l)
    {
      errors := 0;
      ghost var slabs := View().slabs;
      var i := 0;
      while i < |l|
        invariant 0 <= i <= |l| && errors + EmptyErrors(slabs, l[i..]) == EmptyErrors(slabs, l)
      {
        if heads[l[i]].inuse != 0 { errors := errors + 1; }
        i := i + 1;
      }
    }

    /** kmalloc_verify reports no error exactly when no cache with one object to a slab has a slab on its
        partial list. */
    method KmallocVerify(sized: seq<Option<nat>>) returns (errors: nat)
      requires Valid() && Inv(View()) && forall c | Some(c) in sized :: c < |caches|
      ensures errors == 0 <==> forall c | Some(c) in sized :: caches[c].per >= 2 || caches[c].partial == []
    {
      errors := 0;
      var i := 0;
      while i < |sized|
        invariant 0 <= i <= |sized|
        invariant errors == 0 <==> forall c | Some(c) in sized[..i] :: caches[c].per >= 2 || caches[c].partial == []
      {
        assert sized[..i + 1] == sized[..i] + [sized[i]];
        if sized[i].Some? {
          VerifyExact(View(), sized[i].value);
          var n := VerifyCache(sized[i].value);
          assert Some(sized[i].value) in sized[..i + 1];
          errors := errors + n;
        }
        i := i + 1;
      }
      assert sized[..i] == sized;
    }

    /** kmem_init: the caches for 32 to 2048 bytes come into being, the one for 4096 bytes does not. */
    method KmemInit() returns (sized: seq<Option<nat>>)
      requires Valid() && View() == Heap(map[], [])
      modifies this`caches
      ensures Valid() && Inv(View()) && Sized(caches, sized)
    {
      sized := [];
      var i := 0;
      while i < 8
        invariant 0 <= i <= 8 && Valid() && Inv(View()) && |sized| == i && |caches| == (if i < 8 then i else 7)
        invariant forall j | 0 <= j < i && j < 7 :: sized[j] == Some(j) && caches[j].size == SIZES[j]
        invariant (i > 6 ==> caches[6].per == 1) && (i == 8 ==> sized[7] == None)
      {
        CreateInv(View(), SIZES[i]);
        var c := KmemCacheCreate(SIZES[i]);
        sized := sized + [c];
        i := i + 1;
      }
    }

    /** kmalloc: the object is at least as large as asked for; requests of 0 bytes and of more than 2048 bytes
        get nothing. */
    method Kmalloc(sized: seq<Option<nat>>, size: nat, page: nat) returns (obj: nat)
      requires Valid() && Inv(View()) && Sized(caches, sized) && CanUse(View(), page)
      modifies this
      ensures Valid() && Inv(View())
      ensures size == 0 || size > 2048 ==> obj == 0 && View() == old(View())
      ensures 0 < size <= 2048 ==> (View(), obj) == Alloc(old(View()), KmallocIndex(size), page)
      ensures obj != 0 ==> Live(View(), obj) && caches[View().slabs[Mask(obj)].cache].size >= size
    {
      if size == 0 { return 0; }
      var index := KmallocIndex(size);
      if index < 0 { return 0; }
      var cache := sized[index];
      if cache.None? { return 0; }
      AllocInv(View(), index, page);
      AllocTheorem(View(), index, page);
      AllocKeepsSizes(View(), index, page);
      obj := KmemCacheAlloc(cache.value, page);
    }
  }
}
