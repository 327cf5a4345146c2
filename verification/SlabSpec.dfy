/** The slab allocator on abstract slabs: caches cut pages into equal objects, each slab keeps the list of its
    free objects, and each cache files its slabs as partial, full or empty. */
module SlabSpec {
  import opened Division
  import opened Lists

  const PAGE: nat := 4096
  const HEADER: nat := 40   // sizeof(struct slab): four pointers and two unsigned ints
  const MIN_OBJ: nat := 8
  const MAX_CACHES: nat := 16

  datatype Slab = Slab(cache: nat, free: seq<nat>, inuse: nat, total: nat)

  datatype Cache = Cache(size: nat, per: nat, partial: seq<nat>, full: seq<nat>, empty: seq<nat>,
                         slabCount: nat, allocs: nat, frees: nat)

  type Slabs = map<nat, Slab>

  /** Slabs by page address, and the caches in order of creation. */
  datatype Heap = Heap(slabs: Slabs, caches: seq<Cache>)

  // ----- geometry

  function RoundUp8(x: nat): nat { (x + 7) / 8 * 8 }

  function ObjSize(size: nat): nat { RoundUp8(if size < MIN_OBJ then MIN_OBJ else size) }

  /** Objects that fit in a page behind the header. */
  function PerSlab(objSize: nat): nat
    requires objSize > 0
  {
    (PAGE - HEADER) / objSize
  }

  predicate Geometry(size: nat, per: nat) {
    size >= MIN_OBJ && size % 8 == 0 && per >= 1 && HEADER + per * size <= PAGE
  }

  /** The geometry kmem_cache_create chooses: objects of at least the size asked for, on 8-byte boundaries,
      as many as fit; there is one exactly when an object fits at all. */
  lemma CreateGeometry(size: nat)
    ensures var o := ObjSize(size);
            && o >= size && o >= MIN_OBJ && o % 8 == 0 && o < size + 16
            && (PerSlab(o) >= 1 <==> size <= PAGE - HEADER)
            && (PerSlab(o) >= 1 ==> Geometry(o, PerSlab(o)))
            && HEADER + PerSlab(o) * o + o > PAGE
  {}

  /** Address of object i of the slab on a page. */
  function Slot(page: nat, size: nat, i: nat): nat { page + HEADER + i * size }

  /** The first n objects. */
  function Slots(page: nat, size: nat, n: nat): (s: seq<nat>)
    ensures |s| == n
  {
    if n == 0 then [] else Slots(page, size, n - 1) + [Slot(page, size, n - 1)]
  }

  /** obj & PAGE_MASK */
  function Mask(obj: nat): nat { obj / PAGE * PAGE }

  lemma {:induction false} SlotsAt(page: nat, size: nat, n: nat, i: nat)
    requires i < n
    ensures Slots(page, size, n)[i] == Slot(page, size, i)
  {
    if i < n - 1 { SlotsAt(page, size, n - 1, i); }
  }

  /** An object lies behind the header and inside the page, on an 8-byte boundary, and masking its address
      gives the page. */
  lemma SlotInside(page: nat, size: nat, per: nat, i: nat)
    requires page % PAGE == 0 && Geometry(size, per) && i < per
    ensures var o := Slot(page, size, i);
            page + HEADER <= o && o + size <= page + PAGE && o % 8 == 0 && Mask(o) == page
  {
    Scale(i, per, size);
    Eighths(i, size);
    PlaceInside(page, i * size, size);
  }

  lemma Eighths(i: nat, size: nat)
    requires size % 8 == 0
    ensures i * size % 8 == 0
  {
    var k := size / 8;
    assert size == 8 * k;
    assert i * size == 8 * (i * k);
  }

  lemma PlaceInside(page: nat, x: nat, size: nat)
    requires page % PAGE == 0 && x % 8 == 0 && HEADER + x + size <= PAGE && size > 0
    ensures var o := page + HEADER + x;
            o + size <= page + PAGE && o % 8 == 0 && Mask(o) == page
  {}

  /** Objects of one slab are apart. */
  lemma SlotsApart(page: nat, size: nat, i: nat, j: nat)
    requires i < j
    ensures Slot(page, size, i) + size <= Slot(page, size, j)
  {
    Scale(i, j, size);
  }

  lemma SlotOrder(page: nat, size: nat, i: nat, j: nat)
    requires Slot(page, size, i) < Slot(page, size, j)
    ensures Slot(page, size, i) + size <= Slot(page, size, j)
  {
    if i < j { SlotsApart(page, size, i, j); }
    if j < i { SlotsApart(page, size, j, i); }
  }

  lemma PagesApart(o: nat, o': nat)
    requires o < o' && Mask(o) != Mask(o')
    ensures Mask(o) + PAGE <= o'
  {}

  lemma SlotIndex(page: nat, size: nat, n: nat, o: nat) returns (i: nat)
    requires o in Slots(page, size, n)
    ensures i < n && o == Slot(page, size, i)
  {
    i :| 0 <= i < n && Slots(page, size, n)[i] == o;
    SlotsAt(page, size, n, i);
  }

  lemma SlotsNoDup(page: nat, size: nat, n: nat)
    requires size > 0
    ensures NoDup(Slots(page, size, n))
  {
    forall i, j | 0 <= i < j < n ensures Slots(page, size, n)[i] != Slots(page, size, n)[j] {
      SlotsAt(page, size, n, i);
      SlotsAt(page, size, n, j);
      SlotsApart(page, size, i, j);
    }
  }

  // ----- invariant

  ghost predicate SlabOk(page: nat, slab: Slab, size: nat, per: nat) {
    && page > 0 && page % PAGE == 0 && slab.total == per && |slab.free| + slab.inuse == per
    && NoDup(slab.free) && forall o | o in slab.free :: o in Slots(page, size, per)
  }

  ghost predicate Mine(slabs: Slabs, l: seq<nat>, c: nat) {
    NoDup(l) && forall p | p in l :: p in slabs && slabs[p].cache == c
  }

  /** Slab p of the cache is on one list, the one its use count says.  A partial slab is in use unless it is
      the hot one, or its cache puts a single object on a slab. */
  ghost predicate Filed(slabs: Slabs, cache: Cache, p: nat, hot: nat)
    requires p in slabs
  {
    && SlabOk(p, slabs[p], cache.size, cache.per)
    && (p in cache.partial || p in cache.full || p in cache.empty)
    && (p in cache.partial ==> slabs[p].inuse < cache.per && p !in cache.empty)
    && (p in cache.partial && p != hot && cache.per >= 2 ==> slabs[p].inuse > 0)
    && (p in cache.full ==> slabs[p].inuse == cache.per)
    && (p in cache.empty ==> slabs[p].inuse == 0)
  }

  function InUse(slabs: Slabs, l: seq<nat>): nat
    requires forall p | p in l :: p in slabs
  {
    if l == [] then 0 else slabs[l[0]].inuse + InUse(slabs, l[1..])
  }

  ghost predicate CacheOk(slabs: Slabs, cache: Cache, c: nat, hot: nat) {
    && cache.size > 0 && cache.per > 0 && |cache.empty| <= 1
    && Mine(slabs, cache.partial, c) && Mine(slabs, cache.full, c) && Mine(slabs, cache.empty, c)
    && (forall p {:trigger Filed(slabs, cache, p, hot)} | p in slabs && slabs[p].cache == c ::
          Filed(slabs, cache, p, hot))
    && cache.slabCount == |cache.partial| + |cache.full| + |cache.empty|
    && cache.allocs == cache.frees + InUse(slabs, cache.partial) + InUse(slabs, cache.full)
  }

  ghost predicate Owners(slabs: Slabs, n: nat) { forall p | p in slabs :: slabs[p].cache < n }

  ghost predicate Inv(h: Heap) {
    && Owners(h.slabs, |h.caches|)
    && (forall c | 0 <= c < |h.caches| :: Geometry(h.caches[c].size, h.caches[c].per))
    && forall c {:trigger CacheOk(h.slabs, h.caches[c], c, 0)} | 0 <= c < |h.caches| ::
         CacheOk(h.slabs, h.caches[c], c, 0)
  }

  // ----- operations

  /** kmem_cache_create */
  function Create(h: Heap, size: nat): (Heap, Option<nat>) {
    var o := ObjSize(size);
    if |h.caches| >= MAX_CACHES || PerSlab(o) == 0 then (h, None)
    else (h.(caches := h.caches + [Cache(o, PerSlab(o), [], [], [], 0, 0, 0)]), Some(|h.caches|))
  }

  /** A partial slab to allocate from: the first one, else the empty slab, else a new slab on the given page
      (0 when alloc_page fails). */
  function Refill(slabs: Slabs, cache: Cache, c: nat, page: nat): (Slabs, Cache) {
    if cache.partial != [] then (slabs, cache)
    else if cache.empty != [] then
      (slabs, cache.(partial := [cache.empty[0]], empty := cache.empty[1..]))
    else if page == 0 then (slabs, cache)
    else (slabs[page := Slab(c, Slots(page, cache.size, cache.per), 0, cache.per)],
          cache.(partial := [page], slabCount := cache.slabCount + 1))
  }

  /** Take the first free object of the first partial slab. */
  function Take(slabs: Slabs, cache: Cache): (Slabs, Cache)
    requires cache.partial != [] && cache.partial[0] in slabs && slabs[cache.partial[0]].free != []
  {
    var p := cache.partial[0];
    var s := slabs[p].(free := slabs[p].free[1..], inuse := slabs[p].inuse + 1);
    (slabs[p := s],
     (if s.inuse == s.total then cache.(partial := cache.partial[1..], full := [p] + cache.full)
      else cache).(allocs := cache.allocs + 1))
  }

  /** kmem_cache_alloc; the object is 0 when there is no memory. */
  function Alloc(h: Heap, c: nat, page: nat): (Heap, nat)
    requires Inv(h) && c < |h.caches| && CanUse(h, page)
  {
    var (slabs, cache) := Refill(h.slabs, h.caches[c], c, page);
    RefillOk(h.slabs, h.caches[c], c, page);
    if cache.partial == [] then (h, 0)
    else
      var (slabs', cache') := Take(slabs, cache);
      (Heap(slabs', h.caches[c := cache']), slabs[cache.partial[0]].free[0])
  }

  /** What alloc_page may return: 0, or the address of a page that is not in use. */
  predicate CanUse(h: Heap, page: nat) { page % PAGE == 0 && page !in h.slabs }

  /** Where the slab goes after one of its objects has been given back. */
  function Refile(slabs: Slabs, cache: Cache, p: nat, wasFull: bool): (Slabs, Cache)
    requires p in slabs && (if wasFull then p in cache.full else p in cache.partial) && cache.slabCount > 0
  {
    if wasFull then (slabs, cache.(full := Without(cache.full, p), partial := [p] + cache.partial))
    else if slabs[p].inuse > 0 then (slabs, cache)
    else if cache.empty == [] then (slabs, cache.(partial := Without(cache.partial, p), empty := [p]))
    else (slabs - {p}, cache.(partial := Without(cache.partial, p), slabCount := cache.slabCount - 1))
  }

  /** The object has been handed out and not given back. */
  ghost predicate Live(h: Heap, o: nat) {
    var p := Mask(o);
    && p in h.slabs && h.slabs[p].cache < |h.caches|
    && o in Slots(p, h.caches[h.slabs[p].cache].size, h.caches[h.slabs[p].cache].per)
    && o !in h.slabs[p].free
  }

  /** kmem_cache_free: nothing happens when the object belongs to another cache. */
  function Free(h: Heap, c: nat, o: nat): Heap
    requires Inv(h) && c < |h.caches| && Live(h, o)
  {
    var p := Mask(o);
    if h.slabs[p].cache != c then h
    else
      FreeReady(h, o);
      var s := h.slabs[p];
      var slabs := h.slabs[p := s.(free := [o] + s.free, inuse := s.inuse - 1)];
      var (slabs', cache') := Refile(slabs, h.caches[c], p, s.inuse == s.total);
      Heap(slabs', h.caches[c := cache'.(frees := cache'.frees + 1)])
  }

  // ----- sums

  lemma InUseCons(slabs: Slabs, p: nat, l: seq<nat>)
    requires p in slabs && forall q | q in l :: q in slabs
    ensures InUse(slabs, [p] + l) == slabs[p].inuse + InUse(slabs, l)
  {}

  lemma {:induction false} InUseSame(slabs: Slabs, slabs': Slabs, l: seq<nat>)
    requires forall p | p in l :: p in slabs && p in slabs' && slabs'[p].inuse == slabs[p].inuse
    ensures InUse(slabs', l) == InUse(slabs, l)
  {
    if l != [] { InUseSame(slabs, slabs', l[1..]); }
  }

  lemma {:induction false} InUseWithout(slabs: Slabs, l: seq<nat>, x: nat)
    requires x in l && forall p | p in l :: p in slabs
    ensures (forall p | p in Without(l, x) :: p in slabs)
            && InUse(slabs, l) == slabs[x].inuse + InUse(slabs, Without(l, x))
  {
    if l[0] == x {
      assert Without(l, x) == l[1..];
    } else {
      assert x in l[1..] && Without(l, x) == [l[0]] + Without(l[1..], x);
      InUseWithout(slabs, l[1..], x);
    }
  }

  // ----- every operation keeps the invariant

  /** Caches other than c do not notice a change to the slabs of c. */
  lemma OtherCache(slabs: Slabs, slabs': Slabs, cache: Cache, d: nat, p: nat)
    requires CacheOk(slabs, cache, d, 0)
    requires slabs' - {p} == slabs - {p}
    requires (p in slabs ==> slabs[p].cache != d) && (p in slabs' ==> slabs'[p].cache != d)
    ensures CacheOk(slabs', cache, d, 0)
  {
    forall q | q in slabs && q != p ensures q in slabs' && slabs'[q] == slabs[q] { assert q in slabs - {p}; }
    forall q | q in slabs' && q != p ensures q in slabs { assert q in slabs' - {p}; }
    forall q | q in slabs' && slabs'[q].cache == d ensures Filed(slabs', cache, q, 0) {
      assert Filed(slabs, cache, q, 0);
    }
    InUseSame(slabs, slabs', cache.partial);
    InUseSame(slabs, slabs', cache.full);
  }

  lemma RefillOk(slabs: Slabs, cache: Cache, c: nat, page: nat)
    requires CacheOk(slabs, cache, c, 0) && page % PAGE == 0 && page !in slabs
    ensures var (slabs', cache') := Refill(slabs, cache, c, page);
            && (cache'.partial == [] <==> cache.partial == [] && cache.empty == [] && page == 0)
            && (cache'.partial == [] ==> slabs' == slabs && cache' == cache)
            && (cache'.partial != [] ==>
                  && var p := cache'.partial[0];
                  && CacheOk(slabs', cache', c, p) && p in slabs' && slabs'[p].free != [] && p > 0
                  && cache'.size == cache.size && cache'.per == cache.per
                  && slabs' - {p} == slabs - {p} && (p in slabs ==> slabs'[p] == slabs[p] && slabs[p].cache == c)
                  && (p !in slabs ==> slabs'[p].free == Slots(p, cache.size, cache.per)))
  {
    if cache.partial != [] {
      var p := cache.partial[0];
      assert Filed(slabs, cache, p, 0);
      forall q | q in slabs && slabs[q].cache == c ensures Filed(slabs, cache, q, p) {
        assert Filed(slabs, cache, q, 0);
      }
    } else if cache.empty != [] {
      RefillEmpty(slabs, cache, c);
    } else if page != 0 {
      RefillNew(slabs, cache, c, page);
    }
  }

  lemma RefillEmpty(slabs: Slabs, cache: Cache, c: nat)
    requires CacheOk(slabs, cache, c, 0) && cache.partial == [] && cache.empty != []
    ensures var p := cache.empty[0];
            CacheOk(slabs, cache.(partial := [p], empty := cache.empty[1..]), c, p) && p > 0 && slabs[p].free != []
  {
    var p := cache.empty[0];
    var cache' := cache.(partial := [p], empty := cache.empty[1..]);
    assert Filed(slabs, cache, p, 0);
    forall q | q in slabs && slabs[q].cache == c ensures Filed(slabs, cache', q, p) {
      assert Filed(slabs, cache, q, 0);
    }
  }

  lemma RefillNew(slabs: Slabs, cache: Cache, c: nat, page: nat)
    requires CacheOk(slabs, cache, c, 0) && cache.partial == cache.empty == []
    requires page % PAGE == 0 && page !in slabs && page > 0
    ensures var slabs' := slabs[page := Slab(c, Slots(page, cache.size, cache.per), 0, cache.per)];
            CacheOk(slabs', cache.(partial := [page], slabCount := cache.slabCount + 1), c, page)
  {
    var slabs' := slabs[page := Slab(c, Slots(page, cache.size, cache.per), 0, cache.per)];
    var cache' := cache.(partial := [page], slabCount := cache.slabCount + 1);
    SlotsNoDup(page, cache.size, cache.per);
    forall q | q in slabs' && slabs'[q].cache == c ensures Filed(slabs', cache', q, page) {
      assert q != page ==> Filed(slabs, cache, q, 0);
    }
    InUseSame(slabs, slabs', cache.full);
    InUseCons(slabs', page, []);
    assert [page] + [] == [page];
  }

  /** The slab stays partial. */
  lemma TakeHere(slabs: Slabs, cache: Cache, c: nat, s: Slab)
    requires cache.partial != [] && CacheOk(slabs, cache, c, cache.partial[0])
    requires SlabOk(cache.partial[0], s, cache.size, cache.per) && s.cache == c
    requires s.inuse == slabs[cache.partial[0]].inuse + 1 && s.inuse < cache.per
    ensures CacheOk(slabs[cache.partial[0] := s], cache.(allocs := cache.allocs + 1), c, 0)
  {
    var p := cache.partial[0];
    var slabs', cache' := slabs[p := s], cache.(allocs := cache.allocs + 1);
    forall q | q in slabs' && slabs'[q].cache == c ensures Filed(slabs', cache', q, 0) {
      assert Filed(slabs, cache, q, p);
    }
    InUseSame(slabs, slabs', cache.partial[1..]);
    InUseSame(slabs, slabs', cache.full);
  }

  /** The slab becomes full. */
  lemma TakeLast(slabs: Slabs, cache: Cache, c: nat, s: Slab)
    requires cache.partial != [] && CacheOk(slabs, cache, c, cache.partial[0])
    requires SlabOk(cache.partial[0], s, cache.size, cache.per) && s.cache == c
    requires s.inuse == slabs[cache.partial[0]].inuse + 1 && s.inuse == cache.per
    ensures CacheOk(slabs[cache.partial[0] := s],
                    cache.(partial := cache.partial[1..], full := [cache.partial[0]] + cache.full,
                           allocs := cache.allocs + 1), c, 0)
  {
    var p := cache.partial[0];
    var slabs' := slabs[p := s];
    var cache' := cache.(partial := cache.partial[1..], full := [p] + cache.full, allocs := cache.allocs + 1);
    assert Filed(slabs, cache, p, p);
    assert Mine(slabs', cache'.partial, c) && Mine(slabs', cache'.full, c) && Mine(slabs', cache'.empty, c);
    forall q | q in slabs' && slabs'[q].cache == c ensures Filed(slabs', cache', q, 0) {
      assert Filed(slabs, cache, q, p);
      assert q in cache.partial <==> q == p || q in cache.partial[1..];
    }
    InUseSame(slabs, slabs', cache.partial[1..]);
    InUseSame(slabs, slabs', cache.full);
    InUseCons(slabs', p, cache.full);
  }

  lemma TakeOk(slabs: Slabs, cache: Cache, c: nat)
    requires cache.partial != [] && CacheOk(slabs, cache, c, cache.partial[0])
    ensures cache.partial[0] in slabs && slabs[cache.partial[0]].free != []
    ensures CacheOk(Take(slabs, cache).0, Take(slabs, cache).1, c, 0)
  {
    var p := cache.partial[0];
    assert Filed(slabs, cache, p, p);
    var s := slabs[p].(free := slabs[p].free[1..], inuse := slabs[p].inuse + 1);
    if s.inuse == s.total { TakeLast(slabs, cache, c, s); } else { TakeHere(slabs, cache, c, s); }
  }

  /** The objects of a slab that are not on its free list are as many as its use count says. */
  lemma LiveCount(page: nat, slab: Slab, size: nat, per: nat)
    requires SlabOk(page, slab, size, per) && size > 0
    ensures |Elems(Slots(page, size, per)) - Elems(slab.free)| == slab.inuse
  {
    SlotsNoDup(page, size, per);
    ElemsSize(Slots(page, size, per));
    ElemsSize(slab.free);
    SubsetSize(Elems(slab.free), Elems(Slots(page, size, per)));
  }

  /** A live object's slab is in use and is filed as full or partial. */
  lemma FreeReady(h: Heap, o: nat)
    requires Inv(h) && Live(h, o)
    ensures var p := Mask(o);
            var s, cache := h.slabs[p], h.caches[h.slabs[p].cache];
            && s.inuse > 0 && (if s.inuse == s.total then p in cache.full else p in cache.partial)
            && cache.slabCount > 0
  {
    var p := Mask(o);
    var s, c := h.slabs[p], h.slabs[p].cache;
    var cache := h.caches[c];
    assert CacheOk(h.slabs, cache, c, 0) && Filed(h.slabs, cache, p, 0);
    LiveCount(p, s, cache.size, cache.per);
    assert o in Elems(Slots(p, cache.size, cache.per)) - Elems(s.free);
  }

  /** The slab was full. */
  lemma RefileFull(slabs: Slabs, cache: Cache, c: nat, p: nat, s: Slab)
    requires CacheOk(slabs, cache, c, 0) && p in slabs && slabs[p].cache == c == s.cache && p in cache.full
    requires SlabOk(p, s, cache.size, cache.per) && s.inuse == slabs[p].inuse - 1
    ensures CacheOk(slabs[p := s], cache.(full := Without(cache.full, p), partial := [p] + cache.partial,
                                          frees := cache.frees + 1), c, 0)
  {
    var slabs' := slabs[p := s];
    var cache' := cache.(full := Without(cache.full, p), partial := [p] + cache.partial, frees := cache.frees + 1);
    assert Filed(slabs, cache, p, 0);
    WithoutProps(cache.full, p);
    assert Mine(slabs', cache'.partial, c) && Mine(slabs', cache'.full, c) && Mine(slabs', cache'.empty, c);
    forall q | q in slabs' && slabs'[q].cache == c ensures Filed(slabs', cache', q, 0) {
      assert Filed(slabs, cache, q, 0);
    }
    InUseWithout(slabs, cache.full, p);
    InUseSame(slabs, slabs', cache.partial);
    InUseSame(slabs, slabs', Without(cache.full, p));
    InUseCons(slabs', p, cache.partial);
  }

  lemma RefileHere(slabs: Slabs, cache: Cache, c: nat, p: nat, s: Slab)
    requires CacheOk(slabs, cache, c, 0) && p in slabs && slabs[p].cache == c == s.cache && p in cache.partial
    requires SlabOk(p, s, cache.size, cache.per) && s.inuse == slabs[p].inuse - 1 && s.inuse > 0
    ensures CacheOk(slabs[p := s], cache.(frees := cache.frees + 1), c, 0)
  {
    var cache' := cache.(frees := cache.frees + 1);
    forall q | q in slabs && slabs[q].cache == c ensures Filed(slabs[p := s], cache', q, 0) {
      assert Filed(slabs, cache, q, 0);
    }
    InUseWithout(slabs, cache.partial, p);
    InUseWithout(slabs[p := s], cache.partial, p);
    WithoutProps(cache.partial, p);
    InUseSame(slabs, slabs[p := s], Without(cache.partial, p));
    InUseSame(slabs, slabs[p := s], cache.full);
  }

  /** The slab has become empty and is kept. */
  lemma RefileKept(slabs: Slabs, cache: Cache, c: nat, p: nat, s: Slab)
    requires CacheOk(slabs, cache, c, 0) && p in slabs && slabs[p].cache == c == s.cache && p in cache.partial
    requires SlabOk(p, s, cache.size, cache.per) && slabs[p].inuse == 1 && s.inuse == 0 && cache.empty == []
    ensures CacheOk(slabs[p := s],
                    cache.(partial := Without(cache.partial, p), empty := [p], frees := cache.frees + 1), c, 0)
  {
    var slabs' := slabs[p := s];
    var cache' := cache.(partial := Without(cache.partial, p), empty := [p], frees := cache.frees + 1);
    WithoutProps(cache.partial, p);
    assert Filed(slabs, cache, p, 0);
    assert Mine(slabs', cache'.partial, c) && Mine(slabs', cache'.full, c) && Mine(slabs', cache'.empty, c);
    forall q | q in slabs' && slabs'[q].cache == c ensures Filed(slabs', cache', q, 0) {
      assert Filed(slabs, cache, q, 0);
    }
    InUseWithout(slabs, cache.partial, p);
    InUseSame(slabs, slabs', Without(cache.partial, p));
    InUseSame(slabs, slabs', cache.full);
  }

  /** The slab has become empty and its page is given back. */
  lemma RefileDropped(slabs: Slabs, cache: Cache, c: nat, p: nat)
    requires CacheOk(slabs, cache, c, 0) && p in slabs && slabs[p].cache == c && p in cache.partial
    requires slabs[p].inuse == 1 && cache.empty != [] && cache.slabCount > 0
    ensures CacheOk(slabs - {p}, cache.(partial := Without(cache.partial, p), slabCount := cache.slabCount - 1,
                                        frees := cache.frees + 1), c, 0)
  {
    var slabs', cache' := slabs - {p}, cache.(partial := Without(cache.partial, p), slabCount := cache.slabCount - 1,
                                              frees := cache.frees + 1);
    assert Filed(slabs, cache, p, 0);
    WithoutProps(cache.partial, p);
    forall q | q in slabs' && slabs'[q].cache == c ensures Filed(slabs', cache', q, 0) {
      assert Filed(slabs, cache, q, 0);
    }
    InUseWithout(slabs, cache.partial, p);
    InUseSame(slabs, slabs', Without(cache.partial, p));
    InUseSame(slabs, slabs', cache.full);
  }

  // ----- the allocator as a whole

  lemma PutCache(h: Heap, c: nat, p: nat, slabs': Slabs, cache': Cache)
    requires Inv(h) && c < |h.caches| && CacheOk(slabs', cache', c, 0) && slabs' - {p} == h.slabs - {p}
    requires cache'.size == h.caches[c].size && cache'.per == h.caches[c].per
    requires (p in h.slabs ==> h.slabs[p].cache == c) && (p in slabs' ==> slabs'[p].cache == c)
    ensures Inv(Heap(slabs', h.caches[c := cache']))
  {
    var h' := Heap(slabs', h.caches[c := cache']);
    forall q | q in slabs' ensures slabs'[q].cache < |h'.caches| {
      assert q != p ==> q in h.slabs - {p} && q in slabs' - {p};
    }
    forall d | 0 <= d < |h'.caches| ensures CacheOk(slabs', h'.caches[d], d, 0) {
      assert CacheOk(h.slabs, h.caches[d], d, 0);
      if d != c { OtherCache(h.slabs, slabs', h.caches[d], d, p); }
    }
  }

  lemma CreateInv(h: Heap, size: nat)
    requires Inv(h)
    ensures Inv(Create(h, size).0)
  {
    var h' := Create(h, size).0;
    CreateGeometry(size);
    forall c | 0 <= c < |h'.caches| ensures CacheOk(h'.slabs, h'.caches[c], c, 0) {
      if c < |h.caches| { assert CacheOk(h.slabs, h.caches[c], c, 0); }
    }
  }

  lemma AllocInv(h: Heap, c: nat, page: nat)
    requires Inv(h) && c < |h.caches| && CanUse(h, page)
    ensures Inv(Alloc(h, c, page).0)
  {
    var (slabs, cache) := Refill(h.slabs, h.caches[c], c, page);
    RefillOk(h.slabs, h.caches[c], c, page);
    if cache.partial != [] {
      var p := cache.partial[0];
      TakeOk(slabs, cache, c);
      var (slabs', cache') := Take(slabs, cache);
      assert slabs' - {p} == slabs - {p};
      PutCache(h, c, p, slabs', cache');
    }
  }

  lemma FreedSlab(page: nat, s: Slab, size: nat, per: nat, o: nat)
    requires SlabOk(page, s, size, per) && o in Slots(page, size, per) && o !in s.free && s.inuse > 0
    ensures SlabOk(page, s.(free := [o] + s.free, inuse := s.inuse - 1), size, per)
  {}

  /** Giving an object back keeps the cache in order, whichever list the slab goes to. */
  lemma RefileOk(slabs: Slabs, cache: Cache, c: nat, p: nat, s: Slab)
    requires CacheOk(slabs, cache, c, 0) && p in slabs && slabs[p].cache == c == s.cache && cache.slabCount > 0
    requires SlabOk(p, s, cache.size, cache.per) && s.inuse == slabs[p].inuse - 1
    requires if slabs[p].inuse == cache.per then p in cache.full else p in cache.partial
    ensures var (slabs', cache') := Refile(slabs[p := s], cache, p, slabs[p].inuse == cache.per);
            && CacheOk(slabs', cache'.(frees := cache'.frees + 1), c, 0) && slabs' - {p} == slabs - {p}
            && (p in slabs' ==> slabs'[p] == s)
  {
    if slabs[p].inuse == cache.per {
      RefileFull(slabs, cache, c, p, s);
    } else if s.inuse > 0 {
      RefileHere(slabs, cache, c, p, s);
    } else if cache.empty == [] {
      RefileKept(slabs, cache, c, p, s);
    } else {
      RefileDropped(slabs, cache, c, p);
    }
    assert slabs[p := s] - {p} == slabs - {p};
  }

  lemma FreeInv(h: Heap, c: nat, o: nat)
    requires Inv(h) && c < |h.caches| && Live(h, o)
    ensures Inv(Free(h, c, o))
  {
    var p := Mask(o);
    if h.slabs[p].cache == c {
      FreeReady(h, o);
      var s, cache := h.slabs[p], h.caches[c];
      assert CacheOk(h.slabs, cache, c, 0) && Filed(h.slabs, cache, p, 0);
      FreedSlab(p, s, cache.size, cache.per, o);
      var s' := s.(free := [o] + s.free, inuse := s.inuse - 1);
      RefileOk(h.slabs, cache, c, p, s');
      var (slabs', cache') := Refile(h.slabs[p := s'], cache, p, s.inuse == s.total);
      PutCache(h, c, p, slabs', cache'.(frees := cache'.frees + 1));
    }
  }

  // ----- what clients rely on

  /** A live object lies behind the header of its slab's page, inside the page and on an 8-byte boundary. */
  lemma LivePlace(h: Heap, o: nat)
    requires Inv(h) && Live(h, o)
    ensures var p := Mask(o);
            var size := h.caches[h.slabs[p].cache].size;
            p > 0 && p % PAGE == 0 && p + HEADER <= o && o + size <= p + PAGE && o % 8 == 0
  {
    var p := Mask(o);
    var c := h.slabs[p].cache;
    assert CacheOk(h.slabs, h.caches[c], c, 0) && Filed(h.slabs, h.caches[c], p, 0);
    var i := SlotIndex(p, h.caches[c].size, h.caches[c].per, o);
    SlotInside(p, h.caches[c].size, h.caches[c].per, i);
  }

  /** Live objects do not overlap, whichever slabs and caches they belong to. */
  lemma LiveApart(h: Heap, o: nat, o': nat)
    requires Inv(h) && Live(h, o) && Live(h, o') && o < o'
    ensures o + h.caches[h.slabs[Mask(o)].cache].size <= o'
  {
    LivePlace(h, o);
    LivePlace(h, o');
    if Mask(o) == Mask(o') {
      var p := Mask(o);
      var cache := h.caches[h.slabs[p].cache];
      var i := SlotIndex(p, cache.size, cache.per, o);
      var j := SlotIndex(p, cache.size, cache.per, o');
      SlotOrder(p, cache.size, i, j);
    } else {
      PagesApart(o, o');
    }
  }

  /** kmem_cache_alloc hands out an object of the right cache that was not live, and changes nothing else
      for clients; it fails exactly when the cache has no free object and there is no page. */
  lemma AllocTheorem(h: Heap, c: nat, page: nat)
    requires Inv(h) && c < |h.caches| && CanUse(h, page)
    ensures var (h', o) := Alloc(h, c, page);
            && (o == 0 <==> h.caches[c].partial == [] && h.caches[c].empty == [] && page == 0)
            && (o == 0 ==> h' == h)
            && (o != 0 ==> !Live(h, o) && Live(h', o) && h'.slabs[Mask(o)].cache == c)
            && forall x | x != o :: Live(h', x) <==> Live(h, x)
  {
    var (slabs, cache) := Refill(h.slabs, h.caches[c], c, page);
    RefillOk(h.slabs, h.caches[c], c, page);
    if cache.partial != [] {
      var p := cache.partial[0];
      var (h', o) := Alloc(h, c, page);
      assert Filed(slabs, cache, p, p);
      TakenSlab(p, slabs[p], cache.size, cache.per);
      forall x | x != o ensures Live(h', x) <==> Live(h, x) { TakenLive(h, c, page, x); }
    }
  }

  lemma TakenSlab(p: nat, s: Slab, size: nat, per: nat)
    requires SlabOk(p, s, size, per) && s.free != [] && Geometry(size, per)
    ensures Mask(s.free[0]) == p && s.free[0] in Slots(p, size, per) && s.free[0] !in s.free[1..] && s.free[0] > 0
  {
    var i := SlotIndex(p, size, per, s.free[0]);
    SlotInside(p, size, per, i);
  }

  lemma TakenLive(h: Heap, c: nat, page: nat, x: nat)
    requires Inv(h) && c < |h.caches| && CanUse(h, page)
    requires x != Alloc(h, c, page).1
    ensures Live(Alloc(h, c, page).0, x) <==> Live(h, x)
  {
    var (slabs, cache) := Refill(h.slabs, h.caches[c], c, page);
    RefillOk(h.slabs, h.caches[c], c, page);
    if cache.partial != [] {
      var p, q := cache.partial[0], Mask(x);
      var h' := Alloc(h, c, page).0;
      if q != p {
        assert q in h.slabs <==> q in h.slabs - {p};
        assert q in h'.slabs <==> q in h.slabs;
      } else {
        assert slabs[p].free == [slabs[p].free[0]] + slabs[p].free[1..];
      }
    }
  }

  /** kmem_cache_free of an object through its own cache makes it available again and leaves all other
      objects as they were; through another cache it does nothing. */
  lemma FreeTheorem(h: Heap, c: nat, o: nat)
    requires Inv(h) && c < |h.caches| && Live(h, o)
    ensures h.slabs[Mask(o)].cache == c ==> !Live(Free(h, c, o), o)
    ensures h.slabs[Mask(o)].cache != c ==> Free(h, c, o) == h
    ensures forall x | x != o :: Live(Free(h, c, o), x) <==> Live(h, x)
  {
    if h.slabs[Mask(o)].cache == c {
      FreeShape(h, c, o);
      forall x ensures Live(Free(h, c, o), x) <==> x != o && Live(h, x) { FreedLive(h, Free(h, c, o), o, x); }
    }
  }

  /** h' is h with o given back: only o's slab changes, and it disappears only when o was its last object. */
  ghost predicate Freed(h: Heap, h': Heap, o: nat) {
    && var p := Mask(o);
    && Live(h, o) && h'.slabs - {p} == h.slabs - {p} && |h'.caches| == |h.caches|
    && (forall d | 0 <= d < |h.caches| :: h'.caches[d].size == h.caches[d].size && h'.caches[d].per == h.caches[d].per)
    && var s, cache := h.slabs[p], h.caches[h.slabs[p].cache];
    && SlabOk(p, s, cache.size, cache.per) && cache.size > 0 && s.inuse > 0
    && if p in h'.slabs then h'.slabs[p] == s.(free := [o] + s.free, inuse := s.inuse - 1) else s.inuse == 1
  }

  lemma FreeShape(h: Heap, c: nat, o: nat)
    requires Inv(h) && c < |h.caches| && Live(h, o) && h.slabs[Mask(o)].cache == c
    ensures Freed(h, Free(h, c, o), o)
  {
    var p := Mask(o);
    var s, cache := h.slabs[p], h.caches[c];
    FreeReady(h, o);
    assert CacheOk(h.slabs, cache, c, 0) && Filed(h.slabs, cache, p, 0);
    FreedSlab(p, s, cache.size, cache.per, o);
    RefileOk(h.slabs, cache, c, p, s.(free := [o] + s.free, inuse := s.inuse - 1));
  }

  lemma FreedLive(h: Heap, h': Heap, o: nat, x: nat)
    requires Freed(h, h', o)
    ensures Live(h', x) <==> x != o && Live(h, x)
  {
    var p, q := Mask(o), Mask(x);
    if q != p {
      assert q in h'.slabs <==> q in h'.slabs - {p};
      assert q in h.slabs <==> q in h.slabs - {p};
    } else if p !in h'.slabs && x != o && Live(h, x) {
      LastObject(p, h.slabs[p], h.caches[h.slabs[p].cache].size, h.caches[h.slabs[p].cache].per, o, x);
    }
  }

  /** When only one object of a slab is live, every other one is free. */
  lemma LastObject(p: nat, s: Slab, size: nat, per: nat, o: nat, x: nat)
    requires SlabOk(p, s, size, per) && size > 0 && s.inuse == 1
    requires o in Slots(p, size, per) && o !in s.free && x in Slots(p, size, per) && x != o
    ensures x in s.free
  {
    LiveCount(p, s, size, per);
    var live := Elems(Slots(p, size, per)) - Elems(s.free);
    assert o in live;
    assert |live - {o}| == 0;
    assert x !in live - {o};
  }

  /** The last object given back to a slab is the first one handed out again. */
  lemma FreeThenAlloc(h: Heap, c: nat, o: nat, page: nat)
    requires Inv(h) && c < |h.caches| && Live(h, o) && h.slabs[Mask(o)].cache == c
    requires h.slabs[Mask(o)].inuse == h.caches[c].per
    requires CanUse(Free(h, c, o), page) && Inv(Free(h, c, o))
    ensures Alloc(Free(h, c, o), c, page).1 == o
  {
    FreeReady(h, o);
    assert CacheOk(h.slabs, h.caches[c], c, 0) && Filed(h.slabs, h.caches[c], Mask(o), 0);
  }

  /** Every slab is on exactly one list, and that list belongs to its own cache. */
  lemma OneList(h: Heap, p: nat, c: nat)
    requires Inv(h) && p in h.slabs && c < |h.caches|
    ensures var l := h.caches[c];
            && (h.slabs[p].cache != c ==> p !in l.partial && p !in l.full && p !in l.empty)
            && (h.slabs[p].cache == c ==>
                  && (p in l.full <==> p !in l.partial && p !in l.empty)
                  && (p in l.partial <==> p !in l.full && p !in l.empty)
                  && (p in l.full <==> h.slabs[p].inuse == l.per))
  {
    assert CacheOk(h.slabs, h.caches[c], c, 0);
    if h.slabs[p].cache == c { assert Filed(h.slabs, h.caches[c], p, 0); }
  }

  /** The books balance: allocations less frees are the objects in use on all slabs of the cache, and
      slab_count counts those slabs. */
  lemma Books(h: Heap, c: nat)
    requires Inv(h) && c < |h.caches|
    ensures var l := h.caches[c];
            var all := l.partial + l.full + l.empty;
            && l.slabCount == |all| && (forall p :: p in all <==> p in h.slabs && h.slabs[p].cache == c)
            && l.allocs == l.frees + InUse(h.slabs, all) && |l.empty| <= 1
  {
    var l := h.caches[c];
    assert CacheOk(h.slabs, l, c, 0);
    forall p | p in h.slabs && h.slabs[p].cache == c ensures p in l.partial + l.full + l.empty {
      assert Filed(h.slabs, l, p, 0);
    }
    InUseConcat(h.slabs, l.partial + l.full, l.empty);
    InUseConcat(h.slabs, l.partial, l.full);
    if l.empty != [] {
      assert Filed(h.slabs, l, l.empty[0], 0);
      assert l.empty[1..] == [];
    }
  }

  lemma {:induction false} InUseConcat(slabs: Slabs, a: seq<nat>, b: seq<nat>)
    requires forall p | p in a + b :: p in slabs
    ensures InUse(slabs, a + b) == InUse(slabs, a) + InUse(slabs, b)
  {
    if a == [] {
      assert a + b == b;
    } else {
      assert (a + b)[1..] == a[1..] + b;
      InUseConcat(slabs, a[1..], b);
    }
  }

  // ----- kmalloc_verify

  function PartialErrors(slabs: Slabs, l: seq<nat>, c: nat): nat
    requires forall p | p in l :: p in slabs
  {
    if l == [] then 0 else
      var s := slabs[l[0]];
      (if s.cache != c then 1 else 0) + (if s.inuse >= s.total then 1 else 0) + (if s.inuse == 0 then 1 else 0)
      + PartialErrors(slabs, l[1..], c)
  }

  function FullErrors(slabs: Slabs, l: seq<nat>): nat
    requires forall p | p in l :: p in slabs
  {
    if l == [] then 0 else (if slabs[l[0]].inuse != slabs[l[0]].total then 1 else 0) + FullErrors(slabs, l[1..])
  }

  function EmptyErrors(slabs: Slabs, l: seq<nat>): nat
    requires forall p | p in l :: p in slabs
  {
    if l == [] then 0 else (if slabs[l[0]].inuse != 0 then 1 else 0) + EmptyErrors(slabs, l[1..])
  }

  /** What kmalloc_verify counts for one cache. */
  function Errors(h: Heap, c: nat): nat
    requires Inv(h) && c < |h.caches|
  {
    assert CacheOk(h.slabs, h.caches[c], c, 0);
    PartialErrors(h.slabs, h.caches[c].partial, c) + FullErrors(h.slabs, h.caches[c].full)
    + EmptyErrors(h.slabs, h.caches[c].empty)
  }

  /** In every state that satisfies the invariant the checks find nothing wrong with a cache that has two or
      more objects to a slab; with one object to a slab they count one error for each slab on the partial
      list, because a slab that becomes free again goes there and not to the empty list. */
  lemma VerifyExact(h: Heap, c: nat)
    requires Inv(h) && c < |h.caches|
    ensures Errors(h, c) == if h.caches[c].per >= 2 then 0 else |h.caches[c].partial|
  {
    var cache := h.caches[c];
    assert CacheOk(h.slabs, cache, c, 0);
    forall p | p in cache.partial + cache.full + cache.empty ensures Filed(h.slabs, cache, p, 0) {}
    PartialExact(h.slabs, cache, c, cache.partial);
    FullExact(h.slabs, cache, cache.full);
    EmptyExact(h.slabs, cache, cache.empty);
  }

  lemma {:induction false} PartialExact(slabs: Slabs, cache: Cache, c: nat, l: seq<nat>)
    requires forall p | p in l :: p in slabs && slabs[p].cache == c && Filed(slabs, cache, p, 0) && p in cache.partial
    ensures PartialErrors(slabs, l, c) == if cache.per >= 2 then 0 else |l|
  {
    if l != [] {
      assert Filed(slabs, cache, l[0], 0);
      PartialExact(slabs, cache, c, l[1..]);
    }
  }

  lemma {:induction false} FullExact(slabs: Slabs, cache: Cache, l: seq<nat>)
    requires forall p | p in l :: p in slabs && Filed(slabs, cache, p, 0) && p in cache.full
    ensures FullErrors(slabs, l) == 0
  {
    if l != [] {
      assert Filed(slabs, cache, l[0], 0);
      FullExact(slabs, cache, l[1..]);
    }
  }

  lemma {:induction false} EmptyExact(slabs: Slabs, cache: Cache, l: seq<nat>)
    requires forall p | p in l :: p in slabs && Filed(slabs, cache, p, 0) && p in cache.empty
    ensures EmptyErrors(slabs, l) == 0
  {
    if l != [] {
      assert Filed(slabs, cache, l[0], 0);
      EmptyExact(slabs, cache, l[1..]);
    }
  }

  // ----- runs

  datatype Event = DoCreate(size: nat) | DoAlloc(cache: nat, page: nat) | DoFree(cache: nat, obj: nat)

  /** alloc_page returns 0 or a page that is not in use, and only live objects are given back. */
  ghost predicate Enabled(h: Heap, e: Event) {
    match e
    case DoCreate(_) => true
    case DoAlloc(c, page) => c < |h.caches| && CanUse(h, page)
    case DoFree(c, o) => c < |h.caches| && Live(h, o)
  }

  ghost function Step(h: Heap, e: Event): Heap
    requires Inv(h) && Enabled(h, e)
  {
    match e
    case DoCreate(size) => Create(h, size).0
    case DoAlloc(c, page) => Alloc(h, c, page).0
    case DoFree(c, o) => Free(h, c, o)
  }

  lemma StepInv(h: Heap, e: Event)
    requires Inv(h) && Enabled(h, e)
    ensures Inv(Step(h, e))
  {
    match e
    case DoCreate(size) => CreateInv(h, size);
    case DoAlloc(c, page) => AllocInv(h, c, page);
    case DoFree(c, o) => FreeInv(h, c, o);
  }

  ghost predicate Reaches(h: Heap, es: seq<Event>, h': Heap)
    requires Inv(h)
    decreases |es|
  {
    if es == [] then h' == h
    else Enabled(h, es[0]) && (StepInv(h, es[0]); Reaches(Step(h, es[0]), es[1..], h'))
  }

  lemma {:induction false} RunInv(h: Heap, es: seq<Event>, h': Heap)
    requires Inv(h) && Reaches(h, es, h')
    ensures Inv(h')
    decreases |es|
  {
    if es != [] {
      StepInv(h, es[0]);
      RunInv(Step(h, es[0]), es[1..], h');
    }
  }

  /** No two live objects overlap. */
  ghost predicate Apart(h: Heap) {
    forall o: nat, o': nat | Live(h, o) && Live(h, o') && o < o' :: o + h.caches[h.slabs[Mask(o)].cache].size <= o'
  }

  /** Over any run from the empty allocator the invariant holds, live objects are apart, and kmalloc_verify
      has nothing to report but the partial lists of caches with one object to a slab. */
  lemma RunTheorem(es: seq<Event>, h: Heap)
    requires Reaches(Heap(map[], []), es, h)
    ensures Inv(h) && Apart(h)
    ensures forall c | 0 <= c < |h.caches| :: Errors(h, c) == if h.caches[c].per >= 2 then 0 else |h.caches[c].partial|
  {
    RunInv(Heap(map[], []), es, h);
    forall c | 0 <= c < |h.caches|
      ensures Errors(h, c) == if h.caches[c].per >= 2 then 0 else |h.caches[c].partial|
    {
      VerifyExact(h, c);
    }
    AllApart(h);
  }

  lemma AllApart(h: Heap)
    requires Inv(h)
    ensures Apart(h)
  {
    forall o: nat, o': nat | Live(h, o) && Live(h, o') && o < o'
      ensures o + h.caches[h.slabs[Mask(o)].cache].size <= o'
    {
      LiveApart(h, o, o');
    }
  }

  /** Whatever the state, allocating from a cache with one object to a slab and giving the object back leaves
      something for kmalloc_verify to report. */
  lemma SingleObjectReported(h: Heap, c: nat, page: nat)
    requires Inv(h) && c < |h.caches| && h.caches[c].per == 1 && CanUse(h, page) && page > 0
    ensures var (h', o) := Alloc(h, c, page);
            Inv(h') && Live(h', o) && Inv(Free(h', c, o)) && Errors(Free(h', c, o), c) > 0
  {
    var (h', o) := Alloc(h, c, page);
    AllocInv(h, c, page);
    AllocTheorem(h, c, page);
    FreeInv(h', c, o);
    FreeReady(h', o);
    VerifyExact(Free(h', c, o), c);
    assert CacheOk(h'.slabs, h'.caches[c], c, 0) && Filed(h'.slabs, h'.caches[c], Mask(o), 0);
  }

  /** The checks stay silent over all runs of a cache exactly when it has two or more objects to a slab. */
  lemma SilentExactly(h: Heap, c: nat, page: nat)
    requires Inv(h) && c < |h.caches| && CanUse(h, page) && page > 0
    ensures h.caches[c].per >= 2 <==> Silent(h, c)
  {
    if h.caches[c].per >= 2 {
      forall es, h' | Reaches(h, es, h') ensures Inv(h') && c < |h'.caches| && Errors(h', c) == 0 {
        RunInv(h, es, h');
        RunCaches(h, es, h', c);
        VerifyExact(h', c);
      }
    } else {
      var (h', o) := Alloc(h, c, page);
      SingleObjectReported(h, c, page);
      var e1, e2 := DoAlloc(c, page), DoFree(c, o);
      AllocTheorem(h, c, page);
      assert [e1, e2][1..] == [e2] && [e2][1..] == [];
      assert Reaches(h', [e2], Free(h', c, o));
      assert Reaches(h, [e1, e2], Free(h', c, o));
    }
  }

  ghost predicate Silent(h: Heap, c: nat)
    requires Inv(h)
  {
    forall es, h' | Reaches(h, es, h') :: Inv(h') && c < |h'.caches| && Errors(h', c) == 0
  }

  /** Caches keep their geometry. */
  lemma {:induction false} RunCaches(h: Heap, es: seq<Event>, h': Heap, c: nat)
    requires Inv(h) && Reaches(h, es, h') && c < |h.caches|
    ensures c < |h'.caches| && h'.caches[c].size == h.caches[c].size && h'.caches[c].per == h.caches[c].per
    decreases |es|
  {
    if es != [] {
      StepInv(h, es[0]);
      if es[0].DoAlloc? { RefillOk(h.slabs, h.caches[es[0].cache], es[0].cache, es[0].page); }
      RunCaches(Step(h, es[0]), es[1..], h', c);
    }
  }
}
