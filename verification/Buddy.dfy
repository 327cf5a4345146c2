/** The page allocator itself: struct page tags, doubly linked free lists and counters, updated in
    place.  Every method is proved to compute the abstract operation of BuddySpec. */
module Buddy {
  import opened Powers
  import opened BuddyGeometry
  import opened Lists
  import opened BuddySpec
  import opened BuddyRuns

  const NULL: int := -1

  /** The PG_* bits. */
  datatype Flags = Flags(free: bool, used: bool, reserved: bool, head: bool)

  const NO_FLAGS := Flags(false, false, false, false)
  const FREE_HEAD := Flags(true, false, false, true)
  const USED_HEAD := Flags(false, true, false, true)
  const RESERVED := Flags(false, false, true, false)

  /** struct page; a page pointer is written as the page frame number it stands for, or NULL. */
  datatype Page = Page(flags: Flags, order: int, next: int, prev: int, refCount: nat)

  datatype FreeArea = FreeArea(freeList: int, nrFree: nat)

  // ----- linked lists

  function NextOf(l: seq<nat>, i: nat): int requires i < |l| { if i + 1 < |l| then l[i + 1] else NULL }
  function PrevOf(l: seq<nat>, i: nat): int requires i < |l| { if i > 0 then l[i - 1] else NULL }

  ghost predicate NodeOk(pages: seq<Page>, start: nat, l: seq<nat>, i: nat)
    requires i < |l|
  {
    && start <= l[i] < start + |pages|
    && pages[l[i] - start].next == NextOf(l, i)
    && pages[l[i] - start].prev == PrevOf(l, i)
  }

  /** The chain that starts at head is exactly l, in both directions. */
  ghost predicate IsList(pages: seq<Page>, start: nat, head: int, l: seq<nat>) {
    && head == (if l == [] then NULL else l[0])
    && forall i {:trigger NodeOk(pages, start, l, i)} | 0 <= i < |l| :: NodeOk(pages, start, l, i)
  }

  function LinkFront(pages: seq<Page>, start: nat, head: int, p: nat): seq<Page>
    requires start <= p < start + |pages| && (head == NULL || start <= head < start + |pages|)
  {
    var a := pages[p - start := pages[p - start].(prev := NULL, next := head)];
    if head == NULL then a else a[head - start := a[head - start].(prev := p)]
  }

  lemma LinkFrontIsList(pages: seq<Page>, start: nat, head: int, l: seq<nat>, p: nat)
    requires IsList(pages, start, head, l) && NoDup(l) && p !in l && start <= p < start + |pages|
    requires head == NULL || start <= head < start + |pages|
    ensures IsList(LinkFront(pages, start, head, p), start, p, [p] + l)
  {
    var pages', l' := LinkFront(pages, start, head, p), [p] + l;
    forall i | 0 <= i < |l'| ensures NodeOk(pages', start, l', i) {
      if i == 0 {
        assert NextOf(l', 0) == head;
      } else {
        assert NodeOk(pages, start, l, i - 1);
        assert NextOf(l', i) == NextOf(l, i - 1);
      }
    }
  }

  /** Lists through other pages do not notice. */
  lemma LinkFrontFrame(pages: seq<Page>, start: nat, head: int, p: nat, head2: int, l2: seq<nat>)
    requires start <= p < start + |pages| && (head == NULL || start <= head < start + |pages|)
    requires IsList(pages, start, head2, l2) && p !in l2 && (head == NULL || head !in l2)
    ensures IsList(LinkFront(pages, start, head, p), start, head2, l2)
  {
    forall i | 0 <= i < |l2| ensures NodeOk(LinkFront(pages, start, head, p), start, l2, i) {
      assert NodeOk(pages, start, l2, i);
    }
  }

  function Unlink(pages: seq<Page>, start: nat, p: nat): seq<Page>
    requires start <= p < start + |pages|
    requires var pg := pages[p - start];
             && (pg.prev == NULL || start <= pg.prev < start + |pages|)
             && (pg.next == NULL || start <= pg.next < start + |pages|)
  {
    var pg := pages[p - start];
    var a := if pg.prev == NULL then pages
             else pages[pg.prev - start := pages[pg.prev - start].(next := pg.next)];
    var b := if pg.next == NULL then a else a[pg.next - start := a[pg.next - start].(prev := pg.prev)];
    b[p - start := b[p - start].(next := NULL, prev := NULL)]
  }

  lemma NodeNeighbours(pages: seq<Page>, start: nat, head: int, l: seq<nat>, p: nat)
    requires IsList(pages, start, head, l) && p in l
    ensures start <= p < start + |pages|
    ensures var i := IndexOf(l, p);
            pages[p - start].next == NextOf(l, i) && pages[p - start].prev == PrevOf(l, i)
    ensures var pg := pages[p - start];
            && (pg.prev == NULL || (start <= pg.prev < start + |pages| && pg.prev in l))
            && (pg.next == NULL || (start <= pg.next < start + |pages| && pg.next in l))
  {
    var i := IndexOf(l, p);
    assert NodeOk(pages, start, l, i);
    if i > 0 { assert NodeOk(pages, start, l, i - 1); }
    if i + 1 < |l| { assert NodeOk(pages, start, l, i + 1); }
  }

  lemma UnlinkIsList(pages: seq<Page>, start: nat, head: int, l: seq<nat>, p: nat)
    requires IsList(pages, start, head, l) && NoDup(l) && p in l && start <= p < start + |pages|
    requires var pg := pages[p - start];
             && (pg.prev == NULL || start <= pg.prev < start + |pages|)
             && (pg.next == NULL || start <= pg.next < start + |pages|)
    ensures var pg := pages[p - start];
            IsList(Unlink(pages, start, p), start, if pg.prev == NULL then pg.next else head, Without(l, p))
  {
    var i := IndexOf(l, p);
    var pages', l' := Unlink(pages, start, p), Without(l, p);
    NodeNeighbours(pages, start, head, l, p);
    forall j | 0 <= j < |l'| ensures NodeOk(pages', start, l', j) {
      var o := if j < i then j else j + 1;
      assert l'[j] == l[o] && NodeOk(pages, start, l, o);
      assert NextOf(l', j) == if o + 1 == i then NextOf(l, i) else NextOf(l, o);
      assert PrevOf(l', j) == if o == i + 1 then PrevOf(l, i) else PrevOf(l, o);
    }
  }

  lemma UnlinkFrame(pages: seq<Page>, start: nat, p: nat, head2: int, l2: seq<nat>)
    requires start <= p < start + |pages|
    requires var pg := pages[p - start];
             && (pg.prev == NULL || (start <= pg.prev < start + |pages| && pg.prev !in l2))
             && (pg.next == NULL || (start <= pg.next < start + |pages| && pg.next !in l2))
    requires IsList(pages, start, head2, l2) && p !in l2
    ensures IsList(Unlink(pages, start, p), start, head2, l2)
  {
    forall i | 0 <= i < |l2| ensures NodeOk(Unlink(pages, start, p), start, l2, i) {
      assert NodeOk(pages, start, l2, i);
    }
  }

  ghost predicate AreaOk(pages: seq<Page>, start: nat, area: FreeArea, l: seq<nat>) {
    IsList(pages, start, area.freeList, l) && area.nrFree == |l|
  }

  ghost predicate AllLinked(pages: seq<Page>, start: nat, areas: seq<FreeArea>, lists: seq<seq<nat>>) {
    && |areas| == |lists|
    && forall k {:trigger AreaOk(pages, start, areas[k], lists[k])} | 0 <= k < |lists| ::
         AreaOk(pages, start, areas[k], lists[k])
  }

  ghost predicate ListsApart(lists: seq<seq<nat>>) {
    && (forall k | 0 <= k < |lists| :: NoDup(lists[k]))
    && (forall j, k, p | 0 <= j < |lists| && 0 <= k < |lists| && p in lists[j] && p in lists[k] :: j == k)
  }

  /** Everything but the links is the same. */
  ghost predicate SameTags(pages: seq<Page>, pages': seq<Page>) {
    && |pages| == |pages'|
    && forall i | 0 <= i < |pages| :: pages'[i] == pages[i].(next := pages'[i].next, prev := pages'[i].prev)
  }

  lemma HeadInRange(pages: seq<Page>, start: nat, areas: seq<FreeArea>, lists: seq<seq<nat>>, k: nat)
    requires AllLinked(pages, start, areas, lists) && k < |lists|
    ensures areas[k].freeList == NULL <==> lists[k] == []
    ensures areas[k].freeList != NULL ==>
              start <= areas[k].freeList < start + |pages| && areas[k].freeList == lists[k][0]
  {
    assert AreaOk(pages, start, areas[k], lists[k]);
    if lists[k] != [] { assert NodeOk(pages, start, lists[k], 0); }
  }

  lemma AddLinked(pages: seq<Page>, start: nat, areas: seq<FreeArea>, lists: seq<seq<nat>>, k: nat, p: nat)
    requires AllLinked(pages, start, areas, lists) && ListsApart(lists) && k < |lists|
    requires start <= p < start + |pages| && forall j | 0 <= j < |lists| :: p !in lists[j]
    ensures areas[k].freeList == NULL || start <= areas[k].freeList < start + |pages|
    ensures var pages' := LinkFront(pages, start, areas[k].freeList, p);
            && SameTags(pages, pages')
            && AllLinked(pages', start, areas[k := FreeArea(p, areas[k].nrFree + 1)],
                         lists[k := [p] + lists[k]])
  {
    HeadInRange(pages, start, areas, lists, k);
    var head := areas[k].freeList;
    var pages' := LinkFront(pages, start, head, p);
    var areas', lists' := areas[k := FreeArea(p, areas[k].nrFree + 1)], lists[k := [p] + lists[k]];
    forall j | 0 <= j < |lists'| ensures AreaOk(pages', start, areas'[j], lists'[j]) {
      assert AreaOk(pages, start, areas[j], lists[j]);
      if j == k {
        LinkFrontIsList(pages, start, head, lists[k], p);
      } else {
        LinkFrontFrame(pages, start, head, p, areas[j].freeList, lists[j]);
      }
    }
  }

  lemma DelLinked(pages: seq<Page>, start: nat, areas: seq<FreeArea>, lists: seq<seq<nat>>, k: nat, p: nat)
    requires AllLinked(pages, start, areas, lists) && ListsApart(lists) && k < |lists| && p in lists[k]
    ensures start <= p < start + |pages| && areas[k].nrFree > 0
    ensures var pg := pages[p - start];
            && (pg.prev == NULL || start <= pg.prev < start + |pages|)
            && (pg.next == NULL || start <= pg.next < start + |pages|)
    ensures var pg, pages' := pages[p - start], Unlink(pages, start, p);
            && SameTags(pages, pages')
            && AllLinked(pages', start,
                         areas[k := FreeArea(if pg.prev == NULL then pg.next else areas[k].freeList,
                                             areas[k].nrFree - 1)],
                         lists[k := Without(lists[k], p)])
  {
    assert AreaOk(pages, start, areas[k], lists[k]);
    NodeNeighbours(pages, start, areas[k].freeList, lists[k], p);
    var pg := pages[p - start];
    var pages' := Unlink(pages, start, p);
    var area' := FreeArea(if pg.prev == NULL then pg.next else areas[k].freeList, areas[k].nrFree - 1);
    var areas', lists' := areas[k := area'], lists[k := Without(lists[k], p)];
    forall j | 0 <= j < |lists'| ensures AreaOk(pages', start, areas'[j], lists'[j]) {
      assert AreaOk(pages, start, areas[j], lists[j]);
      if j == k {
        UnlinkIsList(pages, start, areas[k].freeList, lists[k], p);
      } else {
        UnlinkFrame(pages, start, p, areas[j].freeList, lists[j]);
      }
    }
  }

  // ----- tags

  /** What the tags of a block's head say.  Tags of interior pages are left unconstrained: they may be
      stale. */
  ghost predicate TagOk(page: Page, h: Heap, p: nat)
    requires p in h.blocks
  {
    && page.order == h.blocks[p]
    && (p in h.live ==> page.flags == USED_HEAD && page.refCount >= 1)
    && (p !in h.live ==> page.flags == if p in h.tagged then FREE_HEAD else NO_FLAGS)
  }

  /** Tags agree with the heap, except possibly those of the block in transit. */
  ghost predicate TagsOk(pages: seq<Page>, start: nat, h: Heap, transit: int) {
    && start <= h.first && h.end <= start + |pages|
    && (forall i {:trigger pages[i]} | 0 <= i < h.first - start && i < |pages| ::
          !pages[i].flags.free && !pages[i].flags.head)
    && (forall p {:trigger h.blocks[p]} | p in h.blocks && start <= p < h.end && p != transit ::
          TagOk(pages[p - start], h, p))
  }

  /** Coalescing is sound: the test made on the buddy's tags succeeds exactly when the buddy really is
      the head of a tagged free block on free_area[k], whatever stale tags interior pages carry. */
  lemma TagTestSound(pages: seq<Page>, start: nat, h: Heap, p: nat, k: nat)
    requires Shape(h) && TagsOk(pages, start, h, p) && LiveBlock(h, p, k) && k < MAX_ORDER
    ensures var b := BuddyOf(p, k);
            CanMerge(h, b, k) <==>
            start <= b < h.end && pages[b - start].flags.free && pages[b - start].order == k
  {
    var b := BuddyOf(p, k);
    assert Placed(h.blocks, h.first, h.end, p);
    BuddyPair(p, k);
    if CanMerge(h, b, k) {
      assert FreeBlock(h, b, k);
      assert Placed(h.blocks, h.first, h.end, b);
    }
    if h.first <= b < h.end {
      assert Covered(h.blocks, b);
      var g: nat :| Covers(h.blocks, g, b);
      BuddyIsNeverInterior(h.blocks, h.first, h.end, p, g);
      assert TagOk(pages[b - start], h, b);
      assert b in h.lists[k] <==> FreeBlock(h, b, k);
    }
  }

  lemma InvLists(h: Heap)
    requires ListsMatch(h)
    ensures ListsApart(h.lists)
  {}

  /** Lists do not depend on tags. */
  lemma SetTagLinked(pages: seq<Page>, pages': seq<Page>, start: nat, areas: seq<FreeArea>, lists: seq<seq<nat>>)
    requires AllLinked(pages, start, areas, lists) && |pages| == |pages'|
    requires forall i | 0 <= i < |pages| :: pages'[i].next == pages[i].next && pages'[i].prev == pages[i].prev
    ensures AllLinked(pages', start, areas, lists)
  {
    forall k | 0 <= k < |lists| ensures AreaOk(pages', start, areas[k], lists[k]) {
      assert AreaOk(pages, start, areas[k], lists[k]);
      forall i | 0 <= i < |lists[k]| ensures NodeOk(pages', start, lists[k], i) {
        assert NodeOk(pages, start, lists[k], i);
      }
    }
  }

  /** Tags survive a change of links and of the blocks they do not describe. */
  lemma TagsFrame(pages: seq<Page>, pages': seq<Page>, start: nat, h: Heap, h': Heap, t: int, t': int)
    requires TagsOk(pages, start, h, t) && SameTags(pages, pages')
    requires h'.first == h.first && h'.end == h.end
    requires forall p | p in h'.blocks && p != t' ::
               && p != t && p in h.blocks && h'.blocks[p] == h.blocks[p]
               && (p in h'.live <==> p in h.live) && (p in h'.tagged <==> p in h.tagged)
    ensures TagsOk(pages', start, h', t')
  {}

  lemma SplitFacts(h: Heap, p: nat, k: nat)
    requires Shape(h) && k < MAX_ORDER && LiveBlock(h, p, k + 1)
    ensures Shape(SplitOnce(h, p, k)) && LiveBlock(SplitOnce(h, p, k), p, k)
    ensures var q := p + Pow2(k);
            && q !in h.blocks && q !in h.live && h.first <= q < h.end
            && forall j | 0 <= j < |h.lists| :: q !in h.lists[j]
  {
    SplitOnceShape(h, p, k);
    SplitFresh(h, p, k, p + Pow2(k));
  }

  lemma SplitFresh(h: Heap, p: nat, k: nat, q: nat)
    requires Shape(h) && LiveBlock(h, p, k + 1) && q == p + Pow2(k) && q !in h.blocks
    ensures q !in h.live && h.first <= q < h.end
    ensures forall j | 0 <= j < |h.lists| :: q !in h.lists[j]
  {
    assert Placed(h.blocks, h.first, h.end, p);
    forall j: nat | j < |h.lists| ensures q !in h.lists[j] { assert !FreeBlock(h, q, j); }
  }

  function FreeHeadPage(page: Page, k: nat): Page {
    page.(flags := FREE_HEAD, order := k, refCount := 0)
  }

  lemma TagsSplit(pages: seq<Page>, pages': seq<Page>, start: nat, h: Heap, p: nat, k: nat)
    requires TagsOk(pages, start, h, p) && k < |h.lists| && p in h.blocks
    requires p + Pow2(k) !in h.blocks && p + Pow2(k) !in h.live && h.first <= p + Pow2(k) < h.end
    requires var i := p + Pow2(k) - start;
             SameTags(pages[i := FreeHeadPage(pages[i], k)], pages')
    ensures TagsOk(pages', start, SplitOnce(h, p, k), p)
  {
    var q, h' := p + Pow2(k), SplitOnce(h, p, k);
    forall g | g in h'.blocks && start <= g < h'.end && g != p ensures TagOk(pages'[g - start], h', g) {
      if g != q { assert TagOk(pages[g - start], h, g); }
    }
  }

  /** The tags of the block being freed: those of a free head of order k, which may have lost its FREE
      flag in an earlier merge. */
  ghost predicate FreedTag(pages: seq<Page>, start: nat, h: Heap, p: nat, k: nat) {
    && start <= p < start + |pages|
    && pages[p - start].order == k
    && pages[p - start].flags == (if p in h.tagged then FREE_HEAD else NO_FLAGS)
  }

  /** The pages after buddy b has been absorbed and lo has become the head of a block of order k. */
  function MergedPages(pages: seq<Page>, b: nat, lo: nat, k: nat): seq<Page>
    requires b < |pages| && lo < |pages|
  {
    var a := pages[b := pages[b].(flags := NO_FLAGS, order := -1)];
    a[lo := a[lo].(order := k)]
  }

  lemma TagsMerge(pages: seq<Page>, pages1: seq<Page>, start: nat, h: Heap, h': Heap, p: nat, b: nat, k: nat)
    requires TagsOk(pages, start, h, p) && FreedTag(pages, start, h, p, k) && SameTags(pages, pages1)
    requires h.first <= p && h.first <= b < h.end && b != p
    requires var lo, hi := if b < p then b else p, if b < p then p else b;
             && h' == h.(blocks := (h.blocks - {hi})[lo := k + 1],
                         live := h.live - {p} + {lo},
                         lists := h'.lists,
                         tagged := if b < p then h.tagged - {b, p} else h.tagged - {b})
    ensures var lo := if b < p then b else p;
            var pages' := MergedPages(pages1, b - start, lo - start, k + 1);
            TagsOk(pages', start, h', lo) && FreedTag(pages', start, h', lo, k + 1)
  {
    var lo := if b < p then b else p;
    var pages' := MergedPages(pages1, b - start, lo - start, k + 1);
    forall i | 0 <= i < h.first - start && i < |pages| ensures !pages'[i].flags.free && !pages'[i].flags.head {
      assert pages'[i] == pages1[i] && !pages[i].flags.free && !pages[i].flags.head;
    }
    forall g | g in h'.blocks && start <= g < h'.end && g != lo ensures TagOk(pages'[g - start], h', g) {
      assert TagOk(pages[g - start], h, g);
      assert pages'[g - start] == pages1[g - start];
    }
  }

  /** The concrete state represents the abstract heap, except for the tags of the block in transit. */
  ghost predicate Rep(pages: seq<Page>, areas: seq<FreeArea>, start: nat, h: Heap, transit: int) {
    && Shape(h)
    && 0 < start
    && AllLinked(pages, start, areas, h.lists)
    && TagsOk(pages, start, h, transit)
  }

  lemma TakeRep(pages: seq<Page>, pages': seq<Page>, areas: seq<FreeArea>, areas': seq<FreeArea>, start: nat,
                h: Heap, k: nat)
    requires Rep(pages, areas, start, h, NULL) && k <= MAX_ORDER && h.lists[k] != []
    requires SameTags(pages, pages')
    requires AllLinked(pages', start, areas', h.lists[k := Without(h.lists[k], h.lists[k][0])])
    ensures Rep(pages', areas', start, Take(h, k), h.lists[k][0])
    ensures LiveBlock(Take(h, k), h.lists[k][0], k)
  {
    var p, h' := h.lists[k][0], Take(h, k);
    TakeShape(h, k);
    assert Without(h.lists[k], p) == h.lists[k][1..];
    TagsFrame(pages, pages', start, h, h', NULL, p);
  }

  lemma SplitRep(pages: seq<Page>, pages': seq<Page>, areas: seq<FreeArea>, areas': seq<FreeArea>, start: nat,
                 h: Heap, p: nat, k: nat)
    requires Rep(pages, areas, start, h, p) && k < MAX_ORDER && LiveBlock(h, p, k + 1)
    requires h.first <= p + Pow2(k) < h.end
    requires var i := p + Pow2(k) - start;
             SameTags(pages[i := FreeHeadPage(pages[i], k)], pages')
    requires AllLinked(pages', start, areas', h.lists[k := [p + Pow2(k)] + h.lists[k]])
    ensures Rep(pages', areas', start, SplitOnce(h, p, k), p)
    ensures LiveBlock(SplitOnce(h, p, k), p, k)
  {
    SplitFacts(h, p, k);
    TagsSplit(pages, pages', start, h, p, k);
  }

  lemma BuddyFacts(h: Heap, p: nat, b: nat, k: nat)
    requires Shape(h) && Merging(h, p, b, k)
    ensures b != p && h.first <= b < h.end && h.first <= p < h.end
    ensures h.first <= Lower(p, b) < h.end
    ensures Shape(MergeOnce(h, p, b, k)) && LiveBlock(MergeOnce(h, p, b, k), Lower(p, b), k + 1)
  {
    assert FreeBlock(h, b, k);
    assert Placed(h.blocks, h.first, h.end, p) && Placed(h.blocks, h.first, h.end, b);
    MergeOnceShape(h, p, b, k);
  }

  lemma MergeRep(pages: seq<Page>, pages1: seq<Page>, areas: seq<FreeArea>, areas': seq<FreeArea>, start: nat,
                 h: Heap, p: nat, b: nat, k: nat)
    requires Rep(pages, areas, start, h, p) && FreedTag(pages, start, h, p, k)
    requires Merging(h, p, b, k) && SameTags(pages, pages1)
    requires AllLinked(pages1, start, areas', h.lists[k := Without(h.lists[k], b)])
    ensures h.first <= b < h.end && h.first <= Lower(p, b) < h.end
    ensures var lo, h' := Lower(p, b), MergeOnce(h, p, b, k);
            && Rep(MergedPages(pages1, b - start, lo - start, k + 1), areas', start, h', lo)
            && FreedTag(MergedPages(pages1, b - start, lo - start, k + 1), start, h', lo, k + 1)
            && LiveBlock(h', lo, k + 1)
  {
    var lo, h' := Lower(p, b), MergeOnce(h, p, b, k);
    BuddyFacts(h, p, b, k);
    TagsMerge(pages, pages1, start, h, h', p, b, k);
    SetTagLinked(pages1, MergedPages(pages1, b - start, lo - start, k + 1), start, areas', h'.lists);
  }

  lemma PutBackRep(pages: seq<Page>, pages': seq<Page>, areas: seq<FreeArea>, areas': seq<FreeArea>, start: nat,
                   h: Heap, p: nat, k: nat)
    requires Rep(pages, areas, start, h, p) && FreedTag(pages, start, h, p, k)
    requires k <= MAX_ORDER && LiveBlock(h, p, k) && SameTags(pages, pages')
    requires AllLinked(pages', start, areas', h.lists[k := [p] + h.lists[k]])
    ensures Rep(pages', areas', start, PutBack(h, p, k), NULL)
  {
    var h' := PutBack(h, p, k);
    PutBackShape(h, p, k);
    forall g | g in h'.blocks && start <= g < h'.end ensures TagOk(pages'[g - start], h', g) {
      if g != p { assert TagOk(pages[g - start], h, g); }
    }
  }

  function UsedHeadPage(page: Page, k: nat): Page {
    page.(flags := USED_HEAD, order := k, refCount := 1)
  }

  /** Marking the block in transit as used completes an allocation. */
  lemma UsedRep(pages: seq<Page>, areas: seq<FreeArea>, start: nat, h: Heap, p: nat, k: nat)
    requires Rep(pages, areas, start, h, p) && LiveBlock(h, p, k)
    ensures h.first <= p < h.end
    ensures Rep(pages[p - start := UsedHeadPage(pages[p - start], k)], areas, start, h, NULL)
  {
    assert Placed(h.blocks, h.first, h.end, p);
    var pages' := pages[p - start := UsedHeadPage(pages[p - start], k)];
    SetTagLinked(pages, pages', start, areas, h.lists);
    forall g | g in h.blocks && start <= g < h.end ensures TagOk(pages'[g - start], h, g) {
      if g != p { assert TagOk(pages[g - start], h, g); }
    }
  }

  /** Tagging the head of a handed-out block as free puts the block in transit. */
  lemma FreedRep(pages: seq<Page>, areas: seq<FreeArea>, start: nat, h: Heap, p: nat, k: nat)
    requires Rep(pages, areas, start, h, NULL) && LiveBlock(h, p, k)
    ensures h.first <= p < h.end && TagOk(pages[p - start], h, p)
    ensures var pages', h' := pages[p - start := pages[p - start].(flags := FREE_HEAD, refCount := 0)],
                              h.(tagged := h.tagged + {p});
            Rep(pages', areas, start, h', p) && FreedTag(pages', start, h', p, k)
  {
    assert Placed(h.blocks, h.first, h.end, p);
    assert TagOk(pages[p - start], h, p);
    var pages' := pages[p - start := pages[p - start].(flags := FREE_HEAD, refCount := 0)];
    var h' := h.(tagged := h.tagged + {p});
    SetTagLinked(pages, pages', start, areas, h.lists);
    assert Shape(h');
    forall g | g in h.blocks && start <= g < h.end && g != p ensures TagOk(pages'[g - start], h', g) {
      assert TagOk(pages[g - start], h, g);
    }
  }

  /** A handed-out block may lose references as long as one is left. */
  lemma CountedRep(pages: seq<Page>, areas: seq<FreeArea>, start: nat, h: Heap, p: nat, k: nat, n: nat)
    requires Rep(pages, areas, start, h, NULL) && LiveBlock(h, p, k) && n >= 1
    ensures start <= p < start + |pages|
    ensures Rep(pages[p - start := pages[p - start].(refCount := n)], areas, start, h, NULL)
  {
    assert Placed(h.blocks, h.first, h.end, p);
    var pages' := pages[p - start := pages[p - start].(refCount := n)];
    SetTagLinked(pages, pages', start, areas, h.lists);
    forall g | g in h.blocks && start <= g < h.end ensures TagOk(pages'[g - start], h, g) {
      assert TagOk(pages[g - start], h, g);
    }
  }

  lemma AppendRep(pages: seq<Page>, pages': seq<Page>, areas: seq<FreeArea>, areas': seq<FreeArea>, start: nat,
                  h: Heap, k: nat)
    requires Rep(pages, areas, start, h, NULL) && h.live == {} && h.first <= h.end
    requires k <= MAX_ORDER && Aligned(h.end, k) && h.end + Pow2(k) <= start + |pages|
    requires var i := h.end - start;
             SameTags(pages[i := pages[i].(flags := FREE_HEAD, order := k)], pages')
    requires AllLinked(pages', start, areas', h.lists[k := [h.end] + h.lists[k]])
    ensures Rep(pages', areas', start, Append(h, k), NULL)
  {
    var h' := Append(h, k);
    AppendShape(h, k);
    forall g | g in h'.blocks && start <= g < h'.end ensures TagOk(pages'[g - start], h', g) {
      if g in h.blocks { assert Placed(h.blocks, h.first, h.end, g); }
      AppendTag(pages, pages', start, h, k, g);
    }
  }

  lemma AppendTag(pages: seq<Page>, pages': seq<Page>, start: nat, h: Heap, k: nat, g: nat)
    requires TagsOk(pages, start, h, NULL) && h.live == {} && |h.lists| == MAX_ORDER + 1 && k <= MAX_ORDER
    requires start <= h.end < start + |pages| && g in Append(h, k).blocks && start <= g <= h.end
    requires g in h.blocks ==> g < h.end
    requires SameTags(pages[h.end - start := pages[h.end - start].(flags := FREE_HEAD, order := k)], pages')
    ensures g < start + |pages'| && TagOk(pages'[g - start], Append(h, k), g)
  {
    if g != h.end { assert TagOk(pages[g - start], h, g); }
  }

  lemma EmptyRep(pages: seq<Page>, areas: seq<FreeArea>, start: nat, first: nat)
    requires 0 < start <= first <= start + |pages| && |areas| == MAX_ORDER + 1
    requires forall i | 0 <= i < first - start :: pages[i].flags == RESERVED
    requires forall k | 0 <= k <= MAX_ORDER :: areas[k] == FreeArea(NULL, 0)
    ensures Rep(pages, areas, start, EmptyHeap(first), NULL)
  {}

  /** Page structure i holds one reference less and is otherwise, like all others, as it was. */
  predicate CountedDown(pages: seq<Page>, pages': seq<Page>, i: int) {
    0 <= i < |pages| && pages[i].refCount >= 1 && pages' == pages[i := pages[i].(refCount := pages[i].refCount - 1)]
  }

  class PageAllocator {
    const startPfn: nat
    const endPfn: nat
    const memMap: array<Page>
    const freeArea: array<FreeArea>
    var freePageCount: nat
    ghost var heap: Heap

    ghost predicate Valid()
      reads this, memMap, freeArea
    {
      Represents(NULL) && Balanced(heap) && freePageCount == FreeCount(heap)
    }

    ghost predicate Represents(transit: int)
      reads this, memMap, freeArea
    {
      && heap.end == endPfn == startPfn + memMap.Length
      && Rep(memMap[..], freeArea[..], startPfn, heap, transit)
    }

    /** page_init for the page frames [start, end). */
    constructor (start: nat, end: nat)
      requires 0 < start && start + 2 <= end
      ensures Valid() && fresh(memMap) && fresh(freeArea)
      ensures startPfn == start && endPfn == end
      ensures heap == Tile(EmptyHeap(FirstManaged(start, end)), end)
      ensures freePageCount == end - FirstManaged(start, end)
    {
      startPfn, endPfn := start, end;
      memMap := new Page[end - start](_ => Page(NO_FLAGS, -1, NULL, NULL, 0));
      freeArea := new FreeArea[MAX_ORDER + 1](_ => FreeArea(NULL, 0));
      freePageCount := 0;
      var first := FirstManaged(start, end);
      heap := EmptyHeap(first);
      new;
      Reserve(first);
      EmptyRep(memMap[..], freeArea[..], start, first);
      TileLoop(first);
      TileTheorem(first, end);
    }

    /** Mark the pages in front of first, which hold mem_map, as reserved. */
    method Reserve(first: nat)
      requires startPfn <= first <= startPfn + memMap.Length
      modifies memMap
      ensures forall i | 0 <= i < first - startPfn :: memMap[i].flags == RESERVED
    {
      var pfn := startPfn;
      while pfn < first
        invariant startPfn <= pfn <= first
        invariant forall i | 0 <= i < pfn - startPfn :: memMap[i].flags == RESERVED
      {
        memMap[pfn - startPfn] := memMap[pfn - startPfn].(flags := RESERVED);
        pfn := pfn + 1;
      }
    }

    /** Add the pages from first on in the largest blocks that fit.  Order 0 always fits, so the scan
        for an order never runs out. */
    method TileLoop(first: nat)
      requires startPfn <= first <= endPfn == startPfn + memMap.Length
      requires heap == EmptyHeap(first) && Rep(memMap[..], freeArea[..], startPfn, heap, NULL) && freePageCount == 0
      modifies this`heap, this`freePageCount, memMap, freeArea
      ensures heap == Tile(EmptyHeap(first), endPfn) && heap.end == endPfn
      ensures Rep(memMap[..], freeArea[..], startPfn, heap, NULL) && freePageCount == endPfn - first
    {
      var pfn := first;
      while pfn < endPfn
        invariant first <= pfn == heap.end <= endPfn && heap.first == first && heap.live == {}
        invariant Rep(memMap[..], freeArea[..], startPfn, heap, NULL)
        invariant Tile(heap, endPfn) == Tile(EmptyHeap(first), endPfn)
        invariant freePageCount == pfn - first
      {
        var order := FindOrder(pfn);
        AppendBlock(pfn, order);
        freePageCount := freePageCount + Pow2(order);
        pfn := pfn + Pow2(order);
      }
    }

    /** The scan for the largest order that fits: at order 0 it always ends. */
    method FindOrder(pfn: nat) returns (order: nat)
      requires pfn < endPfn
      ensures order == LargestFit(pfn, endPfn, MAX_ORDER) && order <= MAX_ORDER
      ensures Aligned(pfn, order) && pfn + Pow2(order) <= endPfn
    {
      order := MAX_ORDER;
      while !(Aligned(pfn, order) && pfn + Pow2(order) <= endPfn)
        invariant order <= MAX_ORDER && LargestFit(pfn, endPfn, order) == LargestFit(pfn, endPfn, MAX_ORDER)
        decreases order
      {
        order := order - 1;
      }
    }

    /** Tag the page at the end of the tiled range as a free head and put it on its list. */
    method AppendBlock(pfn: nat, k: nat)
      requires pfn == heap.end
      requires Rep(memMap[..], freeArea[..], startPfn, heap, NULL) && heap.live == {} && heap.first <= heap.end
      requires k <= MAX_ORDER && Aligned(heap.end, k) && heap.end + Pow2(k) <= startPfn + memMap.Length
      modifies this`heap, memMap, freeArea
      ensures Rep(memMap[..], freeArea[..], startPfn, heap, NULL) && heap == Append(old(heap), k)
    {
      ghost var pages, areas, h := memMap[..], freeArea[..], heap;
      var i := pfn - startPfn;
      ghost var pages1 := pages[i := pages[i].(flags := FREE_HEAD, order := k)];
      SetTagLinked(pages, pages1, startPfn, areas, h.lists);
      memMap[i] := memMap[i].(flags := FREE_HEAD, order := k);
      assert memMap[..] == pages1;
      InvLists(h);
      AppendShape(h, k);
      forall j: nat | j < |h.lists| ensures h.end !in h.lists[j] {
        assert !FreeBlock(h, h.end, j);
      }
      ListAdd(k, pfn);
      AppendRep(pages, memMap[..], areas, freeArea[..], startPfn, h, k);
      heap := Append(h, k);
    }

    method ListAdd(k: nat, page: nat)
      requires AllLinked(memMap[..], startPfn, freeArea[..], heap.lists) && ListsApart(heap.lists)
      requires k < |heap.lists| && startPfn <= page < startPfn + memMap.Length
      requires forall j | 0 <= j < |heap.lists| :: page !in heap.lists[j]
      modifies memMap, freeArea
      ensures AllLinked(memMap[..], startPfn, freeArea[..], heap.lists[k := [page] + heap.lists[k]])
      ensures SameTags(old(memMap[..]), memMap[..])
    {
      ghost var pages, areas := memMap[..], freeArea[..];
      AddLinked(pages, startPfn, areas, heap.lists, k, page);
      memMap[page - startPfn] := memMap[page - startPfn].(prev := NULL, next := freeArea[k].freeList);
      if freeArea[k].freeList != NULL {
        var head := freeArea[k].freeList;
        memMap[head - startPfn] := memMap[head - startPfn].(prev := page);
      }
      freeArea[k] := FreeArea(page, freeArea[k].nrFree + 1);
      assert memMap[..] == LinkFront(pages, startPfn, areas[k].freeList, page);
      assert freeArea[..] == areas[k := FreeArea(page, areas[k].nrFree + 1)];
    }

    method ListDel(k: nat, page: nat)
      requires AllLinked(memMap[..], startPfn, freeArea[..], heap.lists) && ListsApart(heap.lists)
      requires k < |heap.lists| && page in heap.lists[k]
      modifies memMap, freeArea
      ensures AllLinked(memMap[..], startPfn, freeArea[..], heap.lists[k := Without(heap.lists[k], page)])
      ensures SameTags(old(memMap[..]), memMap[..])
    {
      ghost var pages, areas := memMap[..], freeArea[..];
      DelLinked(pages, startPfn, areas, heap.lists, k, page);
      var pg := memMap[page - startPfn];
      var head := freeArea[k].freeList;
      if pg.prev != NULL {
        memMap[pg.prev - startPfn] := memMap[pg.prev - startPfn].(next := pg.next);
      } else {
        head := pg.next;
      }
      if pg.next != NULL {
        memMap[pg.next - startPfn] := memMap[pg.next - startPfn].(prev := pg.prev);
      }
      memMap[page - startPfn] := memMap[page - startPfn].(next := NULL, prev := NULL);
      freeArea[k] := FreeArea(head, freeArea[k].nrFree - 1);
      assert memMap[..] == Unlink(pages, startPfn, page);
    }

    /** Remove the front block of free_area[k]. */
    method TakeFront(k: nat) returns (page: nat)
      requires Represents(NULL) && k <= MAX_ORDER && heap.lists[k] != []
      modifies this`heap, memMap, freeArea
      ensures page == old(heap).lists[k][0] && heap == Take(old(heap), k)
      ensures Represents(page) && LiveBlock(heap, page, k)
    {
      ghost var pages, areas, h := memMap[..], freeArea[..], heap;
      InvLists(heap);
      HeadInRange(memMap[..], startPfn, freeArea[..], heap.lists, k);
      page := freeArea[k].freeList;
      ListDel(k, page);
      TakeRep(pages, memMap[..], areas, freeArea[..], startPfn, h, k);
      heap := Take(h, k);
    }

    /** One round of the splitting loop: the upper half of the block becomes free. */
    method SplitRound(page: nat, k: nat)
      requires Represents(page) && k < MAX_ORDER && LiveBlock(heap, page, k + 1)
      modifies this`heap, memMap, freeArea
      ensures heap == SplitOnce(old(heap), page, k)
      ensures Represents(page) && LiveBlock(heap, page, k)
    {
      ghost var pages, areas, h := memMap[..], freeArea[..], heap;
      InvLists(heap);
      SplitFacts(heap, page, k);
      var buddy := page + Pow2(k);
      ghost var pages1 := pages[buddy - startPfn := FreeHeadPage(pages[buddy - startPfn], k)];
      SetTagLinked(pages, pages1, startPfn, freeArea[..], heap.lists);
      memMap[buddy - startPfn] := memMap[buddy - startPfn].(flags := FREE_HEAD, order := k, refCount := 0);
      assert memMap[..] == pages1;
      ListAdd(k, buddy);
      SplitRep(pages, memMap[..], areas, freeArea[..], startPfn, h, page, k);
      heap := SplitOnce(h, page, k);
    }

    /** Split the block down to the requested order. */
    method SplitLoop(page: nat, k: nat, order: nat)
      requires Represents(page) && order <= k <= MAX_ORDER && LiveBlock(heap, page, k)
      modifies this`heap, memMap, freeArea
      ensures heap == SplitDown(old(heap), page, k, order)
      ensures Represents(page) && LiveBlock(heap, page, order)
    {
      var cur := k;
      while cur > order
        invariant order <= cur <= MAX_ORDER
        invariant Represents(page) && LiveBlock(heap, page, cur)
        invariant SplitDown(heap, page, cur, order) == SplitDown(old(heap), page, k, order)
      {
        cur := cur - 1;
        SplitRound(page, cur);
      }
    }

    method MarkUsed(page: nat, order: nat)
      requires Represents(page) && LiveBlock(heap, page, order)
      modifies memMap
      ensures Represents(NULL) && startPfn <= page
    {
      ghost var pages := memMap[..];
      UsedRep(pages, freeArea[..], startPfn, heap, page, order);
      memMap[page - startPfn] := memMap[page - startPfn].(flags := USED_HEAD, order := order, refCount := 1);
      assert memMap[..] == pages[page - startPfn := UsedHeadPage(pages[page - startPfn], order)];
    }

    /** alloc_pages: the physical address of a block of 2^order pages, or 0. */
    method AllocPages(order: int) returns (addr: nat)
      requires Valid()
      modifies this`heap, this`freePageCount, memMap, freeArea
      ensures Valid()
      ensures heap == BuddySpec.AllocPages(old(heap), order).0
      ensures match BuddySpec.AllocPages(old(heap), order).1
              case None => addr == 0
              case Some(p) => addr == p * PAGE_SIZE && addr != 0
    {
      if order < 0 || order > MAX_ORDER { return 0; }
      var cur := order;
      while cur <= MAX_ORDER
        invariant order <= cur <= MAX_ORDER + 1
        invariant Valid() && heap == old(heap)
        invariant FirstFit(heap.lists, order) == FirstFit(heap.lists, cur)
      {
        HeadInRange(memMap[..], startPfn, freeArea[..], heap.lists, cur);
        if freeArea[cur].freeList != NULL {
          var page := Carve(cur, order);
          return page * PAGE_SIZE;
        }
        cur := cur + 1;
      }
      return 0;
    }

    /** Take the first block of order cur, split it down to the order asked for and mark it used. */
    method Carve(cur: nat, order: nat) returns (page: nat)
      requires Valid() && order <= cur <= MAX_ORDER && FirstFit(heap.lists, order) == Some(cur)
      modifies this`heap, this`freePageCount, memMap, freeArea
      ensures Valid() && (heap, Some(page)) == BuddySpec.AllocPages(old(heap), order) && page != 0
    {
      AllocCount(heap, order, cur);
      page := TakeFront(cur);
      SplitLoop(page, cur, order);
      MarkUsed(page, order);
      freePageCount := freePageCount - Pow2(order);
    }

    /** One round of the merging loop, once the buddy's tags have passed the test. */
    method MergeRound(page: nat, buddy: nat, k: nat) returns (head: nat)
      requires Represents(page) && FreedTag(memMap[..], startPfn, heap, page, k)
      requires Merging(heap, page, buddy, k)
      modifies this`heap, memMap, freeArea
      ensures head == Lower(page, buddy) && heap == MergeOnce(old(heap), page, buddy, k)
      ensures Represents(head) && FreedTag(memMap[..], startPfn, heap, head, k + 1)
      ensures LiveBlock(heap, head, k + 1)
    {
      ghost var pages, areas, h := memMap[..], freeArea[..], heap;
      InvLists(heap);
      ListDel(k, buddy);
      ghost var pages1 := memMap[..];
      MergeRep(pages, pages1, areas, freeArea[..], startPfn, h, page, buddy, k);
      memMap[buddy - startPfn] := memMap[buddy - startPfn].(flags := NO_FLAGS, order := -1);
      head := if buddy < page then buddy else page;
      memMap[head - startPfn] := memMap[head - startPfn].(order := k + 1);
      assert memMap[..] == MergedPages(pages1, buddy - startPfn, head - startPfn, k + 1);
      heap := MergeOnce(h, page, buddy, k);
    }

    /** The calls that free_pages turns away. */
    predicate Rejects(addr: nat, order: int)
      reads memMap
      requires endPfn == startPfn + memMap.Length
    {
      || addr == 0 || order < 0 || order > MAX_ORDER
      || addr / PAGE_SIZE < startPfn || addr / PAGE_SIZE >= endPfn
      || !memMap[addr / PAGE_SIZE - startPfn].flags.head
    }

    method PutLast(page: nat, k: nat)
      requires Represents(page) && FreedTag(memMap[..], startPfn, heap, page, k)
      requires k <= MAX_ORDER && LiveBlock(heap, page, k)
      modifies this`heap, memMap, freeArea
      ensures Represents(NULL) && heap == PutBack(old(heap), page, k)
    {
      ghost var pages, areas, h := memMap[..], freeArea[..], heap;
      InvLists(heap);
      forall j: nat | j < |heap.lists| ensures page !in heap.lists[j] {
        assert !FreeBlock(heap, page, j);
      }
      ListAdd(k, page);
      PutBackRep(pages, memMap[..], areas, freeArea[..], startPfn, h, page, k);
      heap := PutBack(h, page, k);
    }

    /** Drop one reference; when it was the last, tag the head as free. */
    method DropReference(page: nat, k: nat) returns (last: bool)
      requires Represents(NULL) && LiveBlock(heap, page, k)
      modifies this`heap, memMap
      ensures startPfn <= page < endPfn && (last <==> old(memMap[page - startPfn].refCount) == 1)
      ensures last ==> heap == old(heap).(tagged := old(heap).tagged + {page})
      ensures last ==> Represents(page) && FreedTag(memMap[..], startPfn, heap, page, k) && LiveBlock(heap, page, k)
      ensures !last ==>
                heap == old(heap) && Represents(NULL) && CountedDown(old(memMap[..]), memMap[..], page - startPfn)
    {
      ghost var pages := memMap[..];
      FreedRep(pages, freeArea[..], startPfn, heap, page, k);
      var i := page - startPfn;
      assert TagOk(memMap[i], heap, page);
      if memMap[i].refCount > 1 { CountedRep(pages, freeArea[..], startPfn, heap, page, k, memMap[i].refCount - 1); }
      if memMap[i].refCount > 0 {
        memMap[i] := memMap[i].(refCount := memMap[i].refCount - 1);
        if memMap[i].refCount > 0 {
          assert memMap[..] == pages[i := pages[i].(refCount := pages[i].refCount - 1)];
          return false;
        }
      }
      memMap[i] := memMap[i].(flags := FREE_HEAD);
      assert memMap[..] == pages[i := pages[i].(flags := FREE_HEAD, refCount := 0)];
      heap := heap.(tagged := heap.tagged + {page});
      return true;
    }

    /** The test on the buddy's tags: it is there, free and of the same order. */
    method TestBuddy(page: nat, k: nat) returns (mergeable: bool)
      requires Represents(page) && LiveBlock(heap, page, k) && k < MAX_ORDER
      ensures mergeable <==> CanMerge(heap, BuddyOf(page, k), k)
    {
      TagTestSound(memMap[..], startPfn, heap, page, k);
      var buddy := BuddyOf(page, k);
      return startPfn <= buddy < endPfn && memMap[buddy - startPfn].flags.free && memMap[buddy - startPfn].order == k;
    }

    /** Merge with free buddies as long as their tags allow, then put the block on its free list. */
    method Coalesce(p: nat, order: nat)
      requires Represents(p) && FreedTag(memMap[..], startPfn, heap, p, order)
      requires order <= MAX_ORDER && LiveBlock(heap, p, order)
      modifies this`heap, memMap, freeArea
      ensures Represents(NULL) && heap == MergeUp(old(heap), p, order)
    {
      var page, k := p, order;
      while k < MAX_ORDER
        invariant order <= k <= MAX_ORDER
        invariant Represents(page) && FreedTag(memMap[..], startPfn, heap, page, k) && LiveBlock(heap, page, k)
        invariant MergeUp(heap, page, k) == MergeUp(old(heap), p, order)
      {
        var merged, head := MergeBuddy(page, k);
        if !merged { break; }
        page, k := head, k + 1;
      }
      PutLast(page, k);
    }

    /** One round of the loop: merge with the buddy if its tags allow. */
    method MergeBuddy(page: nat, k: nat) returns (merged: bool, head: nat)
      requires Represents(page) && FreedTag(memMap[..], startPfn, heap, page, k) && LiveBlock(heap, page, k)
               && k < MAX_ORDER
      modifies this`heap, memMap, freeArea
      ensures !merged ==> heap == old(heap) && memMap[..] == old(memMap[..]) && freeArea[..] == old(freeArea[..])
      ensures !merged ==> !CanMerge(heap, BuddyOf(page, k), k)
      ensures merged ==>
                Represents(head) && FreedTag(memMap[..], startPfn, heap, head, k + 1) && LiveBlock(heap, head, k + 1)
      ensures merged ==> MergeUp(heap, head, k + 1) == MergeUp(old(heap), page, k)
    {
      merged := TestBuddy(page, k);
      head := page;
      if merged {
        BuddyMerges(heap, page, k);
        head := MergeRound(page, BuddyOf(page, k), k);
      }
    }

    /** free_pages: rejected calls change nothing; any other must name a handed-out block with its own
        order.  A reference that is not the last is only counted; the last one gives the block back. */
    method FreePages(addr: nat, order: int)
      requires Valid()
      requires Rejects(addr, order) || LiveBlock(heap, addr / PAGE_SIZE, order)
      modifies this`heap, this`freePageCount, memMap, freeArea
      ensures Valid()
      ensures old(Rejects(addr, order)) ==>
                && heap == old(heap) && freePageCount == old(freePageCount)
                && memMap[..] == old(memMap[..]) && freeArea[..] == old(freeArea[..])
      ensures !old(Rejects(addr, order)) ==>
                if old(memMap[addr / PAGE_SIZE - startPfn].refCount) > 1
                then && heap == old(heap) && freePageCount == old(freePageCount) && freeArea[..] == old(freeArea[..])
                     && CountedDown(old(memMap[..]), memMap[..], addr / PAGE_SIZE - startPfn)
                else heap == BuddySpec.FreePages(old(heap), addr / PAGE_SIZE, order)
    {
      if addr == 0 || order < 0 || order > MAX_ORDER { return; }
      var page := addr / PAGE_SIZE;
      if page < startPfn || page >= endPfn || !memMap[page - startPfn].flags.head { return; }
      FreeTheorem(heap, page, order);
      var last := DropReference(page, order);
      if !last { return; }
      freePageCount := freePageCount + Pow2(order);
      Coalesce(page, order);
    }
  }
}
