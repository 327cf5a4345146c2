/** Abstract buddy heap: which blocks exist, which are handed out, the order of each free list, and
    which free heads carry the FREE tag.  AllocPages and FreePages are what the page allocator must
    compute; here each of them is proved to keep the heap well formed. */
module BuddySpec {
  import opened Powers
  import opened BuddyGeometry
  import opened Lists

  const MAX_ORDER: nat := 11

  datatype Heap = Heap(
    first: nat,                  // first page frame given to the buddy system
    end: nat,                    // one past the last page frame
    blocks: map<nat, nat>,       // head page frame -> order, for free and handed-out blocks alike
    live: set<nat>,              // heads of the handed-out blocks
    lists: seq<seq<nat>>,        // free_area[k].free_list, front first
    tagged: set<nat>             // free heads whose page carries PG_FREE
  )

  // ----- invariant

  ghost predicate Covers(blocks: map<nat, nat>, h: nat, x: nat) {
    h in blocks && h <= x < h + Pow2(blocks[h])
  }

  ghost predicate Placed(blocks: map<nat, nat>, first: nat, end: nat, h: nat)
    requires h in blocks
  {
    blocks[h] <= MAX_ORDER && Aligned(h, blocks[h]) && first <= h && h + Pow2(blocks[h]) <= end
  }

  ghost predicate Apart(blocks: map<nat, nat>, g: nat, h: nat)
    requires g in blocks && h in blocks
  {
    g + Pow2(blocks[g]) <= h || h + Pow2(blocks[h]) <= g
  }

  ghost predicate Covered(blocks: map<nat, nat>, x: nat) {
    exists h :: Covers(blocks, h, x)
  }

  ghost predicate AllPlaced(blocks: map<nat, nat>, first: nat, end: nat) {
    forall h {:trigger Placed(blocks, first, end, h)} | h in blocks :: Placed(blocks, first, end, h)
  }

  ghost predicate AllApart(blocks: map<nat, nat>) {
    forall g, h {:trigger Apart(blocks, g, h)} | g in blocks && h in blocks && g != h :: Apart(blocks, g, h)
  }

  ghost predicate AllCovered(blocks: map<nat, nat>, first: nat, end: nat) {
    forall x {:trigger Covered(blocks, x)} | first <= x < end :: Covered(blocks, x)
  }

  /** The blocks are aligned, pairwise disjoint and cover [first, end) exactly. */
  ghost predicate Partition(blocks: map<nat, nat>, first: nat, end: nat) {
    AllPlaced(blocks, first, end) && AllApart(blocks) && AllCovered(blocks, first, end)
  }

  predicate FreeBlock(h: Heap, p: nat, k: nat) {
    p in h.blocks && h.blocks[p] == k && p !in h.live
  }

  predicate LiveBlock(h: Heap, p: nat, k: nat) {
    p in h.blocks && h.blocks[p] == k && p in h.live
  }

  /** free_area[k] lists, without repetition, exactly the blocks of order k that are not handed out. */
  ghost predicate ListsMatch(h: Heap) {
    && |h.lists| == MAX_ORDER + 1
    && (forall k | 0 <= k <= MAX_ORDER :: NoDup(h.lists[k]))
    && (forall k: nat, p: nat {:trigger FreeBlock(h, p, k)} {:trigger p in h.lists[k]} |
         k <= MAX_ORDER :: p in h.lists[k] <==> FreeBlock(h, p, k))
  }

  ghost predicate Balanced(h: Heap) {
    h.live <= h.blocks.Keys && FreeCount(h) + LiveCount(h.blocks, h.live) == h.end - h.first
  }

  ghost predicate Shape(h: Heap) {
    Partition(h.blocks, h.first, h.end) && ListsMatch(h) && h.live <= h.blocks.Keys
  }

  ghost predicate Inv(h: Heap) {
    Shape(h) && Balanced(h)
  }

  // ----- page counts

  function ListPages(lists: seq<seq<nat>>): (n: nat) {
    if lists == [] then 0 else ListPages(lists[..|lists| - 1]) + |lists[|lists| - 1]| * Pow2(|lists| - 1)
  }

  function FreeCount(h: Heap): (n: nat) { ListPages(h.lists) }

  ghost function LiveCount(blocks: map<nat, nat>, live: set<nat>): (n: nat)
    requires live <= blocks.Keys
  {
    if live == {} then 0 else
      var h :| h in live;
      Pow2(blocks[h]) + LiveCount(blocks, live - {h})
  }

  lemma {:induction false} ListPagesGrow(lists: seq<seq<nat>>, k: nat, l: seq<nat>)
    requires k < |lists| && |l| == |lists[k]| + 1
    ensures ListPages(lists[k := l]) == ListPages(lists) + Pow2(k)
  {
    var n := |lists| - 1;
    var lists' := lists[k := l];
    if k == n {
      assert lists'[..n] == lists[..n];
      assert |l| * Pow2(k) == |lists[k]| * Pow2(k) + Pow2(k);
    } else {
      assert lists'[..n] == lists[..n][k := l];
      ListPagesGrow(lists[..n], k, l);
    }
  }

  lemma {:induction false} LiveCountRemove(blocks: map<nat, nat>, live: set<nat>, x: nat)
    requires live <= blocks.Keys && x in live
    ensures LiveCount(blocks, live) == Pow2(blocks[x]) + LiveCount(blocks, live - {x})
    decreases live
  {
    var h :| h in live && LiveCount(blocks, live) == Pow2(blocks[h]) + LiveCount(blocks, live - {h});
    if h != x {
      LiveCountRemove(blocks, live - {h}, x);
      LiveCountRemove(blocks, live - {x}, h);
      assert live - {h} - {x} == live - {x} - {h};
    }
  }

  lemma {:induction false} LiveCountSame(blocks: map<nat, nat>, blocks': map<nat, nat>, live: set<nat>)
    requires live <= blocks.Keys && live <= blocks'.Keys
    requires forall p | p in live :: blocks[p] == blocks'[p]
    ensures LiveCount(blocks, live) == LiveCount(blocks', live)
    decreases live
  {
    if live != {} {
      var h :| h in live;
      LiveCountRemove(blocks, live, h);
      LiveCountRemove(blocks', live, h);
      LiveCountSame(blocks, blocks', live - {h});
    }
  }

  // ----- splitting and merging keep the partition

  function Halved(blocks: map<nat, nat>, p: nat, k: nat): map<nat, nat> {
    blocks[p := k][p + Pow2(k) := k]
  }

  function Joined(blocks: map<nat, nat>, p: nat, k: nat): map<nat, nat> {
    (blocks - {p + Pow2(k)})[p := k + 1]
  }

  lemma SplitPartition(blocks: map<nat, nat>, first: nat, end: nat, p: nat, k: nat)
    requires Partition(blocks, first, end)
    requires p in blocks && blocks[p] == k + 1
    ensures p + Pow2(k) !in blocks
    ensures Partition(Halved(blocks, p, k), first, end)
  {
    var q := p + Pow2(k);
    var b' := Halved(blocks, p, k);
    assert Placed(blocks, first, end, p);
    Halves(p, k);
    assert q in blocks ==> Apart(blocks, p, q);
    assert AllPlaced(b', first, end) by {
      forall h | h in b' ensures Placed(b', first, end, h) {
        if h != p && h != q { assert Placed(blocks, first, end, h); }
      }
    }
    assert AllApart(b') by { SplitApart(blocks, p, k); }
    forall x: nat | first <= x < end ensures Covered(b', x) {
      assert Covered(blocks, x);
      var h: nat :| Covers(blocks, h, x);
      assert Covers(b', if h == p && x >= q then q else h, x);
    }
  }

  lemma SplitApart(blocks: map<nat, nat>, p: nat, k: nat)
    requires AllApart(blocks) && p in blocks && blocks[p] == k + 1 && p + Pow2(k) !in blocks
    ensures AllApart(Halved(blocks, p, k))
  {
    var q := p + Pow2(k);
    var b' := Halved(blocks, p, k);
    forall g, h | g in b' && h in b' && g != h ensures Apart(b', g, h) {
      var g0, h0 := if g == q then p else g, if h == q then p else h;
      if g0 != h0 { assert Apart(blocks, g0, h0); }
    }
  }

  lemma MergePartition(blocks: map<nat, nat>, first: nat, end: nat, p: nat, k: nat)
    requires Partition(blocks, first, end) && k < MAX_ORDER
    requires p in blocks && blocks[p] == k && Aligned(p, k + 1)
    requires p + Pow2(k) in blocks && blocks[p + Pow2(k)] == k
    ensures Partition(Joined(blocks, p, k), first, end)
  {
    var q := p + Pow2(k);
    var b' := Joined(blocks, p, k);
    assert Placed(blocks, first, end, p) && Placed(blocks, first, end, q);
    assert AllPlaced(b', first, end) by {
      forall h | h in b' ensures Placed(b', first, end, h) {
        if h != p { assert Placed(blocks, first, end, h); }
      }
    }
    assert AllApart(b') by { MergeApart(blocks, p, k); }
    forall x: nat | first <= x < end ensures Covered(b', x) {
      assert Covered(blocks, x);
      var h: nat :| Covers(blocks, h, x);
      assert Covers(b', if h == q then p else h, x);
    }
  }

  lemma MergeApart(blocks: map<nat, nat>, p: nat, k: nat)
    requires AllApart(blocks) && p in blocks && blocks[p] == k
    requires p + Pow2(k) in blocks && blocks[p + Pow2(k)] == k
    ensures AllApart(Joined(blocks, p, k))
  {
    var q := p + Pow2(k);
    var b' := Joined(blocks, p, k);
    forall g, h | g in b' && h in b' && g != h ensures Apart(b', g, h) {
      assert Apart(blocks, g, h);
      if g == p { assert Apart(blocks, q, h); }
      if h == p { assert Apart(blocks, g, q); }
    }
  }

  /** The geometric heart of coalescing: no block other than a head at the buddy's own address can
      contain the buddy of an existing block.  Tags of interior pages play no part. */
  lemma BuddyIsNeverInterior(blocks: map<nat, nat>, first: nat, end: nat, p: nat, h: nat)
    requires Partition(blocks, first, end)
    requires p in blocks && Covers(blocks, h, BuddyOf(p, blocks[p]))
    ensures h == BuddyOf(p, blocks[p])
  {
    var k := blocks[p];
    var b := BuddyOf(p, k);
    assert Placed(blocks, first, end, p) && Placed(blocks, first, end, h);
    BuddyPair(p, k);
    assert h != p ==> Apart(blocks, p, h);
    if h != b {
      if blocks[h] <= k {
        NestedOrDisjoint(h, blocks[h], b, k);
      } else {
        var lo := if p < b then p else b;
        AlignedWeaken(h, k + 1, blocks[h]);
        NestedOrDisjoint(lo, k + 1, h, blocks[h]);
      }
      assert false;
    }
  }

  // ----- the operations

  /** Unlink the front block of free_area[k]; from here on it counts as handed out. */
  function Take(h: Heap, k: nat): Heap
    requires k < |h.lists| && h.lists[k] != []
  {
    var p := h.lists[k][0];
    h.(lists := h.lists[k := h.lists[k][1..]], live := h.live + {p}, tagged := h.tagged - {p})
  }

  /** Give the upper half of the handed-out block p, of order k + 1, back to free_area[k]. */
  function SplitOnce(h: Heap, p: nat, k: nat): Heap
    requires k < |h.lists|
  {
    var q := p + Pow2(k);
    h.(blocks := Halved(h.blocks, p, k), lists := h.lists[k := [q] + h.lists[k]], tagged := h.tagged + {q})
  }

  function SplitDown(h: Heap, p: nat, k: nat, order: nat): Heap
    requires order <= k <= |h.lists|
    decreases k
  {
    if k == order then h else SplitDown(SplitOnce(h, p, k - 1), p, k - 1, order)
  }

  /** alloc_pages: the new heap and the head of the block handed out, if there is one. */
  function AllocPages(h: Heap, order: int): (Heap, Option<nat>)
    requires |h.lists| == MAX_ORDER + 1
  {
    if order < 0 || order > MAX_ORDER then (h, None) else
      match FirstFit(h.lists, order)
      case None => (h, None)
      case Some(k) =>
        var p := h.lists[k][0];
        (SplitDown(Take(h, k), p, k, order), Some(p))
  }

  /** The buddy b of a block of order k is merged exactly when it is on free_area[k] and tagged. */
  predicate CanMerge(h: Heap, b: nat, k: nat)
    requires |h.lists| == MAX_ORDER + 1
  {
    k < MAX_ORDER && b in h.lists[k] && b in h.tagged
  }

  function Lower(p: nat, b: nat): nat {
    if b < p then b else p
  }

  /** Merge the block p being freed with its buddy b; the lower half becomes the head.  When that is
      the buddy, the head has lost its tag. */
  function MergeOnce(h: Heap, p: nat, b: nat, k: nat): Heap
    requires |h.lists| == MAX_ORDER + 1 && CanMerge(h, b, k)
  {
    h.(blocks := Joined(h.blocks, Lower(p, b), k),
       live := h.live - {p} + {Lower(p, b)},
       lists := h.lists[k := Without(h.lists[k], b)],
       tagged := if b < p then h.tagged - {b, p} else h.tagged - {b})
  }

  function PutBack(h: Heap, p: nat, k: nat): Heap
    requires k < |h.lists|
  {
    h.(lists := h.lists[k := [p] + h.lists[k]], live := h.live - {p})
  }

  function MergeUp(h: Heap, p: nat, k: nat): Heap
    requires |h.lists| == MAX_ORDER + 1 && k <= MAX_ORDER
    decreases MAX_ORDER - k
  {
    var b := BuddyOf(p, k);
    if CanMerge(h, b, k) then MergeUp(MergeOnce(h, p, b, k), Lower(p, b), k + 1)
    else PutBack(h, p, k)
  }

  /** free_pages on a handed-out block p of order k. */
  function FreePages(h: Heap, p: nat, k: nat): Heap
    requires |h.lists| == MAX_ORDER + 1 && k <= MAX_ORDER
  {
    MergeUp(h.(tagged := h.tagged + {p}), p, k)
  }

  // ----- every step keeps the invariant

  lemma ListPrepend(h: Heap, h': Heap, k: nat, q: nat)
    requires ListsMatch(h) && k <= MAX_ORDER
    requires h'.lists == h.lists[k := [q] + h.lists[k]] && !FreeBlock(h, q, k)
    requires forall p: nat, j: nat :: FreeBlock(h', p, j) <==> FreeBlock(h, p, j) || (p == q && j == k)
    ensures ListsMatch(h')
  {
    assert q !in h.lists[k];
    forall j: nat, p: nat | j <= MAX_ORDER ensures p in h'.lists[j] <==> FreeBlock(h', p, j) {
      assert p in h.lists[j] <==> FreeBlock(h, p, j);
    }
  }

  lemma ListDelete(h: Heap, h': Heap, k: nat, q: nat)
    requires ListsMatch(h) && k <= MAX_ORDER && q in h.lists[k]
    requires h'.lists == h.lists[k := Without(h.lists[k], q)]
    requires forall p: nat, j: nat :: FreeBlock(h', p, j) <==> FreeBlock(h, p, j) && !(p == q && j == k)
    ensures ListsMatch(h')
  {
    WithoutProps(h.lists[k], q);
    forall j: nat, p: nat | j <= MAX_ORDER ensures p in h'.lists[j] <==> FreeBlock(h', p, j) {
      assert p in h.lists[j] <==> FreeBlock(h, p, j);
    }
  }

  lemma PrependPages(lists: seq<seq<nat>>, k: nat, q: nat)
    requires k < |lists|
    ensures ListPages(lists[k := [q] + lists[k]]) == ListPages(lists) + Pow2(k)
  {
    ListPagesGrow(lists, k, [q] + lists[k]);
  }

  lemma DeletePages(lists: seq<seq<nat>>, k: nat, q: nat)
    requires k < |lists| && q in lists[k] && NoDup(lists[k])
    ensures ListPages(lists[k := Without(lists[k], q)]) == ListPages(lists) - Pow2(k)
  {
    var lists' := lists[k := Without(lists[k], q)];
    assert lists'[k := lists[k]] == lists;
    ListPagesGrow(lists', k, lists[k]);
  }

  lemma TakeShape(h: Heap, k: nat)
    requires Shape(h) && k <= MAX_ORDER && h.lists[k] != []
    ensures Shape(Take(h, k)) && LiveBlock(Take(h, k), h.lists[k][0], k)
  {
    var p := h.lists[k][0];
    assert p in h.lists[k];
    assert Without(h.lists[k], p) == h.lists[k][1..];
    ListDelete(h, Take(h, k), k, p);
  }

  lemma TakeInv(h: Heap, k: nat)
    requires Inv(h) && k <= MAX_ORDER && h.lists[k] != []
    ensures Inv(Take(h, k)) && LiveBlock(Take(h, k), h.lists[k][0], k)
    ensures FreeCount(Take(h, k)) == FreeCount(h) - Pow2(k)
  {
    var p := h.lists[k][0];
    var h' := Take(h, k);
    TakeShape(h, k);
    assert p in h.lists[k];
    assert Without(h.lists[k], p) == h.lists[k][1..];
    DeletePages(h.lists, k, p);
    LiveCountRemove(h.blocks, h'.live, p);
    assert h'.live - {p} == h.live;
  }

  lemma SplitOnceShape(h: Heap, p: nat, k: nat)
    requires Shape(h) && k < MAX_ORDER && LiveBlock(h, p, k + 1)
    ensures Shape(SplitOnce(h, p, k)) && LiveBlock(SplitOnce(h, p, k), p, k)
    ensures p + Pow2(k) !in h.blocks
  {
    SplitPartition(h.blocks, h.first, h.end, p, k);
    ListPrepend(h, SplitOnce(h, p, k), k, p + Pow2(k));
  }

  lemma SplitOnceCount(h: Heap, p: nat, k: nat)
    requires h.live <= h.blocks.Keys && k < |h.lists| && LiveBlock(h, p, k + 1) && p + Pow2(k) !in h.blocks
    ensures var h' := SplitOnce(h, p, k);
            && FreeCount(h') == FreeCount(h) + Pow2(k)
            && h'.live <= h'.blocks.Keys && LiveCount(h'.blocks, h'.live) + Pow2(k) == LiveCount(h.blocks, h.live)
  {
    PrependPages(h.lists, k, p + Pow2(k));
    HalvedCount(h.blocks, h.live, p, k);
  }

  lemma HalvedCount(blocks: map<nat, nat>, live: set<nat>, p: nat, k: nat)
    requires live <= blocks.Keys && p in live && blocks[p] == k + 1 && p + Pow2(k) !in blocks
    ensures var blocks' := Halved(blocks, p, k);
            live <= blocks'.Keys && LiveCount(blocks', live) + Pow2(k) == LiveCount(blocks, live)
  {
    var blocks' := Halved(blocks, p, k);
    LiveCountRemove(blocks, live, p);
    LiveCountRemove(blocks', live, p);
    LiveCountSame(blocks, blocks', live - {p});
  }

  /** p is a block being freed and b its buddy, which is about to be merged. */
  ghost predicate Merging(h: Heap, p: nat, b: nat, k: nat) {
    && |h.lists| == MAX_ORDER + 1 && k < MAX_ORDER
    && LiveBlock(h, p, k) && CanMerge(h, b, k) && Halfmates(p, b, k)
  }

  lemma MergeOnceShape(h: Heap, p: nat, b: nat, k: nat)
    requires Shape(h) && Merging(h, p, b, k)
    ensures Shape(MergeOnce(h, p, b, k)) && LiveBlock(MergeOnce(h, p, b, k), Lower(p, b), k + 1)
  {
    assert FreeBlock(h, b, k);
    MergePartition(h.blocks, h.first, h.end, Lower(p, b), k);
    ListDelete(h, MergeOnce(h, p, b, k), k, b);
  }

  lemma MergeOnceInv(h: Heap, p: nat, b: nat, k: nat)
    requires Inv(h) && Merging(h, p, b, k)
    ensures Inv(MergeOnce(h, p, b, k)) && LiveBlock(MergeOnce(h, p, b, k), Lower(p, b), k + 1)
    ensures FreeCount(MergeOnce(h, p, b, k)) == FreeCount(h) - Pow2(k)
  {
    MergeOnceShape(h, p, b, k);
    assert FreeBlock(h, b, k);
    DeletePages(h.lists, k, b);
    MergeOnceLive(h, MergeOnce(h, p, b, k), p, b, k);
  }

  lemma MergeOnceLive(h: Heap, h': Heap, p: nat, b: nat, k: nat)
    requires h.live <= h.blocks.Keys && LiveBlock(h, p, k) && FreeBlock(h, b, k) && Halfmates(p, b, k)
    requires h'.blocks == Joined(h.blocks, Lower(p, b), k) && h'.live == h.live - {p} + {Lower(p, b)}
    ensures h'.live <= h'.blocks.Keys
    ensures LiveCount(h'.blocks, h'.live) == LiveCount(h.blocks, h.live) + Pow2(k)
  {
    var lo := Lower(p, b);
    LiveCountRemove(h.blocks, h.live, p);
    LiveCountRemove(h'.blocks, h'.live, lo);
    assert h.live - {p} == h'.live - {lo};
    LiveCountSame(h.blocks, h'.blocks, h.live - {p});
  }

  lemma BuddyMerges(h: Heap, p: nat, k: nat)
    requires Shape(h) && k < MAX_ORDER && LiveBlock(h, p, k) && CanMerge(h, BuddyOf(p, k), k)
    ensures Merging(h, p, BuddyOf(p, k), k)
  {
    assert Placed(h.blocks, h.first, h.end, p);
    BuddyPair(p, k);
  }

  lemma PutBackShape(h: Heap, p: nat, k: nat)
    requires Shape(h) && k <= MAX_ORDER && LiveBlock(h, p, k)
    ensures Shape(PutBack(h, p, k)) && FreeBlock(PutBack(h, p, k), p, k)
  {
    ListPrepend(h, PutBack(h, p, k), k, p);
  }

  lemma PutBackInv(h: Heap, p: nat, k: nat)
    requires Inv(h) && k <= MAX_ORDER && LiveBlock(h, p, k)
    ensures Inv(PutBack(h, p, k)) && FreeBlock(PutBack(h, p, k), p, k)
    ensures FreeCount(PutBack(h, p, k)) == FreeCount(h) + Pow2(k)
  {
    PutBackShape(h, p, k);
    PrependPages(h.lists, k, p);
    LiveCountRemove(h.blocks, h.live, p);
  }

  // ----- the operations keep the invariant, hand out fresh memory and account for every page

  /** Handed-out blocks other than p are the same in both heaps. */
  ghost predicate SameOthers(h: Heap, h': Heap, p: nat) {
    forall q: nat, k: nat {:trigger LiveBlock(h', q, k)} {:trigger LiveBlock(h, q, k)} |
      q != p :: LiveBlock(h', q, k) <==> LiveBlock(h, q, k)
  }

  lemma SplitDownInv(h: Heap, p: nat, k: nat, order: nat)
    requires Inv(h) && order <= k <= MAX_ORDER && LiveBlock(h, p, k)
    ensures Inv(SplitDown(h, p, k, order)) && LiveBlock(SplitDown(h, p, k, order), p, order)
    ensures FreeCount(SplitDown(h, p, k, order)) + Pow2(order) == FreeCount(h) + Pow2(k)
    ensures SameOthers(h, SplitDown(h, p, k, order), p)
  {
    SplitDownShape(h, p, k, order);
    SplitDownCount(h, p, k, order);
    SplitDownRange(h, p, k, order);
  }

  lemma {:induction false} SplitDownShape(h: Heap, p: nat, k: nat, order: nat)
    requires Shape(h) && order <= k <= MAX_ORDER && LiveBlock(h, p, k)
    ensures Shape(SplitDown(h, p, k, order)) && LiveBlock(SplitDown(h, p, k, order), p, order)
    ensures SameOthers(h, SplitDown(h, p, k, order), p)
    decreases k
  {
    if k > order {
      var h1 := SplitOnce(h, p, k - 1);
      SplitOnceShape(h, p, k - 1);
      SplitOnceOthers(h, p, k - 1);
      SplitDownShape(h1, p, k - 1, order);
      SameOthersTwice(h, h1, SplitDown(h1, p, k - 1, order), p);
    }
  }

  lemma {:induction false} SplitDownCount(h: Heap, p: nat, k: nat, order: nat)
    requires Shape(h) && order <= k <= MAX_ORDER && LiveBlock(h, p, k)
    ensures var h' := SplitDown(h, p, k, order);
            && h'.live <= h'.blocks.Keys
            && FreeCount(h') + Pow2(order) == FreeCount(h) + Pow2(k)
            && LiveCount(h'.blocks, h'.live) + Pow2(k) == LiveCount(h.blocks, h.live) + Pow2(order)
    decreases k
  {
    if k > order {
      SplitOnceShape(h, p, k - 1);
      SplitOnceCount(h, p, k - 1);
      SplitDownCount(SplitOnce(h, p, k - 1), p, k - 1, order);
    }
  }

  lemma SplitOnceOthers(h: Heap, p: nat, k: nat)
    requires k < |h.lists| && h.live <= h.blocks.Keys && p + Pow2(k) !in h.blocks
    ensures SameOthers(h, SplitOnce(h, p, k), p)
  {}

  lemma SameOthersTwice(h: Heap, h1: Heap, h2: Heap, p: nat)
    requires SameOthers(h, h1, p) && SameOthers(h1, h2, p)
    ensures SameOthers(h, h2, p)
  {
    forall q: nat, k: nat | q != p ensures LiveBlock(h2, q, k) <==> LiveBlock(h, q, k) {
      assert LiveBlock(h1, q, k) <==> LiveBlock(h, q, k);
    }
  }

  /** Two page ranges have no page in common. */
  predicate RangesApart(p: nat, j: nat, q: nat, k: nat) {
    p + Pow2(j) <= q || q + Pow2(k) <= p
  }

  /** alloc_pages fails only when no free block is large enough.  When it succeeds, the block has the
      requested order and alignment, it lies in the managed range, none of its pages belonged to a
      handed-out block, every other handed-out block stays as it was, and the free-page count drops by
      exactly the block's size. */
  lemma AllocTheorem(h: Heap, order: nat)
    requires Inv(h) && order <= MAX_ORDER
    ensures Inv(AllocPages(h, order).0)
    ensures AllocPages(h, order).1.None? <==> forall p: nat, k: nat | FreeBlock(h, p, k) :: k < order
    ensures AllocPages(h, order).1.None? ==> AllocPages(h, order).0 == h
    ensures AllocPages(h, order).1.Some? ==>
              var h', p := AllocPages(h, order).0, AllocPages(h, order).1.value;
              && LiveBlock(h', p, order)
              && Aligned(p, order) && h.first <= p && p + Pow2(order) <= h.end
              && p !in h.live
              && (forall q: nat, k: nat | LiveBlock(h, q, k) :: RangesApart(p, order, q, k))
              && SameOthers(h, h', p)
              && FreeCount(h') == FreeCount(h) - Pow2(order)
  {
    match FirstFit(h.lists, order)
    case None =>
      forall p: nat, k: nat | FreeBlock(h, p, k) ensures k < order {
        assert Placed(h.blocks, h.first, h.end, p);
        assert p in h.lists[k];
      }
    case Some(k) =>
      var p := h.lists[k][0];
      assert p in h.lists[k] && FreeBlock(h, p, k);
      AllocSplits(h, order, k);
  }

  lemma AllocSplits(h: Heap, order: nat, k: nat)
    requires Inv(h) && order <= k <= MAX_ORDER && h.lists[k] != []
    ensures var p := h.lists[k][0];
            var h' := SplitDown(Take(h, k), p, k, order);
            && Inv(h') && LiveBlock(h', p, order)
            && Aligned(p, order) && h.first <= p && p + Pow2(order) <= h.end
            && p !in h.live
            && (forall q: nat, k: nat | LiveBlock(h, q, k) :: RangesApart(p, order, q, k))
            && SameOthers(h, h', p)
            && FreeCount(h') == FreeCount(h) - Pow2(order)
  {
    var p := h.lists[k][0];
    var t := Take(h, k);
    var h' := SplitDown(t, p, k, order);
    assert p in h.lists[k] && FreeBlock(h, p, k);
    TakeInv(h, k);
    SplitDownInv(t, p, k, order);
    assert Placed(h'.blocks, h'.first, h'.end, p);
    SplitDownRange(t, p, k, order);
    TakeOthers(h, k);
    SameOthersTwice(h, t, h', p);
    FreshApart(h, h', p, order);
  }

  lemma TakeOthers(h: Heap, k: nat)
    requires k < |h.lists| && h.lists[k] != []
    ensures SameOthers(h, Take(h, k), h.lists[k][0])
  {}

  /** A block handed out beside the others shares no page with them. */
  lemma FreshApart(h: Heap, h': Heap, p: nat, order: nat)
    requires Partition(h'.blocks, h'.first, h'.end) && LiveBlock(h', p, order) && p !in h.live && SameOthers(h, h', p)
    ensures forall q: nat, j: nat | LiveBlock(h, q, j) :: RangesApart(p, order, q, j)
  {
    forall q: nat, j: nat | LiveBlock(h, q, j) ensures RangesApart(p, order, q, j) {
      assert LiveBlock(h', q, j);
      assert Apart(h'.blocks, p, q);
    }
  }

  lemma AllocCount(h: Heap, order: nat, k: nat)
    requires Inv(h) && order <= k <= MAX_ORDER && FirstFit(h.lists, order) == Some(k)
    ensures Balanced(AllocPages(h, order).0)
    ensures FreeCount(AllocPages(h, order).0) == FreeCount(h) - Pow2(order)
  {
    AllocSplits(h, order, k);
  }

  lemma {:induction false} SplitDownRange(h: Heap, p: nat, k: nat, order: nat)
    requires order <= k <= |h.lists|
    ensures SplitDown(h, p, k, order).first == h.first && SplitDown(h, p, k, order).end == h.end
    decreases k
  {
    if k > order { SplitDownRange(SplitOnce(h, p, k - 1), p, k - 1, order); }
  }

  lemma {:induction false} MergeUpInv(h: Heap, p: nat, k: nat)
    requires Inv(h) && k <= MAX_ORDER && LiveBlock(h, p, k)
    ensures Inv(MergeUp(h, p, k))
    ensures MergeUp(h, p, k).live == h.live - {p}
    ensures SameOthers(h, MergeUp(h, p, k), p)
    ensures FreeCount(MergeUp(h, p, k)) == FreeCount(h) + Pow2(k)
    decreases MAX_ORDER - k
  {
    var b := BuddyOf(p, k);
    if CanMerge(h, b, k) {
      BuddyMerges(h, p, k);
      var h1, lo := MergeOnce(h, p, b, k), Lower(p, b);
      MergeOnceInv(h, p, b, k);
      assert FreeBlock(h, b, k);
      MergeUpInv(h1, lo, k + 1);
      assert h1.live - {lo} == h.live - {p};
      MergedOthers(h, MergeUp(h1, lo, k + 1), p, b, k);
    } else {
      PutBackInv(h, p, k);
    }
  }

  lemma MergedOthers(h: Heap, h2: Heap, p: nat, b: nat, k: nat)
    requires Merging(h, p, b, k) && FreeBlock(h, b, k)
    requires var h1, lo := MergeOnce(h, p, b, k), Lower(p, b);
             SameOthers(h1, h2, lo) && h2.live == h1.live - {lo}
    ensures SameOthers(h, h2, p)
  {
    var h1, lo := MergeOnce(h, p, b, k), Lower(p, b);
    forall q: nat, j: nat | q != p ensures LiveBlock(h2, q, j) <==> LiveBlock(h, q, j) {
      assert q == lo || (LiveBlock(h1, q, j) <==> LiveBlock(h, q, j));
    }
  }

  /** free_pages gives back exactly the named block: every other handed-out block stays as it was and
      the free-page count rises by exactly the block's size. */
  lemma FreeTheorem(h: Heap, p: nat, k: nat)
    requires Inv(h) && k <= MAX_ORDER && LiveBlock(h, p, k)
    ensures Inv(FreePages(h, p, k))
    ensures FreePages(h, p, k).live == h.live - {p}
    ensures SameOthers(h, FreePages(h, p, k), p)
    ensures FreeCount(FreePages(h, p, k)) == FreeCount(h) + Pow2(k)
  {
    var h1 := h.(tagged := h.tagged + {p});
    assert Inv(h1);
    MergeUpInv(h1, p, k);
    assert SameOthers(h, h1, p);
  }
}
