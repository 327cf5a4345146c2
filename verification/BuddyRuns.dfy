/** Whole runs of the buddy allocator: the initial tiling, coalescing, and what holds after any sequence
    of allocations and frees. */
module BuddyRuns {
  import opened Powers
  import opened BuddyGeometry
  import opened Lists
  import opened BuddySpec

  // ----- coalescing

  /** No two buddies of the same order, below the largest one, are both free. */
  ghost predicate Coalesced(h: Heap) {
    forall p: nat, k: nat {:trigger FreeBlock(h, p, k)} |
      FreeBlock(h, p, k) && k < MAX_ORDER :: !FreeBlock(h, BuddyOf(p, k), k)
  }

  /** The block at which merging stops when p, of order k, is freed. */
  function FinalBlock(h: Heap, p: nat, k: nat): (nat, nat)
    requires |h.lists| == MAX_ORDER + 1 && k <= MAX_ORDER
    decreases MAX_ORDER - k
  {
    var b := BuddyOf(p, k);
    if CanMerge(h, b, k) then FinalBlock(h, Lower(p, b), k + 1) else (p, k)
  }

  /** Merging stops at a block whose buddy is not a free block of the same order. */
  predicate StopsClear(h: Heap, p: nat, k: nat)
    requires |h.lists| == MAX_ORDER + 1 && k <= MAX_ORDER
  {
    var (q, j) := FinalBlock(h, p, k);
    j >= MAX_ORDER || !FreeBlock(h, BuddyOf(q, j), j)
  }

  /** The two heaps have the same free blocks, with the same tags, at order n and above. */
  ghost predicate AgreeFrom(h: Heap, h': Heap, n: nat) {
    && |h.lists| == MAX_ORDER + 1 == |h'.lists|
    && (forall j | n <= j <= MAX_ORDER :: h.lists[j] == h'.lists[j])
    && (forall q: nat, j: nat {:trigger FreeBlock(h, q, j)} {:trigger FreeBlock(h', q, j)} | j >= n ::
          (FreeBlock(h, q, j) <==> FreeBlock(h', q, j)))
    && (forall q: nat, j: nat {:trigger q in h.lists[j]} | n <= j <= MAX_ORDER && q in h.lists[j] ::
          (q in h.tagged <==> q in h'.tagged))
  }

  lemma {:induction false} AgreeStops(h: Heap, h': Heap, p: nat, k: nat)
    requires AgreeFrom(h, h', k) && k <= MAX_ORDER
    ensures FinalBlock(h, p, k) == FinalBlock(h', p, k)
    ensures StopsClear(h, p, k) <==> StopsClear(h', p, k)
    decreases MAX_ORDER - k
  {
    var b := BuddyOf(p, k);
    assert CanMerge(h, b, k) <==> CanMerge(h', b, k);
    if CanMerge(h, b, k) { AgreeStops(h, h', Lower(p, b), k + 1); }
  }

  lemma PutBackCoalesced(h: Heap, p: nat, k: nat)
    requires Inv(h) && k <= MAX_ORDER && LiveBlock(h, p, k) && Coalesced(h)
    ensures Coalesced(PutBack(h, p, k)) <==> k == MAX_ORDER || !FreeBlock(h, BuddyOf(p, k), k)
  {
    var h' := PutBack(h, p, k);
    assert Placed(h.blocks, h.first, h.end, p);
    BuddyPair(p, k);
    assert FreeBlock(h', p, k);
    if k == MAX_ORDER || !FreeBlock(h, BuddyOf(p, k), k) {
      forall q: nat, j: nat | FreeBlock(h', q, j) && j < MAX_ORDER ensures !FreeBlock(h', BuddyOf(q, j), j) {
        if q != p {
          assert FreeBlock(h, q, j);
          assert Placed(h.blocks, h.first, h.end, q);
          BuddyPair(q, j);
        }
      }
    }
  }

  lemma MergeOnceAgrees(h: Heap, p: nat, b: nat, k: nat)
    requires ListsMatch(h) && Merging(h, p, b, k)
    ensures AgreeFrom(h, MergeOnce(h, p, b, k), k + 1)
    ensures Coalesced(h) ==> Coalesced(MergeOnce(h, p, b, k))
  {
    var h' := MergeOnce(h, p, b, k);
    assert FreeBlock(h, b, k);
    forall q: nat, j: nat | FreeBlock(h', q, j) ensures FreeBlock(h, q, j) {}
    forall q: nat, j: nat | k < j <= MAX_ORDER && q in h.lists[j] ensures q in h.tagged <==> q in h'.tagged {
      assert FreeBlock(h, q, j);
    }
  }

  lemma {:induction false} MergeUpCoalesced(h: Heap, p: nat, k: nat)
    requires Inv(h) && k <= MAX_ORDER && LiveBlock(h, p, k) && Coalesced(h)
    ensures Coalesced(MergeUp(h, p, k)) <==> StopsClear(h, p, k)
    decreases MAX_ORDER - k
  {
    var b := BuddyOf(p, k);
    if CanMerge(h, b, k) {
      BuddyMerges(h, p, k);
      var h1 := MergeOnce(h, p, b, k);
      MergeOnceInv(h, p, b, k);
      MergeOnceAgrees(h, p, b, k);
      MergeUpCoalesced(h1, Lower(p, b), k + 1);
      AgreeStops(h, h1, Lower(p, b), k + 1);
    } else {
      PutBackCoalesced(h, p, k);
    }
  }

  /** Freeing keeps a fully coalesced heap fully coalesced exactly when merging does not stop next to a
      free buddy whose head has lost its tag. */
  lemma FreeCoalescesExactly(h: Heap, p: nat, k: nat)
    requires Inv(h) && k <= MAX_ORDER && LiveBlock(h, p, k) && Coalesced(h)
    ensures Coalesced(FreePages(h, p, k)) <==> StopsClear(h, p, k)
  {
    var h1 := h.(tagged := h.tagged + {p});
    assert Inv(h1) && Coalesced(h1) by {
      forall q: nat, j: nat | FreeBlock(h1, q, j) ensures FreeBlock(h, q, j) {}
    }
    MergeUpCoalesced(h1, p, k);
    forall q: nat, j: nat | j <= MAX_ORDER && q in h.lists[j] ensures q in h.tagged <==> q in h1.tagged {
      assert FreeBlock(h, q, j);
    }
    AgreeStops(h, h1, p, k);
  }

  lemma SplitOnceCoalesced(h: Heap, p: nat, k: nat)
    requires Shape(h) && k < MAX_ORDER && LiveBlock(h, p, k + 1) && Coalesced(h)
    ensures Coalesced(SplitOnce(h, p, k))
  {
    var h1, q := SplitOnce(h, p, k), p + Pow2(k);
    SplitOnceShape(h, p, k);
    assert Placed(h.blocks, h.first, h.end, p);
    Halves(p, k);
    forall g: nat, j: nat | FreeBlock(h1, g, j) && j < MAX_ORDER ensures !FreeBlock(h1, BuddyOf(g, j), j) {
      if g != q {
        assert FreeBlock(h, g, j);
        assert Placed(h.blocks, h.first, h.end, g);
        BuddyPair(g, j);
      }
    }
  }

  lemma {:induction false} SplitDownCoalesced(h: Heap, p: nat, k: nat, order: nat)
    requires Shape(h) && order <= k <= MAX_ORDER && LiveBlock(h, p, k) && Coalesced(h)
    ensures Coalesced(SplitDown(h, p, k, order))
    decreases k
  {
    if k > order {
      SplitOnceShape(h, p, k - 1);
      SplitOnceCoalesced(h, p, k - 1);
      SplitDownCoalesced(SplitOnce(h, p, k - 1), p, k - 1, order);
    }
  }

  /** Allocation never creates a mergeable pair. */
  lemma AllocKeepsCoalesced(h: Heap, order: int)
    requires Inv(h) && Coalesced(h)
    ensures Coalesced(AllocPages(h, order).0)
  {
    if 0 <= order <= MAX_ORDER && FirstFit(h.lists, order).Some? {
      var k := FirstFit(h.lists, order).value;
      TakeInv(h, k);
      forall q: nat, j: nat | FreeBlock(Take(h, k), q, j) ensures FreeBlock(h, q, j) {}
      SplitDownCoalesced(Take(h, k), h.lists[k][0], k, order);
    }
  }

  // ----- initial tiling

  /** Largest order, at most k, whose block at p is aligned and ends by end. */
  function LargestFit(p: nat, end: nat, k: nat): (r: nat)
    requires p < end
    ensures r <= k && Aligned(p, r) && p + Pow2(r) <= end
    ensures forall j | r < j <= k :: !(Aligned(p, j) && p + Pow2(j) <= end)
  {
    if Aligned(p, k) && p + Pow2(k) <= end then k else LargestFit(p, end, k - 1)
  }

  function EmptyHeap(first: nat): Heap {
    Heap(first, first, map[], {}, seq(MAX_ORDER + 1, _ => []), {})
  }

  /** Append the block of order k that starts where the heap ends. */
  function Append(h: Heap, k: nat): Heap
    requires k < |h.lists|
  {
    h.(end := h.end + Pow2(k), blocks := h.blocks[h.end := k],
       lists := h.lists[k := [h.end] + h.lists[k]], tagged := h.tagged + {h.end})
  }

  const PAGE_SIZE: nat := 4096
  const SIZEOF_PAGE: nat := 40

  /** First page frame given to the buddy system: past mem_map, rounded up to an even frame. */
  function FirstManaged(start: nat, end: nat): (first: nat)
    requires start + 2 <= end
    ensures start <= first <= end
  {
    var p := start + ((end - start) * SIZEOF_PAGE + PAGE_SIZE - 1) / PAGE_SIZE;
    if p % 2 == 1 then p + 1 else p
  }

  /** page_init: cover [h.end, limit) greedily with the largest blocks that fit. */
  function Tile(h: Heap, limit: nat): Heap
    requires |h.lists| == MAX_ORDER + 1
    decreases limit - h.end
  {
    if h.end >= limit then h else Tile(Append(h, LargestFit(h.end, limit, MAX_ORDER)), limit)
  }

  /** No block could have been taken one order larger. */
  ghost predicate Greedy(h: Heap, limit: nat) {
    forall p {:trigger h.blocks[p]} | p in h.blocks && h.blocks[p] < MAX_ORDER ::
      !(Aligned(p, h.blocks[p] + 1) && p + Pow2(h.blocks[p] + 1) <= limit)
  }

  lemma GreedyAt(h: Heap, limit: nat, p: nat)
    requires Greedy(h, limit) && p in h.blocks && h.blocks[p] < MAX_ORDER
    ensures !(Aligned(p, h.blocks[p] + 1) && p + Pow2(h.blocks[p] + 1) <= limit)
  {}

  lemma AppendPartition(h: Heap, k: nat)
    requires Partition(h.blocks, h.first, h.end) && k <= MAX_ORDER && k < |h.lists|
    requires Aligned(h.end, k) && h.first <= h.end
    ensures h.end !in h.blocks && Partition(Append(h, k).blocks, h.first, Append(h, k).end)
  {
    var h' := Append(h, k);
    assert h.end in h.blocks ==> Placed(h.blocks, h.first, h.end, h.end);
    forall p | p in h'.blocks ensures Placed(h'.blocks, h.first, h'.end, p) {
      if p != h.end { assert Placed(h.blocks, h.first, h.end, p); }
    }
    forall p, q | p in h'.blocks && q in h'.blocks && p != q ensures Apart(h'.blocks, p, q) {
      if p != h.end { assert Placed(h.blocks, h.first, h.end, p); }
      if q != h.end { assert Placed(h.blocks, h.first, h.end, q); }
      assert p != h.end && q != h.end ==> Apart(h.blocks, p, q);
    }
    forall x: nat | h.first <= x < h'.end ensures Covered(h'.blocks, x) {
      if x < h.end {
        assert Covered(h.blocks, x);
        var g: nat :| Covers(h.blocks, g, x);
        assert Covers(h'.blocks, g, x);
      } else {
        assert Covers(h'.blocks, h.end, x);
      }
    }
  }

  lemma AppendShape(h: Heap, k: nat)
    requires Shape(h) && h.first <= h.end && k <= MAX_ORDER && Aligned(h.end, k)
    ensures Shape(Append(h, k)) && h.end !in h.blocks
  {
    AppendPartition(h, k);
    ListPrepend(h, Append(h, k), k, h.end);
  }

  lemma {:induction false} TileInv(h: Heap, limit: nat)
    requires Inv(h) && h.live == {} && h.first <= h.end <= limit && Greedy(h, limit)
    ensures var t := Tile(h, limit);
            && Inv(t) && t.live == {} && t.first == h.first && t.end == limit && Greedy(t, limit)
    decreases limit - h.end
  {
    if h.end < limit {
      var k := LargestFit(h.end, limit, MAX_ORDER);
      var h' := Append(h, k);
      AppendShape(h, k);
      PrependPages(h.lists, k, h.end);
      assert Greedy(h', limit) by {
        forall p | p in h'.blocks && h'.blocks[p] < MAX_ORDER
          ensures !(Aligned(p, h'.blocks[p] + 1) && p + Pow2(h'.blocks[p] + 1) <= limit)
        {
          if p != h.end { assert h.blocks[p] == h'.blocks[p]; }
        }
      }
      TileInv(h', limit);
    }
  }

  /** page_init tiles [first, limit) exactly with free blocks, counts every page once and leaves no
      mergeable pair behind. */
  lemma TileTheorem(first: nat, limit: nat)
    requires first <= limit
    ensures var t := Tile(EmptyHeap(first), limit);
            && Inv(t) && t.live == {} && t.first == first && t.end == limit
            && FreeCount(t) == limit - first
            && Coalesced(t)
  {
    var e := EmptyHeap(first);
    EmptyPages(e.lists);
    TileInv(e, limit);
    GreedyCoalesced(Tile(e, limit));
  }

  lemma GreedyCoalesced(t: Heap)
    requires Partition(t.blocks, t.first, t.end) && Greedy(t, t.end)
    ensures Coalesced(t)
  {
    forall p: nat, k: nat | FreeBlock(t, p, k) && k < MAX_ORDER ensures !FreeBlock(t, BuddyOf(p, k), k) {
      var b := BuddyOf(p, k);
      assert Placed(t.blocks, t.first, t.end, p);
      BuddyPair(p, k);
      if FreeBlock(t, b, k) {
        assert Placed(t.blocks, t.first, t.end, b);
        GreedyAt(t, t.end, if p < b then p else b);
      }
    }
  }

  lemma {:induction false} EmptyPages(lists: seq<seq<nat>>)
    requires forall k | 0 <= k < |lists| :: lists[k] == []
    ensures ListPages(lists) == 0
  {
    if lists != [] {
      EmptyPages(lists[..|lists| - 1]);
      assert lists[|lists| - 1] == [];
    }
  }

  // ----- whole runs

  datatype Op = Alloc(order: int) | Free(p: nat, k: nat)

  /** A free must name a handed-out block with its own order; an allocation may ask for anything. */
  predicate Enabled(h: Heap, op: Op) {
    op.Free? ==> op.k <= MAX_ORDER && LiveBlock(h, op.p, op.k)
  }

  function Step(h: Heap, op: Op): Heap
    requires |h.lists| == MAX_ORDER + 1 && Enabled(h, op)
  {
    match op
    case Alloc(order) => AllocPages(h, order).0
    case Free(p, k) => FreePages(h, p, k)
  }

  /** t is reached from h by performing ops in turn, each of them enabled. */
  ghost predicate Reaches(h: Heap, ops: seq<Op>, t: Heap)
    decreases |ops|
  {
    if ops == [] then t == h
    else |h.lists| == MAX_ORDER + 1 && Enabled(h, ops[0]) && Reaches(Step(h, ops[0]), ops[1..], t)
  }

  lemma StepInv(h: Heap, op: Op)
    requires Inv(h) && Enabled(h, op)
    ensures Inv(Step(h, op)) && Step(h, op).first == h.first && Step(h, op).end == h.end
  {
    match op
    case Alloc(order) =>
      if 0 <= order <= MAX_ORDER {
        AllocTheorem(h, order);
        if FirstFit(h.lists, order).Some? {
          var k := FirstFit(h.lists, order).value;
          SplitDownRange(Take(h, k), h.lists[k][0], k, order);
        }
      }
    case Free(p, k) =>
      FreeTheorem(h, p, k);
      MergeUpRange(h.(tagged := h.tagged + {p}), p, k);
  }

  lemma {:induction false} MergeUpRange(h: Heap, p: nat, k: nat)
    requires |h.lists| == MAX_ORDER + 1 && k <= MAX_ORDER
    ensures MergeUp(h, p, k).first == h.first && MergeUp(h, p, k).end == h.end
    decreases MAX_ORDER - k
  {
    var b := BuddyOf(p, k);
    if CanMerge(h, b, k) { MergeUpRange(MergeOnce(h, p, b, k), Lower(p, b), k + 1); }
  }

  /** After page_init and any run of allocations and frees: the blocks partition the managed pages, the
      free lists hold exactly the blocks that are not handed out, two handed-out blocks never share a
      page, and every page is counted exactly once as free or handed out. */
  lemma {:induction false} RunTheorem(h: Heap, ops: seq<Op>, t: Heap)
    requires Inv(h) && Reaches(h, ops, t)
    ensures Inv(t) && t.first == h.first && t.end == h.end
    ensures forall p: nat, j: nat, q: nat, k: nat |
              LiveBlock(t, p, j) && LiveBlock(t, q, k) && p != q :: RangesApart(p, j, q, k)
    ensures FreeCount(t) == t.end - t.first - LiveCount(t.blocks, t.live)
    decreases |ops|
  {
    if ops == [] {
      forall p: nat, j: nat, q: nat, k: nat | LiveBlock(t, p, j) && LiveBlock(t, q, k) && p != q
        ensures RangesApart(p, j, q, k)
      {
        assert Apart(t.blocks, p, q);
      }
    } else {
      StepInv(h, ops[0]);
      RunTheorem(Step(h, ops[0]), ops[1..], t);
    }
  }

  // ----- tags

  /** Every free head carries its tag. */
  ghost predicate AllTagged(h: Heap) {
    && |h.lists| == MAX_ORDER + 1
    && forall j, q {:trigger q in h.lists[j]} | 0 <= j <= MAX_ORDER && q in h.lists[j] :: q in h.tagged
  }

  /** With all tags in place merging never stops next to a free buddy. */
  lemma {:induction false} TaggedStopsClear(h: Heap, p: nat, k: nat)
    requires ListsMatch(h) && AllTagged(h) && k <= MAX_ORDER
    ensures StopsClear(h, p, k)
    decreases MAX_ORDER - k
  {
    var b := BuddyOf(p, k);
    if CanMerge(h, b, k) {
      TaggedStopsClear(h, Lower(p, b), k + 1);
    } else if k < MAX_ORDER {
      assert b in h.lists[k] <==> FreeBlock(h, b, k);
    }
  }

  /** Merging leaves a tagged head exactly when the head is the block that was freed; other free heads keep
      their tags. */
  lemma {:induction false} MergeUpTags(h: Heap, p: nat, k: nat)
    requires Inv(h) && k <= MAX_ORDER && LiveBlock(h, p, k)
    ensures var h', q, n := MergeUp(h, p, k), FinalBlock(h, p, k).0, FinalBlock(h, p, k).1;
            && q <= p && n <= MAX_ORDER && |h'.lists| == MAX_ORDER + 1 && q in h'.lists[n]
            && (q in h'.tagged <==> q == p && p in h.tagged)
            && forall j, g {:trigger g in h'.lists[j]} | 0 <= j <= MAX_ORDER && g in h'.lists[j] && g != q ::
                 g in h.lists[j] && (g in h'.tagged <==> g in h.tagged)
    decreases MAX_ORDER - k
  {
    var b := BuddyOf(p, k);
    if CanMerge(h, b, k) {
      BuddyMerges(h, p, k);
      var h1 := MergeOnce(h, p, b, k);
      MergeOnceInv(h, p, b, k);
      MergeOnceAgrees(h, p, b, k);
      AgreeStops(h, h1, Lower(p, b), k + 1);
      MergeUpTags(h1, Lower(p, b), k + 1);
      MergeOnceTags(h, p, b, k);
    }
  }

  lemma MergeOnceTags(h: Heap, p: nat, b: nat, k: nat)
    requires Inv(h) && Merging(h, p, b, k)
    ensures var h1 := MergeOnce(h, p, b, k);
            forall j, g {:trigger g in h1.lists[j]} | 0 <= j <= MAX_ORDER && g in h1.lists[j] ::
              g in h.lists[j] && (g in h1.tagged <==> g in h.tagged)
  {
    var h1 := MergeOnce(h, p, b, k);
    assert FreeBlock(h, b, k);
    WithoutProps(h.lists[k], b);
    forall j, g | 0 <= j <= MAX_ORDER && g in h1.lists[j]
      ensures g in h.lists[j] && (g in h1.tagged <==> g in h.tagged)
    {
      assert FreeBlock(h, g, j);
    }
  }

  /** A free leaves every free head tagged exactly when the merged block is headed by the block freed, that is,
      when no lower buddy was merged. */
  lemma FreeKeepsTagsExactly(h: Heap, p: nat, k: nat)
    requires Inv(h) && k <= MAX_ORDER && LiveBlock(h, p, k) && AllTagged(h)
    ensures AllTagged(FreePages(h, p, k)) <==> FinalBlock(h, p, k).0 == p
  {
    var h1 := h.(tagged := h.tagged + {p});
    forall q: nat, j: nat | j <= MAX_ORDER && q in h.lists[j] ensures q in h.tagged <==> q in h1.tagged {}
    AgreeStops(h, h1, p, k);
    MergeUpTags(h1, p, k);
  }

  lemma {:induction false} SplitDownTags(h: Heap, p: nat, k: nat, order: nat)
    requires AllTagged(h) && order <= k <= MAX_ORDER
    ensures AllTagged(SplitDown(h, p, k, order))
    decreases k
  {
    if k > order { SplitDownTags(SplitOnce(h, p, k - 1), p, k - 1, order); }
  }

  lemma AllocKeepsTags(h: Heap, order: int)
    requires Inv(h) && AllTagged(h)
    ensures AllTagged(AllocPages(h, order).0)
  {
    if 0 <= order <= MAX_ORDER && FirstFit(h.lists, order).Some? {
      var k := FirstFit(h.lists, order).value;
      var t, p := Take(h, k), h.lists[k][0];
      forall j, q | 0 <= j <= MAX_ORDER && q in t.lists[j] ensures q in t.tagged {
        assert q in h.lists[j];
        assert FreeBlock(h, q, j) && FreeBlock(h, p, k);
      }
      SplitDownTags(t, p, k, order);
    }
  }

  /** Each free of the run ends in a block headed by the block freed. */
  ghost predicate Tidy(h: Heap, ops: seq<Op>)
    decreases |ops|
  {
    |h.lists| == MAX_ORDER + 1 && (ops != [] ==>
      && Enabled(h, ops[0]) && (ops[0].Free? ==> FinalBlock(h, ops[0].p, ops[0].k).0 == ops[0].p)
      && Tidy(Step(h, ops[0]), ops[1..]))
  }

  /** A criterion for whole runs: as long as no free merges into a lower buddy, the heap stays fully coalesced. */
  lemma {:induction false} TidyRun(h: Heap, ops: seq<Op>, t: Heap)
    requires Inv(h) && AllTagged(h) && Coalesced(h) && Reaches(h, ops, t) && Tidy(h, ops)
    ensures Coalesced(t) && AllTagged(t)
    decreases |ops|
  {
    if ops != [] {
      StepInv(h, ops[0]);
      match ops[0] {
        case Alloc(order) =>
          AllocKeepsCoalesced(h, order);
          AllocKeepsTags(h, order);
        case Free(p, k) =>
          TaggedStopsClear(h, p, k);
          FreeCoalescesExactly(h, p, k);
          FreeKeepsTagsExactly(h, p, k);
      }
      TidyRun(Step(h, ops[0]), ops[1..], t);
    }
  }

  lemma {:induction false} TileTags(h: Heap, limit: nat)
    requires AllTagged(h)
    ensures AllTagged(Tile(h, limit))
    decreases limit - h.end
  {
    if h.end < limit { TileTags(Append(h, LargestFit(h.end, limit, MAX_ORDER)), limit); }
  }

  /** The criterion from page_init on. */
  lemma TidyTheorem(first: nat, limit: nat, ops: seq<Op>, t: Heap)
    requires first <= limit && Reaches(Tile(EmptyHeap(first), limit), ops, t)
             && Tidy(Tile(EmptyHeap(first), limit), ops)
    ensures Coalesced(t)
  {
    TileTheorem(first, limit);
    TileTags(EmptyHeap(first), limit);
    TidyRun(Tile(EmptyHeap(first), limit), ops, t);
  }

  // ----- full coalescing does not hold

  function FreeLists(l0: seq<nat>, l1: seq<nat>, l2: seq<nat>): seq<seq<nat>> {
    [l0, l1, l2, [], [], [], [], [], [], [], [], []]
  }

  function FourPages(blocks: map<nat, nat>, live: set<nat>, lists: seq<seq<nat>>, tagged: set<nat>): Heap {
    Heap(4, 8, blocks, live, lists, tagged)
  }

  const SPLIT: map<nat, nat> := map[4 := 0, 5 := 0, 6 := 1]
  const PAIRED: map<nat, nat> := map[4 := 1, 6 := 1]

  lemma SameHeap(a: Heap, b: Heap)
    requires a.first == b.first && a.end == b.end && a.blocks == b.blocks && a.live == b.live && a.tagged == b.tagged
    requires |a.lists| == |b.lists| && forall k | 0 <= k < |a.lists| :: a.lists[k] == b.lists[k]
    ensures a == b
  {}

  lemma Pow2AtLeast8(k: nat)
    requires k >= 3
    ensures Pow2(k) >= 8
  {}

  lemma TileFour()
    ensures Tile(EmptyHeap(4), 8) == FourPages(map[4 := 2], {}, FreeLists([], [], [4]), {4})
  {
    var e, k := EmptyHeap(4), LargestFit(4, 8, MAX_ORDER);
    assert Pow2(2) == 2 * Pow2(1) == 4 && Aligned(4, 2) by { assert Pow2(1) == 2; MultipleIsAligned(1, 2); }
    if k > 2 { Pow2AtLeast8(k); }
    var h := FourPages(map[4 := 2], {}, FreeLists([], [], [4]), {4});
    SameHeap(Append(e, 2), h);
    assert Tile(h, 8) == h;
  }

  /** The first allocation splits the whole heap, twice. */
  lemma SplitFour()
    ensures SplitOnce(FourPages(map[4 := 2], {4}, FreeLists([], [], []), {}), 4, 1)
            == FourPages(PAIRED, {4}, FreeLists([], [6], []), {6})
  {
    assert Pow2(1) == 2;
    SameHeap(SplitOnce(FourPages(map[4 := 2], {4}, FreeLists([], [], []), {}), 4, 1),
             FourPages(PAIRED, {4}, FreeLists([], [6], []), {6}));
  }

  lemma SplitTwo()
    ensures SplitOnce(FourPages(PAIRED, {4}, FreeLists([], [6], []), {6}), 4, 0)
            == FourPages(SPLIT, {4}, FreeLists([5], [6], []), {5, 6})
  {
    assert Pow2(0) == 1;
    SameHeap(SplitOnce(FourPages(PAIRED, {4}, FreeLists([], [6], []), {6}), 4, 0),
             FourPages(SPLIT, {4}, FreeLists([5], [6], []), {5, 6}));
  }

  lemma AllocFour()
    ensures AllocPages(FourPages(map[4 := 2], {}, FreeLists([], [], [4]), {4}), 0).0
            == FourPages(SPLIT, {4}, FreeLists([5], [6], []), {5, 6})
  {
    var h := FourPages(map[4 := 2], {}, FreeLists([], [], [4]), {4});
    assert FirstFit(h.lists, 1) == FirstFit(h.lists, 2) == Some(2);
    var t := FourPages(map[4 := 2], {4}, FreeLists([], [], []), {});
    SameHeap(Take(h, 2), t);
    SplitFour();
    SplitTwo();
    assert SplitDown(t, 4, 2, 0) == SplitDown(SplitOnce(t, 4, 1), 4, 1, 0);
  }

  /** The next two take the remaining blocks whole. */
  lemma AllocRest()
    ensures AllocPages(FourPages(SPLIT, {4}, FreeLists([5], [6], []), {5, 6}), 0).0
            == FourPages(SPLIT, {4, 5}, FreeLists([], [6], []), {6})
    ensures AllocPages(FourPages(SPLIT, {4, 5}, FreeLists([], [6], []), {6}), 1).0
            == FourPages(SPLIT, {4, 5, 6}, FreeLists([], [], []), {})
  {
    var h1 := FourPages(SPLIT, {4}, FreeLists([5], [6], []), {5, 6});
    var h2 := FourPages(SPLIT, {4, 5}, FreeLists([], [6], []), {6});
    SameHeap(Take(h1, 0), h2);
    SameHeap(Take(h2, 1), FourPages(SPLIT, {4, 5, 6}, FreeLists([], [], []), {}));
    assert FirstFit(h2.lists, 1) == Some(1);
  }

  /** Page 4 stays alone. */
  lemma FreePage4()
    ensures FreePages(FourPages(SPLIT, {4, 5, 6}, FreeLists([], [], []), {}), 4, 0)
            == FourPages(SPLIT, {5, 6}, FreeLists([4], [], []), {4})
  {
    var h3 := FourPages(SPLIT, {4, 5, 6}, FreeLists([], [], []), {4});
    SameHeap(PutBack(h3, 4, 0), FourPages(SPLIT, {5, 6}, FreeLists([4], [], []), {4}));
    assert !CanMerge(h3, BuddyOf(4, 0), 0);
  }

  /** Page 5 merges into page 4 and strips its tag. */
  lemma FreePage5()
    ensures FreePages(FourPages(SPLIT, {5, 6}, FreeLists([4], [], []), {4}), 5, 0)
            == FourPages(PAIRED, {6}, FreeLists([], [4], []), {})
  {
    var h4 := FourPages(SPLIT, {5, 6}, FreeLists([4], [], []), {4, 5});
    var m := FourPages(PAIRED, {4, 6}, FreeLists([], [], []), {});
    assert Pow2(0) == 1 && BuddyOf(5, 0) == 4 && Without([4], 4) == [];
    SameHeap(MergeOnce(h4, 5, 4, 0), m);
    PutPage4();
  }

  lemma PutPage4()
    ensures MergeUp(FourPages(PAIRED, {4, 6}, FreeLists([], [], []), {}), 4, 1)
            == FourPages(PAIRED, {6}, FreeLists([], [4], []), {})
  {
    var m := FourPages(PAIRED, {4, 6}, FreeLists([], [], []), {});
    assert !CanMerge(m, BuddyOf(4, 1), 1);
    SameHeap(PutBack(m, 4, 1), FourPages(PAIRED, {6}, FreeLists([], [4], []), {}));
  }

  /** The block at 6 does not find its buddy. */
  lemma FreePage6()
    ensures FreePages(FourPages(PAIRED, {6}, FreeLists([], [4], []), {}), 6, 1)
            == FourPages(PAIRED, {}, FreeLists([], [6, 4], []), {6})
  {
    var h5 := FourPages(PAIRED, {6}, FreeLists([], [4], []), {6});
    assert BuddyOf(6, 1) == 4 && !CanMerge(h5, 4, 1);
    SameHeap(PutBack(h5, 6, 1), FourPages(PAIRED, {}, FreeLists([], [6, 4], []), {6}));
  }

  lemma PairNotCoalesced(h: Heap, p: nat, b: nat, k: nat)
    requires FreeBlock(h, p, k) && FreeBlock(h, b, k) && Aligned(p, k + 1) && b == p + Pow2(k) && k < MAX_ORDER
    ensures !Coalesced(h)
  {
    Halves(p, k);
  }

  /** Six operations on the four pages that page_init manages of frames 3 to 7, after which two buddies of
      order 1 are both free: the block at 4 lost its tag when page 5 was merged into it, so freeing the block at
      6 does not find it. */
  lemma FullCoalescingFails()
    ensures Reaches(Tile(EmptyHeap(FirstManaged(3, 8)), 8),
                    [Alloc(0), Alloc(0), Alloc(1), Free(4, 0), Free(5, 0), Free(6, 1)],
                    FourPages(PAIRED, {}, FreeLists([], [6, 4], []), {6}))
    ensures !Coalesced(FourPages(PAIRED, {}, FreeLists([], [6, 4], []), {6}))
  {
    assert FirstManaged(3, 8) == 4;
    TileFour();
    FourOperations();
    PairNotCoalesced(FourPages(PAIRED, {}, FreeLists([], [6, 4], []), {6}), 4, 6, 1);
  }

  lemma FourOperations()
    ensures Reaches(FourPages(map[4 := 2], {}, FreeLists([], [], [4]), {4}),
                    [Alloc(0), Alloc(0), Alloc(1), Free(4, 0), Free(5, 0), Free(6, 1)],
                    FourPages(PAIRED, {}, FreeLists([], [6, 4], []), {6}))
  {
    var t := FourPages(PAIRED, {}, FreeLists([], [6, 4], []), {6});
    var h3 := FourPages(SPLIT, {4, 5, 6}, FreeLists([], [], []), {});
    var h2 := FourPages(SPLIT, {4, 5}, FreeLists([], [6], []), {6});
    var h1 := FourPages(SPLIT, {4}, FreeLists([5], [6], []), {5, 6});
    var h0 := FourPages(map[4 := 2], {}, FreeLists([], [], [4]), {4});
    FourFrees();
    AllocRest();
    Chain(h2, Alloc(1), h3, [Free(4, 0), Free(5, 0), Free(6, 1)], t);
    Chain(h1, Alloc(0), h2, [Alloc(1), Free(4, 0), Free(5, 0), Free(6, 1)], t);
    AllocFour();
    Chain(h0, Alloc(0), h1, [Alloc(0), Alloc(1), Free(4, 0), Free(5, 0), Free(6, 1)], t);
  }

  lemma FourFrees()
    ensures Reaches(FourPages(SPLIT, {4, 5, 6}, FreeLists([], [], []), {}), [Free(4, 0), Free(5, 0), Free(6, 1)],
                    FourPages(PAIRED, {}, FreeLists([], [6, 4], []), {6}))
  {
    var h3 := FourPages(SPLIT, {4, 5, 6}, FreeLists([], [], []), {});
    var h4 := FourPages(SPLIT, {5, 6}, FreeLists([4], [], []), {4});
    var h5 := FourPages(PAIRED, {6}, FreeLists([], [4], []), {});
    var h6 := FourPages(PAIRED, {}, FreeLists([], [6, 4], []), {6});
    FreePage6();
    Chain(h5, Free(6, 1), h6, [], h6);
    FreePage5();
    Chain(h4, Free(5, 0), h5, [Free(6, 1)], h6);
    FreePage4();
    Chain(h3, Free(4, 0), h4, [Free(5, 0), Free(6, 1)], h6);
  }

  lemma Chain(h: Heap, op: Op, h': Heap, ops: seq<Op>, t: Heap)
    requires |h.lists| == MAX_ORDER + 1 && Enabled(h, op) && Step(h, op) == h' && Reaches(h', ops, t)
    ensures Reaches(h, [op] + ops, t)
  {}
}
