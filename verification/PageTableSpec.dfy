/** Shape of the kernel's page tables and what a single store into them does to address translation. */
module PageTableSpec {
  import opened Division
  import opened Sv39
  import opened Lists

  // ----- entries

  /** phys_to_pte for a page-aligned address and flags that fit in the low ten bits. */
  function MakePte(phys: nat, flags: nat): nat { phys / PAGE * 1024 + flags }

  /** flags | PTE_V */
  function WithV(flags: nat): nat { if FlagV(flags) then flags else flags + PTE_V }

  /** pte_leaf: any of R, W, X. */
  predicate HasRwx(flags: nat) { FlagR(flags) || FlagW(flags) || FlagX(flags) }

  predicate Leafy(pte: nat) { HasRwx(FlagsOf(pte)) }

  /** walk_pgtable descends through this entry. */
  predicate Descends(pte: nat) { Present(pte) && !Leafy(pte) }

  function ZeroTable(): (t: seq<nat>)
    ensures |t| == ENTRIES
  {
    seq(ENTRIES, _ => 0)
  }

  lemma PteRoundTrip(phys: nat, flags: nat)
    requires phys % PAGE == 0 && flags < 1024
    ensures PhysOf(MakePte(phys, flags)) == phys && FlagsOf(MakePte(phys, flags)) == flags
    ensures phys < 0x100_0000_0000_0000 ==> !Reserved(MakePte(phys, flags))
  {}

  // ----- tables

  /** Where in the tree a table hangs. */
  datatype Slot = Root | Pmd(i: nat) | Pte(i: nat, j: nat)

  function LevelOf(s: Slot): nat { if s.Root? then 2 else if s.Pmd? then 1 else 0 }

  function ChildSlot(s: Slot, k: nat): Slot
    requires !s.Pte?
  {
    if s.Root? then Pmd(k) else Pte(s.i, k)
  }

  /** The walk for va passes through tables in this slot. */
  predicate OnPath(s: Slot, va: nat) {
    match s
    case Root => true
    case Pmd(i) => Index(va, 2) == i
    case Pte(i, j) => Index(va, 2) == i && Index(va, 1) == j
  }

  type Owners = map<nat, Slot>

  predicate PointerOk(m: Memory, owner: Owners, s: Slot, k: nat, pte: nat) {
    !s.Pte? && Descends(pte) ==>
      && FlagsOf(pte) == PTE_V && !Reserved(pte)
      && PhysOf(pte) in m && PhysOf(pte) in owner && owner[PhysOf(pte)] == ChildSlot(s, k)
  }

  ghost predicate TableOk(m: Memory, owner: Owners, t: nat)
    requires t in m && t in owner
  {
    && |m[t]| == ENTRIES && t % PAGE == 0 && t < 0x100_0000_0000_0000
    && forall k {:trigger m[t][k]} | 0 <= k < ENTRIES :: PointerOk(m, owner, owner[t], k, m[t][k])
  }

  /** Every table belongs to one slot, and every pointer leads to a table of the slot below it: no table
      is reachable along two paths.  Tables that are no longer referenced may remain. */
  ghost predicate WellFormed(m: Memory, owner: Owners, root: nat) {
    && owner.Keys == m.Keys && root in m && owner[root] == Root
    && forall t {:trigger TableOk(m, owner, t)} | t in m :: TableOk(m, owner, t)
  }

  // ----- where a walk stops

  /** The level and the entry at which the walk for an address stops: an entry that is not present, a
      leaf, or any entry of the last level. */
  datatype Stop = Stop(level: nat, pte: nat)

  function Entry(m: Memory, t: nat, k: nat): nat {
    if t in m && k < |m[t]| then m[t][k] else 0
  }

  function StopAt(m: Memory, root: nat, va: nat): Stop {
    var e2 := Entry(m, root, Index(va, 2));
    if !Descends(e2) then Stop(2, e2) else
      var e1 := Entry(m, PhysOf(e2), Index(va, 1));
      if !Descends(e1) then Stop(1, e1) else
        Stop(0, Entry(m, PhysOf(e1), Index(va, 0)))
  }

  /** No superpage leaf on the way to va. */
  predicate PathClear(m: Memory, root: nat, va: nat) {
    StopAt(m, root, va).level == 0 || !Present(StopAt(m, root, va).pte)
  }

  /** What the hardware makes of a stop. */
  function Decode(s: Stop, va: nat): Translation {
    var f := FlagsOf(s.pte);
    if !FlagV(f) || (!FlagR(f) && FlagW(f)) || Reserved(s.pte) || !(FlagR(f) || FlagX(f)) then Fault
    else LeafPage(s.pte, va, s.level)
  }

  /** The software walk and the hardware walk agree on every address. */
  lemma HardwareAgrees(m: Memory, owner: Owners, root: nat, va: nat)
    requires WellFormed(m, owner, root) && Canonical(va)
    ensures Translate(m, root, va) == Decode(StopAt(m, root, va), va)
  {
    assert TableOk(m, owner, root);
    var e2 := m[root][Index(va, 2)];
    assert PointerOk(m, owner, Root, Index(va, 2), e2);
    if Descends(e2) {
      var t1 := PhysOf(e2);
      assert TableOk(m, owner, t1);
      var e1 := m[t1][Index(va, 1)];
      assert PointerOk(m, owner, owner[t1], Index(va, 1), e1);
      if Descends(e1) {
        var t0 := PhysOf(e1);
        assert TableOk(m, owner, t0);
      }
    }
  }

  /** The table currently hanging in a slot. */
  function TableIn(m: Memory, root: nat, s: Slot): Option<nat> {
    match s
    case Root => Some(root)
    case Pmd(i) => ChildOf(m, root, i)
    case Pte(i, j) => if ChildOf(m, root, i).Some? then ChildOf(m, ChildOf(m, root, i).value, j) else None
  }

  function ChildOf(m: Memory, t: nat, k: nat): Option<nat> {
    if Descends(Entry(m, t, k)) then Some(PhysOf(Entry(m, t, k))) else None
  }

  // ----- one store

  function Store(m: Memory, t: nat, k: nat, pte: nat): Memory
    requires t in m && k < |m[t]|
  {
    var table: seq<nat> := m[t][k := pte];
    m[t := table]
  }

  /** A store that does not forge a pointer keeps the tables well formed. */
  lemma StoreWellFormed(m: Memory, owner: Owners, root: nat, t: nat, k: nat, pte: nat)
    requires WellFormed(m, owner, root) && t in m && k < ENTRIES
    requires |m[t]| == ENTRIES && PointerOk(m, owner, owner[t], k, pte)
    ensures WellFormed(Store(m, t, k, pte), owner, root)
  {
    var m' := Store(m, t, k, pte);
    forall u | u in m' ensures TableOk(m', owner, u) {
      assert TableOk(m, owner, u);
      forall j | 0 <= j < ENTRIES ensures PointerOk(m', owner, owner[u], j, m'[u][j]) {
        assert PointerOk(m, owner, owner[u], j, m[u][j]);
      }
    }
  }

  /** Walks that do not use the stored entry stop where they did before. */
  lemma StoreElsewhere(m: Memory, owner: Owners, root: nat, t: nat, k: nat, pte: nat, va: nat)
    requires WellFormed(m, owner, root) && t in m && |m[t]| == ENTRIES && k < ENTRIES
    requires !(OnPath(owner[t], va) && Index(va, LevelOf(owner[t])) == k)
    ensures StopAt(Store(m, t, k, pte), root, va) == StopAt(m, root, va)
  {
    assert TableOk(m, owner, root);
    var e2 := m[root][Index(va, 2)];
    assert PointerOk(m, owner, Root, Index(va, 2), e2);
    if Descends(e2) {
      var t1 := PhysOf(e2);
      assert TableOk(m, owner, t1);
      var e1 := m[t1][Index(va, 1)];
      assert PointerOk(m, owner, owner[t1], Index(va, 1), e1);
    }
  }

  /** Walks that use the stored entry stop at it, when it is a leaf, is not present, or is last-level. */
  lemma StoreHere(m: Memory, owner: Owners, root: nat, t: nat, k: nat, pte: nat, va: nat)
    requires WellFormed(m, owner, root) && t in m && |m[t]| == ENTRIES && k < ENTRIES
    requires TableIn(m, root, owner[t]) == Some(t)
    requires OnPath(owner[t], va) && Index(va, LevelOf(owner[t])) == k
    requires owner[t].Pte? || !Descends(pte)
    ensures StopAt(Store(m, t, k, pte), root, va) == Stop(LevelOf(owner[t]), pte)
  {
    assert TableOk(m, owner, root);
    var e2 := m[root][Index(va, 2)];
    assert PointerOk(m, owner, Root, Index(va, 2), e2);
    if owner[t].Pte? {
      var t1 := PhysOf(e2);
      assert TableOk(m, owner, t1);
      assert PointerOk(m, owner, owner[t1], Index(va, 1), m[t1][Index(va, 1)]);
    }
  }

  // ----- hanging a new, empty table

  function Hang(m: Memory, t: nat, k: nat, page: nat): Memory
    requires t in m && k < |m[t]| && page !in m
  {
    Store(m[page := ZeroTable()], t, k, MakePte(page, PTE_V))
  }

  lemma HangWellFormed(m: Memory, owner: Owners, root: nat, t: nat, k: nat, page: nat)
    requires WellFormed(m, owner, root) && t in m && |m[t]| == ENTRIES && k < ENTRIES && !owner[t].Pte?
    requires page !in m && page % PAGE == 0 && page < 0x100_0000_0000_0000
    ensures WellFormed(Hang(m, t, k, page), owner[page := ChildSlot(owner[t], k)], root)
  {
    var m1, owner' := m[page := ZeroTable()], owner[page := ChildSlot(owner[t], k)];
    forall u | u in m1 ensures TableOk(m1, owner', u) {
      if u != page {
        assert TableOk(m, owner, u);
        forall j | 0 <= j < ENTRIES ensures PointerOk(m1, owner', owner'[u], j, m1[u][j]) {
          assert PointerOk(m, owner, owner[u], j, m[u][j]);
        }
      }
    }
    PteRoundTrip(page, PTE_V);
    StoreWellFormed(m1, owner', root, t, k, MakePte(page, PTE_V));
  }

  /** Nothing is mapped by hanging an empty table where there was none: every walk either stops where it
      did or stops at an entry that is not present, as before. */
  ghost predicate SameStop(s: Stop, s': Stop) {
    s == s' || (!Present(s.pte) && !Present(s'.pte))
  }

  lemma HangKeepsStops(m: Memory, owner: Owners, root: nat, t: nat, k: nat, page: nat, va: nat)
    requires WellFormed(m, owner, root) && t in m && |m[t]| == ENTRIES && k < ENTRIES && !owner[t].Pte?
    requires page !in m && page % PAGE == 0 && page < 0x100_0000_0000_0000
    requires !Present(m[t][k])
    ensures SameStop(StopAt(m, root, va), StopAt(Hang(m, t, k, page), root, va))
  {
    PteRoundTrip(page, PTE_V);
    assert TableOk(m, owner, root);
    var e2 := m[root][Index(va, 2)];
    assert PointerOk(m, owner, Root, Index(va, 2), e2);
    if Descends(e2) {
      var t1 := PhysOf(e2);
      assert TableOk(m, owner, t1);
      assert PointerOk(m, owner, owner[t1], Index(va, 1), m[t1][Index(va, 1)]);
    }
  }

  // ----- what the mapping functions promise

  /** Every walk except those sharing va's entry at this level stops as before; those stop at pte. */
  ghost predicate Replaced(m: Memory, m': Memory, root: nat, va: nat, level: nat, pte: nat) {
    forall va': nat {:trigger StopAt(m', root, va')} ::
      if SameEntry(va, va', level) then StopAt(m', root, va') == Stop(level, pte)
      else SameStop(StopAt(m, root, va'), StopAt(m', root, va'))
  }

  ghost predicate Undisturbed(m: Memory, m': Memory, root: nat) {
    forall va': nat {:trigger StopAt(m', root, va')} :: SameStop(StopAt(m, root, va'), StopAt(m', root, va'))
  }

  /** What mapping physical page pa with the given flags should make of an address in that page. */
  function Mapped(pa: nat, flags: nat): Translation {
    if (FlagW(flags) && !FlagR(flags)) || !(FlagR(flags) || FlagX(flags)) then Fault
    else Page(pa, WithV(flags))
  }

  lemma StoreReplaces(m: Memory, owner: Owners, root: nat, t: nat, k: nat, pte: nat, va: nat)
    requires WellFormed(m, owner, root) && t in m && |m[t]| == ENTRIES && k < ENTRIES
    requires TableIn(m, root, owner[t]) == Some(t)
    requires OnPath(owner[t], va) && Index(va, LevelOf(owner[t])) == k
    requires owner[t].Pte? || !Descends(pte)
    ensures Replaced(m, Store(m, t, k, pte), root, va, LevelOf(owner[t]), pte)
  {
    forall va': nat
      ensures if SameEntry(va, va', LevelOf(owner[t])) then
                StopAt(Store(m, t, k, pte), root, va') == Stop(LevelOf(owner[t]), pte)
              else StopAt(m, root, va') == StopAt(Store(m, t, k, pte), root, va')
    {
      if SameEntry(va, va', LevelOf(owner[t])) {
        StoreHere(m, owner, root, t, k, pte, va');
      } else {
        StoreElsewhere(m, owner, root, t, k, pte, va');
      }
    }
  }

  lemma UndisturbedThenReplaced(m: Memory, m1: Memory, m': Memory, root: nat, va: nat, level: nat, pte: nat)
    requires Undisturbed(m, m1, root) && Replaced(m1, m', root, va, level, pte)
    ensures Replaced(m, m', root, va, level, pte)
  {}

  /** What the hardware makes of a leaf written for an aligned physical address. */
  lemma LeafMaps(va: nat, level: nat, pa: nat, flags: nat)
    requires level <= 2 && pa % Span(level) == 0 && pa < 0x100_0000_0000_0000 && flags < 1024
    ensures Decode(Stop(level, MakePte(pa, WithV(flags))), va) == Mapped(pa + va % Span(level) / PAGE * PAGE, flags)
  {
    assert pa % PAGE == 0 by { PageIndex(pa, level); Digits(pa); }
    PteRoundTrip(pa, WithV(flags));
    WithVBits(flags);
  }

  /** A leaf of the given level whose physical address is aligned to that level maps its whole region
      linearly, and the rest of the address space keeps its translation. */
  lemma ReplacedTranslates(m: Memory, m': Memory, owner: Owners, owner': Owners, root: nat, va: nat, level: nat,
                           pa: nat, flags: nat)
    requires WellFormed(m, owner, root) && WellFormed(m', owner', root) && level <= 2
    requires pa % Span(level) == 0 && pa < 0x100_0000_0000_0000 && flags < 1024
    requires Replaced(m, m', root, va, level, MakePte(pa, WithV(flags)))
    ensures MapsRegion(m, m', root, va, level, pa, flags)
  {
    forall va': nat | Canonical(va')
      ensures Translate(m', root, va') ==
              if SameEntry(va, va', level) then Mapped(pa + va' % Span(level) / PAGE * PAGE, flags)
              else Translate(m, root, va')
    {
      HardwareAgrees(m, owner, root, va');
      HardwareAgrees(m', owner', root, va');
      LeafMaps(va', level, pa, flags);
      assert SameEntry(va, va', level) ==> StopAt(m', root, va') == Stop(level, MakePte(pa, WithV(flags)));
    }
  }

  lemma WithVBits(f: nat)
    requires f < 1024
    ensures WithV(f) < 1024 && FlagV(WithV(f))
    ensures FlagR(WithV(f)) == FlagR(f) && FlagW(WithV(f)) == FlagW(f) && FlagX(WithV(f)) == FlagX(f)
    ensures HasRwx(WithV(f)) == HasRwx(f)
  {}

  lemma UndisturbedTranslates(m: Memory, m': Memory, owner: Owners, owner': Owners, root: nat)
    requires WellFormed(m, owner, root) && WellFormed(m', owner', root) && Undisturbed(m, m', root)
    ensures SameTranslation(m, m', root)
  {
    forall va': nat | Canonical(va') ensures Translate(m', root, va') == Translate(m, root, va') {
      assert SameStop(StopAt(m, root, va'), StopAt(m', root, va'));
      SameStopTranslates(m, m', owner, owner', root, va');
    }
  }

  /** m' translates as m does, except that the region of this level's size around va is mapped linearly
      from physical address pa. */
  ghost predicate MapsRegion(m: Memory, m': Memory, root: nat, va: nat, level: nat, pa: nat, flags: nat) {
    forall va': nat {:trigger Translate(m', root, va')} | Canonical(va') ::
      Translate(m', root, va') ==
      if SameEntry(va, va', level) then Mapped(pa + va' % Span(level) / PAGE * PAGE, flags)
      else Translate(m, root, va')
  }

  ghost predicate SameTranslation(m: Memory, m': Memory, root: nat) {
    forall va': nat {:trigger Translate(m', root, va')} | Canonical(va') ::
      Translate(m', root, va') == Translate(m, root, va')
  }

  // ----- mapping a page below a superpage leaf

  /** m' is m with the superpage leaf above va overwritten by an entry for pa. */
  ghost predicate Overwritten(m: Memory, m': Memory, owner: Owners, owner': Owners, root: nat, va: nat, pa: nat,
                              flags: nat)
  {
    && WellFormed(m, owner, root) && WellFormed(m', owner', root)
    && Canonical(va) && pa % PAGE == 0 && pa < 0x100_0000_0000_0000 && flags < 1024
    && Mapped(pa, flags).Page? && !PathClear(m, root, va)
    && Replaced(m, m', root, va, StopAt(m, root, va).level, MakePte(pa, WithV(flags)))
  }

  /** The leaf already was the very entry being stored, properly aligned, and va lies in its first page. */
  predicate AlreadyThere(s: Stop, va: nat, pa: nat, flags: nat) {
    s.pte == MakePte(pa, WithV(flags)) && pa % Span(s.level) == 0 && va % Span(s.level) < PAGE
  }

  /** Mapping over a superpage leaf replaces the whole superpage.  It nevertheless maps exactly the one
      page it was asked to map if and only if that leaf was already there. */
  lemma OverwriteExactly(m: Memory, m': Memory, owner: Owners, owner': Owners, root: nat, va: nat, pa: nat,
                         flags: nat)
    requires Overwritten(m, m', owner, owner', root, va, pa, flags)
    ensures MapsRegion(m, m', root, va, 0, pa, flags) <==> AlreadyThere(StopAt(m, root, va), va, pa, flags)
  {
    if MapsRegion(m, m', root, va, 0, pa, flags) {
      OverwriteOnlyIf(m, m', owner, owner', root, va, pa, flags);
    }
    if AlreadyThere(StopAt(m, root, va), va, pa, flags) {
      OverwriteIf(m, m', owner, owner', root, va, pa, flags);
    }
  }

  lemma OverwriteOnlyIf(m: Memory, m': Memory, owner: Owners, owner': Owners, root: nat, va: nat, pa: nat,
                        flags: nat)
    requires Overwritten(m, m', owner, owner', root, va, pa, flags)
    requires MapsRegion(m, m', root, va, 0, pa, flags)
    ensures AlreadyThere(StopAt(m, root, va), va, pa, flags)
  {
    var s, pte := StopAt(m, root, va), MakePte(pa, WithV(flags));
    OverwriteAligned(m, m', owner, owner', root, va, pa, flags);
    NextPage(va, s.level);
    var va1 := va + PAGE;
    SameStopInRegion(m, root, va, va1);
    HardwareAgrees(m, owner, root, va1);
    HardwareAgrees(m', owner', root, va1);
    assert StopAt(m', root, va1) == Stop(s.level, pte);
    assert Translate(m', root, va1) == Translate(m, root, va1);
    SamePte(s, pte, va1);
  }

  lemma OverwriteAligned(m: Memory, m': Memory, owner: Owners, owner': Owners, root: nat, va: nat, pa: nat,
                         flags: nat)
    requires Overwritten(m, m', owner, owner', root, va, pa, flags)
    requires MapsRegion(m, m', root, va, 0, pa, flags)
    ensures var level, pte := StopAt(m, root, va).level, MakePte(pa, WithV(flags));
            && 1 <= level <= 2 && pa % Span(level) == 0 && va % Span(level) < PAGE
            && forall va' :: Decode(Stop(level, pte), va').Page?
  {
    var s, pte := StopAt(m, root, va), MakePte(pa, WithV(flags));
    HardwareAgrees(m', owner', root, va);
    assert StopAt(m', root, va) == Stop(s.level, pte);
    InsidePage(va);
    assert SameEntry(va, va, 0) && Span(0) == PAGE;
    assert Translate(m', root, va) == Mapped(pa, flags);
    FirstPageOnly(s.level, va, pa, flags);
  }

  lemma InsidePage(va: nat)
    ensures va % PAGE / PAGE * PAGE == 0
  {
    DivIs(va % PAGE, PAGE, 0, va % PAGE);
  }

  lemma FirstPageOnly(level: nat, va: nat, pa: nat, flags: nat)
    requires pa % PAGE == 0 && flags < 1024 && Mapped(pa, flags).Page? && level <= 2
    requires Decode(Stop(level, MakePte(pa, WithV(flags))), va) == Mapped(pa, flags)
    ensures pa % Span(level) == 0 && va % Span(level) < PAGE
    ensures forall va' :: Decode(Stop(level, MakePte(pa, WithV(flags))), va').Page?
  {
    PteRoundTrip(pa, WithV(flags));
    WithVBits(flags);
  }

  /** Two leaves of one level that translate one address alike are the same entry. */
  lemma SamePte(s: Stop, pte: nat, va: nat)
    requires Decode(s, va).Page? && Decode(s, va) == Decode(Stop(s.level, pte), va)
    ensures s.pte == pte
  {}

  lemma OverwriteIf(m: Memory, m': Memory, owner: Owners, owner': Owners, root: nat, va: nat, pa: nat,
                    flags: nat)
    requires Overwritten(m, m', owner, owner', root, va, pa, flags)
    requires AlreadyThere(StopAt(m, root, va), va, pa, flags)
    ensures MapsRegion(m, m', root, va, 0, pa, flags)
  {
    forall va': nat | Canonical(va')
      ensures Translate(m', root, va') ==
              if SameEntry(va, va', 0) then Mapped(pa + va' % PAGE / PAGE * PAGE, flags)
              else Translate(m, root, va')
    {
      if SameEntry(va, va', 0) {
        OverwriteHere(m, m', owner, owner', root, va, pa, flags, va');
        InsidePage(va');
      } else {
        OverwriteElsewhere(m, m', owner, owner', root, va, pa, flags, va');
      }
    }
  }

  lemma OverwriteHere(m: Memory, m': Memory, owner: Owners, owner': Owners, root: nat, va: nat, pa: nat,
                      flags: nat, va': nat)
    requires Overwritten(m, m', owner, owner', root, va, pa, flags) && Canonical(va') && SameEntry(va, va', 0)
    requires AlreadyThere(StopAt(m, root, va), va, pa, flags)
    ensures Translate(m', root, va') == Mapped(pa, flags)
  {
    var level := StopAt(m, root, va).level;
    HardwareAgrees(m', owner', root, va');
    assert StopAt(m', root, va') == Stop(level, MakePte(pa, WithV(flags)));
    LeafMaps(va', level, pa, flags);
    FirstPage(va, va', level);
  }

  lemma OverwriteElsewhere(m: Memory, m': Memory, owner: Owners, owner': Owners, root: nat, va: nat, pa: nat,
                           flags: nat, va': nat)
    requires Overwritten(m, m', owner, owner', root, va, pa, flags) && Canonical(va')
    requires StopAt(m, root, va).pte == MakePte(pa, WithV(flags))
    ensures Translate(m', root, va') == Translate(m, root, va')
  {
    var s := StopAt(m, root, va);
    if SameEntry(va, va', s.level) { SameStopInRegion(m, root, va, va'); }
    assert SameStop(StopAt(m, root, va'), StopAt(m', root, va'));
    SameStopTranslates(m, m', owner, owner', root, va');
  }

  lemma SameStopTranslates(m: Memory, m': Memory, owner: Owners, owner': Owners, root: nat, va: nat)
    requires WellFormed(m, owner, root) && WellFormed(m', owner', root) && Canonical(va)
    requires SameStop(StopAt(m, root, va), StopAt(m', root, va))
    ensures Translate(m', root, va) == Translate(m, root, va)
  {
    HardwareAgrees(m, owner, root, va);
    HardwareAgrees(m', owner', root, va);
  }

  lemma FirstPage(va: nat, va': nat, level: nat)
    requires Canonical(va) && Canonical(va') && level <= 2 && SameEntry(va, va', 0) && va % Span(level) < PAGE
    ensures va' % Span(level) / PAGE == 0
  {
    SameEntryIsSameRegion(va, va', 0);
    PageIndex(va, level);
    PageIndex(va', level);
  }

  /** Which page of its level-sized region an address lies in. */
  lemma PageIndex(va: nat, level: nat)
    ensures va % Span(level) / PAGE == va / PAGE % (Span(level) / PAGE)
  {
    Digits(va);
    if level == 1 {
      DivIs(va % MEGA, PAGE, va / PAGE % 512, va % PAGE);
    } else if level >= 2 {
      DivIs(va % GIGA, PAGE, va / PAGE % 0x4_0000, va % PAGE);
    }
  }

  lemma NextPage(va: nat, level: nat)
    requires Canonical(va) && 1 <= level <= 2 && va % Span(level) < PAGE
    ensures Canonical(va + PAGE) && SameEntry(va, va + PAGE, level) && !SameEntry(va, va + PAGE, 0)
    ensures (va + PAGE) % Span(level) / PAGE == 1
  {
    var k, r := va / Span(level), va % Span(level);
    DivIs(va + PAGE, Span(level), k, r + PAGE);
    DivIs(r + PAGE, PAGE, 1, r);
    DivIs(va + PAGE, PAGE, va / PAGE + 1, va % PAGE);
    NextCanonical(va, level);
    SameEntryIsSameRegion(va, va + PAGE, level);
    SameEntryIsSameRegion(va, va + PAGE, 0);
  }

  lemma NextCanonical(va: nat, level: nat)
    requires Canonical(va) && 1 <= level <= 2 && va % Span(level) < PAGE
    ensures Canonical(va + PAGE)
  {
    if level == 1 { assert va == MEGA * (va / MEGA) + va % MEGA; } else { assert va == GIGA * (va / GIGA) + va % GIGA; }
  }

  /** Addresses under one superpage leaf stop at that leaf. */
  lemma SameStopInRegion(m: Memory, root: nat, va: nat, va': nat)
    requires SameEntry(va, va', StopAt(m, root, va).level)
    ensures StopAt(m, root, va') == StopAt(m, root, va)
  {}

  // ----- regions

  /** The n pages from va0 on are mapped, in order, to the pages from pa0 on; all other addresses
      translate as before. */
  ghost predicate RegionMapped(m: Memory, m': Memory, root: nat, va0: nat, pa0: nat, n: nat, flags: nat) {
    forall va': nat {:trigger Translate(m', root, va')} | Canonical(va') ::
      Translate(m', root, va') ==
      if va0 / PAGE <= va' / PAGE < va0 / PAGE + n
      then Mapped((pa0 / PAGE + va' / PAGE - va0 / PAGE) * PAGE, flags)
      else Translate(m, root, va')
  }

  /** The n pages from va0 on lie in one half of the canonical address space. */
  predicate CanonicalRange(va0: nat, n: nat) {
    || (va0 / PAGE + n) * PAGE <= 0x40_0000_0000
    || (0xFFFF_FFC0_0000_0000 <= va0 && (va0 / PAGE + n) * PAGE < 0x1_0000_0000_0000_0000)
  }

  ghost predicate RegionClear(m: Memory, root: nat, va0: nat, from: nat, n: nat) {
    forall va': nat {:trigger PathClear(m, root, va')} | Canonical(va') &&
      va0 / PAGE + from <= va' / PAGE < va0 / PAGE + n :: PathClear(m, root, va')
  }

  /** Mapping one more level-sized piece extends the mapped region. */
  lemma RegionExtend(m0: Memory, m: Memory, m': Memory, root: nat, va0: nat, pa0: nat, k: nat, level: nat,
                     flags: nat)
    requires level <= 2 && Canonical(va0 + k * PAGE)
    requires level > 0 ==> (va0 + k * PAGE) % Span(level) == 0 && (pa0 + k * PAGE) % Span(level) == 0
    requires RegionMapped(m0, m, root, va0, pa0, k, flags)
    requires MapsRegion(m, m', root, va0 + k * PAGE, level, (pa0 + k * PAGE) / PAGE * PAGE, flags)
    ensures RegionMapped(m0, m', root, va0, pa0, k + Span(level) / PAGE, flags)
  {
    var va, pa := va0 + k * PAGE, pa0 + k * PAGE;
    assert va / PAGE == va0 / PAGE + k && pa / PAGE == pa0 / PAGE + k;
    forall va': nat | Canonical(va')
      ensures Translate(m', root, va') ==
              if va0 / PAGE <= va' / PAGE < va0 / PAGE + k + Span(level) / PAGE
              then Mapped((pa0 / PAGE + va' / PAGE - va0 / PAGE) * PAGE, flags)
              else Translate(m0, root, va')
    {
      SameEntryIsSameRegion(va, va', level);
      RegionPages(va, va', level);
      assert Translate(m', root, va') ==
             if SameEntry(va, va', level) then Mapped(pa / PAGE * PAGE + va' % Span(level) / PAGE * PAGE, flags)
             else Translate(m, root, va');
    }
  }

  lemma RegionPages(va: nat, va': nat, level: nat)
    requires level <= 2 && (level > 0 ==> va % Span(level) == 0)
    ensures va / Span(level) == va' / Span(level) <==>
            va / PAGE <= va' / PAGE < va / PAGE + Span(level) / PAGE
    ensures va / Span(level) == va' / Span(level) ==> va' % Span(level) / PAGE == va' / PAGE - va / PAGE
  {
    PageIndex(va, level);
    PageIndex(va', level);
    SpanPages(va, level);
    SpanPages(va', level);
  }

  lemma SpanPages(va: nat, level: nat)
    ensures va / Span(level) == va / PAGE / (Span(level) / PAGE)
  {
    if level == 1 {
      assert va / MEGA == va / PAGE / 512;
    } else if level >= 2 {
      assert va / GIGA == va / PAGE / 0x4_0000;
    }
  }

  /** A mapped piece leaves the rest of the region free of superpage leaves. */
  lemma ReplacedKeepsClear(m: Memory, m': Memory, root: nat, va0: nat, k: nat, n: nat, level: nat, pte: nat)
    requires level <= 2 && Canonical(va0 + k * PAGE)
    requires level > 0 ==> (va0 + k * PAGE) % Span(level) == 0
    requires RegionClear(m, root, va0, k, n)
    requires Replaced(m, m', root, va0 + k * PAGE, level, pte)
    ensures RegionClear(m', root, va0, k + Span(level) / PAGE, n)
  {
    var va := va0 + k * PAGE;
    assert va / PAGE == va0 / PAGE + k;
    forall va': nat | Canonical(va') && va0 / PAGE + k + Span(level) / PAGE <= va' / PAGE < va0 / PAGE + n
      ensures PathClear(m', root, va')
    {
      SameEntryIsSameRegion(va, va', level);
      RegionPages(va, va', level);
      assert PathClear(m, root, va');
      assert SameStop(StopAt(m, root, va'), StopAt(m', root, va'));
    }
  }
}
