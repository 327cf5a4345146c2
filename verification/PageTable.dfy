/** The Sv39 page-table code: tables are stored to in place, and every function is proved against the
    hardware translation for all addresses at once. */
module PageTable {
  import opened Division
  import opened Sv39
  import opened Lists
  import opened PageTableSpec

  lemma UndisturbedTwice(m: Memory, m1: Memory, m': Memory, root: nat)
    requires Undisturbed(m, m1, root) && Undisturbed(m1, m', root)
    ensures Undisturbed(m, m', root)
  {}

  lemma HangUndisturbed(m: Memory, owner: Owners, root: nat, t: nat, k: nat, page: nat)
    requires WellFormed(m, owner, root) && t in m && |m[t]| == ENTRIES && k < ENTRIES && !owner[t].Pte?
    requires page !in m && page % PAGE == 0 && page < 0x100_0000_0000_0000
    requires !Present(m[t][k])
    ensures Undisturbed(m, Hang(m, t, k, page), root)
  {
    forall va': nat ensures SameStop(StopAt(m, root, va'), StopAt(Hang(m, t, k, page), root, va')) {
      HangKeepsStops(m, owner, root, t, k, page, va');
    }
  }

  /** The entry made for a page reads as a pointer to a table exactly when its flags hold none of R, W, X. */
  lemma LeafPte(pa: nat, flags: nat)
    requires pa % PAGE == 0 && flags < 1024
    ensures Descends(MakePte(pa, WithV(flags))) <==> !HasRwx(flags)
  {
    WithVBits(flags);
    PteRoundTrip(pa, WithV(flags));
  }

  /** Rounding down to a level's boundary. */
  function Down(x: nat, level: nat): nat { x / Span(level) * Span(level) }

  lemma DownBasic(x: nat, level: nat)
    requires level <= 2
    ensures Down(x, level) % Span(level) == 0 && Down(x, level) % PAGE == 0 && Down(x, level) <= x
    ensures Down(x, level) / Span(level) == x / Span(level)
  {
    var k := x / Span(level);
    DivIs(k * Span(level), Span(level), k, 0);
    if level == 1 { DivIs(k * MEGA, PAGE, k * 512, 0); }
    if level == 2 { DivIs(k * GIGA, PAGE, k * 0x4_0000, 0); }
  }

  lemma DownAligned(x: nat, level: nat)
    requires level <= 2
    ensures Down(x, level) % Span(level) == 0 && Down(x, level) % PAGE == 0 && Down(x, level) <= x
    ensures Down(x, level) / Span(level) == x / Span(level)
    ensures forall l {:trigger Index(Down(x, level), l)} | level <= l <= 2 :: Index(Down(x, level), l) == Index(x, l)
  {
    DownBasic(x, level);
    forall l: nat | level <= l <= 2 ensures Index(Down(x, level), l) == Index(x, l) {
      SpanRatio(x, level, l);
      SpanRatio(Down(x, level), level, l);
    }
  }

  lemma SpanRatio(x: nat, level: nat, l: nat)
    requires level <= l <= 2
    ensures x / Span(l) == x / Span(level) / (Span(l) / Span(level))
  {
    SpanPages(x, l);
    if level == 1 && l == 2 { assert x / GIGA == x / MEGA / 512; }
  }

  // ----- the tables pgtable_init sets up

  const MMIO_BASE: nat := 0
  const PHYS_MEMORY_BASE: nat := 0x8000_0000
  const PTE_KERNEL: nat := 199       // V, R, W, A, D
  const PTE_KERNEL_RWX: nat := 207   // V, R, W, X, A, D

  function KernelTables(root: nat): Memory {
    var devices: seq<nat> := ZeroTable()[0 := MakePte(MMIO_BASE, PTE_KERNEL)];
    var table := devices[2 := MakePte(PHYS_MEMORY_BASE, PTE_KERNEL_RWX)];
    map[root := table]
  }

  /** The devices' gigabyte and the kernel's gigabyte translate to themselves, nothing else translates. */
  function KernelPage(va: nat): Translation {
    if va / GIGA == 0 then Page(va / PAGE * PAGE, PTE_KERNEL)
    else if va / GIGA == 2 then Page(va / PAGE * PAGE, PTE_KERNEL_RWX)
    else Fault
  }

  lemma KernelTablesOk(root: nat)
    requires root % PAGE == 0 && root < 0x100_0000_0000_0000
    ensures WellFormed(KernelTables(root), map[root := Root], root)
  {
    assert TableOk(KernelTables(root), map[root := Root], root);
  }

  lemma KernelStops(root: nat, va: nat)
    requires Canonical(va)
    ensures StopAt(KernelTables(root), root, va) ==
            Stop(2, if va / GIGA == 0 then MakePte(MMIO_BASE, PTE_KERNEL)
                    else if va / GIGA == 2 then MakePte(PHYS_MEMORY_BASE, PTE_KERNEL_RWX) else 0)
  {
    var m, i := KernelTables(root), Index(va, 2);
    LeafPte(MMIO_BASE, PTE_KERNEL);
    LeafPte(PHYS_MEMORY_BASE, PTE_KERNEL_RWX);
    SameGigabyte(va, MMIO_BASE);
    SameGigabyte(va, PHYS_MEMORY_BASE);
    assert Entry(m, root, i) == if i == 0 then MakePte(MMIO_BASE, PTE_KERNEL)
                                else if i == 2 then MakePte(PHYS_MEMORY_BASE, PTE_KERNEL_RWX) else 0;
  }

  lemma KernelTranslates(root: nat, va: nat)
    requires root % PAGE == 0 && root < 0x100_0000_0000_0000 && Canonical(va)
    ensures Translate(KernelTables(root), root, va) == KernelPage(va)
  {
    KernelTablesOk(root);
    HardwareAgrees(KernelTables(root), map[root := Root], root, va);
    KernelStops(root, va);
    KernelDecodes(va);
  }

  lemma KernelDecodes(va: nat)
    ensures va / GIGA == 0 ==> Decode(Stop(2, MakePte(MMIO_BASE, PTE_KERNEL)), va) == KernelPage(va)
    ensures va / GIGA == 2 ==> Decode(Stop(2, MakePte(PHYS_MEMORY_BASE, PTE_KERNEL_RWX)), va) == KernelPage(va)
    ensures Decode(Stop(2, 0), va) == Fault
  {
    LeafMaps(va, 2, MMIO_BASE, PTE_KERNEL);
    LeafMaps(va, 2, PHYS_MEMORY_BASE, PTE_KERNEL_RWX);
    PageInGigabyte(va);
  }

  lemma PageInGigabyte(va: nat)
    ensures va / GIGA * GIGA + va % GIGA / PAGE * PAGE == va / PAGE * PAGE
  {
    var p := va / PAGE;
    Digits(va);
    DivIs(va % GIGA, PAGE, p % 0x4_0000, va % PAGE);
    assert p == va / GIGA * 0x4_0000 + p % 0x4_0000;
  }

  /** The two stores into the cleared root table. */
  lemma KernelStores(root: nat)
    ensures var m0: Memory := map[root := ZeroTable()];
            var m1 := Store(m0, root, Index(MMIO_BASE, 2), MakePte(Down(MMIO_BASE, 2), WithV(PTE_KERNEL)));
            && root in m1 && |m1[root]| == ENTRIES
            && Store(m1, root, Index(PHYS_MEMORY_BASE, 2), MakePte(Down(PHYS_MEMORY_BASE, 2), WithV(PTE_KERNEL_RWX)))
               == KernelTables(root)
  {
    assert Index(MMIO_BASE, 2) == 0 && Index(PHYS_MEMORY_BASE, 2) == 2;
    assert Down(MMIO_BASE, 2) == MMIO_BASE && Down(PHYS_MEMORY_BASE, 2) == PHYS_MEMORY_BASE;
  }

  // ----- map_page_2m under a gigapage leaf

  predicate UnderGigapage(m: Memory, root: nat, va: nat) {
    StopAt(m, root, va).level == 2 && Present(StopAt(m, root, va).pte)
  }

  /** The page map_page_2m takes for the middle-level table when there is a gigapage leaf. */
  function StrayFrame(m: Memory, root: nat, va: nat): nat { PhysOf(Entry(m, root, Index(va, 2))) }

  /** The leaf above va gives the first page of va's 2 MB region this translation. */
  predicate AlreadyMaps(m: Memory, root: nat, va: nat, pa: nat, flags: nat) {
    Decode(StopAt(m, root, va), Down(va, 1)) == Mapped(pa, flags)
  }

  /** The entry above va once map_page_2m has stored into the leaf's page: the leaf, or the stored entry when that
      page is the root table and the entry takes the leaf's place. */
  function StrayStop(m: Memory, root: nat, va: nat, pa: nat, flags: nat): Stop {
    if StrayFrame(m, root, va) == root && Index(va, 1) == Index(va, 2) then Stop(2, MakePte(pa, WithV(flags)))
    else StopAt(m, root, va)
  }

  /** That entry gives the first page of va's 2 MB region this translation. */
  predicate StrayMaps(m: Memory, root: nat, va: nat, pa: nat, flags: nat) {
    Decode(StrayStop(m, root, va, pa, flags), Down(va, 1)) == Mapped(pa, flags)
  }

  /** Away from the root table that is up to the leaf that is there; an entry that takes the leaf's place maps the
      region as asked exactly when its page starts a gigabyte and the region is the first of its own. */
  lemma StrayMapsExactly(m: Memory, root: nat, va: nat, pa: nat, flags: nat)
    requires pa % MEGA == 0 && pa < 0x100_0000_0000_0000 && flags < 1024 && Mapped(pa, flags) != Fault
    ensures StrayMaps(m, root, va, pa, flags) <==>
            if StrayFrame(m, root, va) == root && Index(va, 1) == Index(va, 2) then pa % GIGA == 0 && Index(va, 1) == 0
            else AlreadyMaps(m, root, va, pa, flags)
  {
    var va0 := Down(va, 1);
    DownAligned(va, 1);
    WithVBits(flags);
    assert pa % PAGE == 0 by { Digits(pa); }
    PteRoundTrip(pa, WithV(flags));
    FirstRegion(va, va0);
  }

  lemma FirstRegion(va: nat, va0: nat)
    requires va0 % MEGA == 0 && va0 / MEGA == va / MEGA
    ensures va0 % GIGA / PAGE * PAGE == 0 <==> Index(va, 1) == 0
  {
    Digits(va0);
    Digits(va);
  }

  /** Every address of va's 2 MB region translates as a megapage at pa with these flags would have it. */
  ghost predicate MegapageIs(m: Memory, root: nat, va: nat, pa: nat, flags: nat) {
    forall va': nat {:trigger Translate(m, root, va')} | Canonical(va') && SameEntry(va, va', 1) ::
      Translate(m, root, va') == Mapped(pa + va' % MEGA / PAGE * PAGE, flags)
  }

  /** Under a gigapage leaf a 2 MB region translates as asked exactly when the leaf's first page of it does. */
  lemma UnderLeafExactly(m: Memory, owner: Owners, root: nat, va: nat, pa: nat, flags: nat)
    requires WellFormed(m, owner, root) && Canonical(va) && UnderGigapage(m, root, va) && pa % MEGA == 0
    ensures MegapageIs(m, root, va, pa, flags) <==> AlreadyMaps(m, root, va, pa, flags)
  {
    var va0 := Down(va, 1);
    DownAligned(va, 1);
    assert Canonical(va0);
    forall va': nat | Canonical(va') && SameEntry(va, va', 1)
      ensures Translate(m, root, va') == Decode(StopAt(m, root, va), va')
      ensures Decode(StopAt(m, root, va), va0) == Mapped(pa, flags) ==>
                Translate(m, root, va') == Mapped(pa + va' % MEGA / PAGE * PAGE, flags)
    {
      SameStopInRegion(m, root, va, va');
      HardwareAgrees(m, owner, root, va');
      SameEntryIsSameRegion(va, va', 1);
      if Decode(StopAt(m, root, va), va0) == Mapped(pa, flags) {
        LeafWithin(StopAt(m, root, va).pte, va0, va', pa, flags);
      }
    }
    assert SameEntry(va, va0, 1);
    if MegapageIs(m, root, va, pa, flags) {
      assert Translate(m, root, va0) == Mapped(pa + va0 % MEGA / PAGE * PAGE, flags);
    }
  }

  /** A gigapage leaf that gives the first page of a 2 MB region a translation gives its others the next ones. */
  lemma LeafWithin(pte: nat, va0: nat, va: nat, pa: nat, flags: nat)
    requires va0 % MEGA == 0 && va / MEGA == va0 / MEGA && Decode(Stop(2, pte), va0) == Mapped(pa, flags)
    ensures Decode(Stop(2, pte), va) == Mapped(pa + va % MEGA / PAGE * PAGE, flags)
  {
    WithinGigapage(va0, va);
  }

  /** What the stray store makes of the region. */
  lemma StrayStored(m: Memory, m': Memory, owner: Owners, root: nat, va: nat, pa: nat, flags: nat)
    requires WellFormed(m', owner, root) && root in m && |m[root]| == ENTRIES && Canonical(va)
             && UnderGigapage(m, root, va)
    requires pa % MEGA == 0 && pa % PAGE == 0 && flags < 1024 && HasRwx(flags)
    requires var frame, pte := StrayFrame(m, root, va), MakePte(pa, WithV(flags));
             if frame in m then |m[frame]| == ENTRIES && m' == Store(m, frame, Index(va, 1), pte) else m' == m
    ensures MegapageIs(m', root, va, pa, flags) <==> StrayMaps(m, root, va, pa, flags)
  {
    LeafPte(pa, flags);
    WithVBits(flags);
    PteRoundTrip(pa, WithV(flags));
    assert StopAt(m', root, va) == StrayStop(m, root, va, pa, flags);
    UnderLeafExactly(m', owner, root, va, pa, flags);
  }

  /** Offsets within a gigabyte and within its 2 MB regions. */
  lemma WithinGigapage(va0: nat, va: nat)
    requires va0 % MEGA == 0 && va / MEGA == va0 / MEGA
    ensures va % GIGA / PAGE == va0 % GIGA / PAGE + va % MEGA / PAGE
  {
    PageOffsets(va);
    PageOffsets(va0);
  }

  lemma PageOffsets(va: nat)
    ensures va % GIGA / PAGE == va / MEGA % 512 * 512 + va % MEGA / PAGE
  {
    Digits(va);
    DivIs(va % MEGA, PAGE, va / PAGE % 512, va % PAGE);
    DivIs(va % GIGA, PAGE, va / PAGE % 0x4_0000, va % PAGE);
  }

  class Tables {
    const root: nat
    var mem: Memory
    var pool: seq<nat>          // pages alloc_page will hand out
    var ram: map<nat, nat>      // words stored outside the tables
    ghost var owner: Owners

    ghost predicate Valid()
      reads this
    {
      && WellFormed(mem, owner, root)
      && forall i | 0 <= i < |pool| ::
           && pool[i] !in mem && 0 < pool[i] < 0x100_0000_0000_0000 && pool[i] % PAGE == 0
           && forall j | i < j < |pool| :: pool[i] != pool[j]
    }

    /** pgtable_init: a cleared root table with two gigapages, the devices and the kernel, each mapped to
        itself. */
    constructor (page: nat, pages: seq<nat>)
      requires page % PAGE == 0 && page < 0x100_0000_0000_0000 && page !in pages
      requires forall i | 0 <= i < |pages| ::
                 && 0 < pages[i] < 0x100_0000_0000_0000 && pages[i] % PAGE == 0
                 && forall j | i < j < |pages| :: pages[i] != pages[j]
      ensures Valid() && root == page && pool == pages && mem == KernelTables(page) && ram == map[]
      ensures forall va: nat | Canonical(va) :: Translate(mem, root, va) == KernelPage(va)
    {
      root, mem, pool, ram := page, map[page := ZeroTable()], pages, map[];
      owner := map[page := Root];
      new;
      assert TableOk(mem, owner, root);
      MapPage1g(MMIO_BASE, MMIO_BASE, PTE_KERNEL);
      MapPage1g(PHYS_MEMORY_BASE, PHYS_MEMORY_BASE, PTE_KERNEL_RWX);
      KernelStores(page);
      forall va: nat | Canonical(va) ensures Translate(mem, root, va) == KernelPage(va) { KernelTranslates(page, va); }
    }

    /** t is the table of va's walk at its level, and k is va's index in it. */
    ghost predicate At(t: nat, k: nat, va: nat)
      reads this
    {
      && t in mem && t in owner && |mem[t]| == ENTRIES
      && OnPath(owner[t], va) && k == Index(va, LevelOf(owner[t]))
      && TableIn(mem, root, owner[t]) == Some(t)
    }

    /** alloc_page: 0 when there is no page left. */
    method AllocPage() returns (page: nat)
      requires Valid()
      modifies this`pool
      ensures Valid() && (page == 0 <==> old(pool) == [])
      ensures if page == 0 then pool == old(pool) else page == old(pool)[0] && pool == old(pool)[1..]
      ensures page != 0 ==> page !in mem && page !in pool && page % PAGE == 0 && page < 0x100_0000_0000_0000
    {
      if pool == [] { return 0; }
      page := pool[0];
      pool := pool[1..];
    }

    /** Hang a new empty table below entry k of table t. */
    method AddTable(t: nat, k: nat, ghost va: nat) returns (ok: bool)
      requires Valid() && At(t, k, va) && !owner[t].Pte? && !Present(mem[t][k])
      modifies this`mem, this`pool, this`owner
      ensures Valid() && Undisturbed(old(mem), mem, root)
      ensures At(t, k, va) && owner[t] == old(owner)[t]
      ensures if ok then Descends(mem[t][k]) else pool == [] && mem == old(mem)
    {
      var phys := AllocPage();
      if phys == 0 { return false; }
      HangWellFormed(mem, owner, root, t, k, phys);
      HangUndisturbed(mem, owner, root, t, k, phys);
      PteRoundTrip(phys, PTE_V);
      mem := Hang(mem, t, k, phys);
      owner := owner[phys := ChildSlot(owner[t], k)];
      return true;
    }

    /** walk_pgtable: the table and index of the entry for va, creating tables on the way if asked to.
        It stops early at a superpage leaf. */
    method WalkPgtable(va: nat, create: bool) returns (found: bool, t: nat, k: nat)
      requires Valid()
      modifies this
      ensures Valid() && Undisturbed(old(mem), mem, root)
      ensures !create ==> mem == old(mem) && owner == old(owner) && pool == old(pool)
      ensures found ==> At(t, k, va) && StopAt(mem, root, va) == Stop(LevelOf(owner[t]), mem[t][k])
      ensures found ==> owner[t].Pte? || (Present(mem[t][k]) && Leafy(mem[t][k]))
      ensures !found ==> if create then pool == [] else
                var s := StopAt(mem, root, va);
                s.level > 0 && !Present(s.pte)
    {
      t, k := root, Index(va, 2);
      assert TableOk(mem, owner, root);
      if !Present(mem[t][k]) {
        if !create { return false, t, k; }
        var ok := AddTable(t, k, va);
        if !ok { return false, t, k; }
      }
      if Leafy(mem[t][k]) { return true, t, k; }
      assert TableOk(mem, owner, root);
      assert PointerOk(mem, owner, Root, k, mem[t][k]);
      ghost var m1 := mem;
      t, k := PhysOf(mem[t][k]), Index(va, 1);
      assert TableOk(mem, owner, t);
      if !Present(mem[t][k]) {
        if !create { return false, t, k; }
        var ok := AddTable(t, k, va);
        UndisturbedTwice(old(mem), m1, mem, root);
        if !ok { return false, t, k; }
      }
      if Leafy(mem[t][k]) { return true, t, k; }
      assert TableOk(mem, owner, t);
      assert PointerOk(mem, owner, owner[t], k, mem[t][k]);
      t, k := PhysOf(mem[t][k]), Index(va, 0);
      assert TableOk(mem, owner, t);
      return true, t, k;
    }

    /** Store an entry at the place a walk has found. */
    method SetPte(t: nat, k: nat, pte: nat, ghost va: nat)
      requires Valid() && At(t, k, va) && (owner[t].Pte? || !Descends(pte))
      modifies this`mem
      ensures Valid() && mem == Store(old(mem), t, k, pte)
      ensures Replaced(old(mem), mem, root, va, LevelOf(owner[t]), pte)
    {
      StoreReplaces(mem, owner, root, t, k, pte, va);
      StoreWellFormed(mem, owner, root, t, k, pte);
      mem := Store(mem, t, k, pte);
    }

    /** map_page_4k.  Without a superpage leaf on the way it maps exactly one page; with one, it replaces
        that leaf.  When a table cannot be allocated no translation changes. */
    method MapPage4k(va: nat, pa: nat, flags: nat) returns (ok: bool)
      requires Valid() && flags < 1024 && pa < 0x100_0000_0000_0000
      requires PathClear(mem, root, va) || HasRwx(flags)
      modifies this
      ensures Valid()
      ensures !ok ==> pool == [] && Undisturbed(old(mem), mem, root) && SameTranslation(old(mem), mem, root)
      ensures ok ==> var level := if old(PathClear(mem, root, va)) then 0 else StopAt(old(mem), root, va).level;
                     Replaced(old(mem), mem, root, va, level, MakePte(Down(pa, 0), WithV(flags)))
      ensures ok && old(PathClear(mem, root, va)) ==>
                MapsRegion(old(mem), mem, root, va, 0, Down(pa, 0), flags)
    {
      ghost var m0, owner0 := mem, owner;
      var va0, pa0 := Down(va, 0), Down(pa, 0);
      DownAligned(va, 0);
      DownAligned(pa, 0);
      var found, t, k := WalkPgtable(va0, true);
      UndisturbedTranslates(m0, mem, owner0, owner, root);
      if !found { return false; }
      ghost var m1 := mem;
      assert SameStop(StopAt(m0, root, va0), StopAt(m1, root, va0));
      assert StopAt(m0, root, va) == StopAt(m0, root, va0);
      LeafPte(pa0, flags);
      SetPte(t, k, MakePte(pa0, WithV(flags)), va);
      UndisturbedThenReplaced(m0, m1, mem, root, va, LevelOf(owner[t]), MakePte(pa0, WithV(flags)));
      if PathClear(m0, root, va) {
        ReplacedTranslates(m0, mem, owner0, owner, root, va, 0, pa0, flags);
      }
      return true;
    }

    /** map_page_2m: maps the whole 2 MB region around va; whatever was mapped there is replaced.  Under a
        gigapage leaf it takes that leaf's page for a table and stores there: then the region is mapped as
        asked if and only if the leaf mapped it so before. */
    method MapPage2m(va: nat, pa: nat, flags: nat) returns (ok: bool)
      requires Valid() && flags < 1024 && HasRwx(flags) && pa < 0x100_0000_0000_0000
      modifies this
      ensures Valid()
      ensures !ok ==> pool == [] && Undisturbed(old(mem), mem, root) && SameTranslation(old(mem), mem, root)
      ensures old(UnderGigapage(mem, root, va)) ==>
                && ok && owner == old(owner) && pool == old(pool)
                && var frame, k := StrayFrame(old(mem), root, va), Index(va, 1);
                var pte := MakePte(Down(pa, 1), WithV(flags));
                if frame in old(mem)
                then ram == old(ram) && |old(mem)[frame]| == ENTRIES && mem == Store(old(mem), frame, k, pte)
                else mem == old(mem) && ram == old(ram)[frame + 8 * k := pte]
      ensures ok && !old(UnderGigapage(mem, root, va)) ==>
                && Replaced(old(mem), mem, root, va, 1, MakePte(Down(pa, 1), WithV(flags))) && ram == old(ram)
                && MapsRegion(old(mem), mem, root, va, 1, Down(pa, 1), flags)
      ensures ok && Canonical(va) ==>
                (MegapageIs(mem, root, va, Down(pa, 1), flags) <==>
                   old(!UnderGigapage(mem, root, va) || StrayMaps(mem, root, va, Down(pa, 1), flags)))
    {
      DownAligned(va, 1);
      DownAligned(pa, 1);
      LeafPte(Down(pa, 1), flags);
      assert TableOk(mem, owner, root);
      var leaf := mem[root][Index(va, 2)];
      if Present(leaf) && Leafy(leaf) {
        StoreStray(PhysOf(leaf), Index(va, 1), MakePte(Down(pa, 1), WithV(flags)));
        if Canonical(va) { StrayStored(old(mem), mem, owner, root, va, Down(pa, 1), flags); }
        return true;
      }
      ok := MapPmd(va, pa, flags);
    }

    /** A store into a page that is not a table of the walk. */
    method StoreStray(frame: nat, k: nat, pte: nat)
      requires Valid() && k < ENTRIES && !Descends(pte)
      modifies this`mem, this`ram
      ensures Valid()
      ensures if frame in old(mem)
              then ram == old(ram) && |old(mem)[frame]| == ENTRIES && mem == Store(old(mem), frame, k, pte)
              else mem == old(mem) && ram == old(ram)[frame + 8 * k := pte]
    {
      if frame in mem {
        assert TableOk(mem, owner, frame);
        StoreWellFormed(mem, owner, root, frame, k, pte);
        mem := Store(mem, frame, k, pte);
      } else {
        ram := ram[frame + 8 * k := pte];
      }
    }

    /** map_page_2m without a gigapage leaf above the address. */
    method MapPmd(va: nat, pa: nat, flags: nat) returns (ok: bool)
      requires Valid() && flags < 1024 && HasRwx(flags) && pa < 0x100_0000_0000_0000
      requires !UnderGigapage(mem, root, va)
      modifies this
      ensures Valid() && ram == old(ram)
      ensures !ok ==> pool == [] && Undisturbed(old(mem), mem, root) && SameTranslation(old(mem), mem, root)
      ensures ok ==> Replaced(old(mem), mem, root, va, 1, MakePte(Down(pa, 1), WithV(flags)))
      ensures ok ==> MapsRegion(old(mem), mem, root, va, 1, Down(pa, 1), flags)
    {
      ghost var m0, owner0 := mem, owner;
      var va0, pa0 := Down(va, 1), Down(pa, 1);
      DownAligned(va, 1);
      DownAligned(pa, 1);
      var ok', t := PmdTable(va0, va);
      UndisturbedTranslates(m0, mem, owner0, owner, root);
      if !ok' { return false; }
      LeafPte(pa0, flags);
      ghost var m1 := mem;
      SetPte(t, Index(va0, 1), MakePte(pa0, WithV(flags)), va);
      UndisturbedThenReplaced(m0, m1, mem, root, va, 1, MakePte(pa0, WithV(flags)));
      ReplacedTranslates(m0, mem, owner0, owner, root, va, 1, pa0, flags);
      return true;
    }

    /** The middle-level table for va, created if there is none. */
    method PmdTable(va0: nat, ghost va: nat) returns (ok: bool, t: nat)
      requires Valid() && Index(va0, 2) == Index(va, 2) && !UnderGigapage(mem, root, va)
      modifies this
      ensures Valid() && Undisturbed(old(mem), mem, root) && ram == old(ram)
      ensures if ok then At(t, Index(va, 1), va) && owner[t].Pmd? else pool == []
    {
      assert TableOk(mem, owner, root);
      var i := Index(va0, 2);
      if !Present(mem[root][i]) {
        ok := AddTable(root, i, va);
        if !ok { return false, 0; }
      }
      assert TableOk(mem, owner, root);
      assert PointerOk(mem, owner, Root, i, mem[root][i]);
      t := PhysOf(mem[root][i]);
      assert TableOk(mem, owner, t);
      return true, t;
    }

    /** map_page_1g: maps the whole 1 GB region around va; it needs no table and cannot fail. */
    method MapPage1g(va: nat, pa: nat, flags: nat)
      requires Valid() && flags < 1024 && HasRwx(flags) && pa < 0x100_0000_0000_0000
      modifies this`mem
      ensures Valid()
      ensures |old(mem)[root]| == ENTRIES
      ensures mem == Store(old(mem), root, Index(va, 2), MakePte(Down(pa, 2), WithV(flags)))
      ensures Replaced(old(mem), mem, root, va, 2, MakePte(Down(pa, 2), WithV(flags)))
      ensures MapsRegion(old(mem), mem, root, va, 2, Down(pa, 2), flags)
    {
      var va0, pa0 := Down(va, 2), Down(pa, 2);
      DownAligned(va, 2);
      DownAligned(pa, 2);
      assert TableOk(mem, owner, root);
      LeafPte(pa0, flags);
      ghost var m0 := mem;
      SetPte(root, Index(va0, 2), MakePte(pa0, WithV(flags)), va);
      ReplacedTranslates(m0, mem, owner, owner, root, va, 2, pa0, flags);
    }

    /** unmap_page_pte: the page of va no longer translates.  Without a superpage leaf on the way nothing
        else changes; with one, the whole superpage goes. */
    method UnmapPage(va: nat)
      requires Valid()
      modifies this
      ensures Valid() && pool == old(pool)
      ensures var level := if old(PathClear(mem, root, va)) then 0 else StopAt(old(mem), root, va).level;
              Unmaps(old(mem), mem, root, va, level)
    {
      ghost var m0 := mem;
      var va0 := Down(va, 0);
      DownAligned(va, 0);
      var found, t, k := WalkPgtable(va0, false);
      assert StopAt(m0, root, va) == StopAt(m0, root, va0);
      if found && Present(mem[t][k]) {
        SetPte(t, k, 0, va);
        ReplacedUnmaps(m0, mem, owner, root, va, LevelOf(owner[t]));
      } else {
        NothingToUnmap(m0, owner, root, va);
      }
    }

    /** map_region: maps every page that meets [vaStart, vaStart + size), one 4 KB page at a time.  On
        failure a prefix of them is mapped and nothing else has changed. */
    method MapRegion(vaStart: nat, paStart: nat, size: nat, flags: nat) returns (ok: bool)
      requires Valid() && flags < 1024
      requires CanonicalRange(vaStart, PagesMet(vaStart, size))
      requires paStart + PagesMet(vaStart, size) * PAGE <= 0x100_0000_0000_0000
      requires RegionClear(mem, root, vaStart, 0, PagesMet(vaStart, size))
      modifies this
      ensures Valid()
      ensures ok ==> RegionMapped(old(mem), mem, root, vaStart, paStart, PagesMet(vaStart, size), flags)
      ensures !ok ==> pool == [] && exists k | 0 <= k < PagesMet(vaStart, size) ::
                RegionMapped(old(mem), mem, root, vaStart, paStart, k, flags)
    {
      ghost var n := PagesMet(vaStart, size);
      RegionEnd(vaStart, paStart, size);
      var va0, pa0 := Down(vaStart, 0), Down(paStart, 0);
      var va, pa, end := va0, pa0, Down(vaStart + size + PAGE - 1, 0);
      ghost var k := 0;
      while va < end
        invariant Valid() && k <= n && va == va0 + k * PAGE && pa == pa0 + k * PAGE
        invariant Progress(old(mem), mem, root, va0, pa0, k, n, flags)
        decreases n - k
      {
        var mapped := Step4k(va, pa, flags, old(mem), va0, pa0, k, n);
        if !mapped {
          SameRegion(old(mem), mem, root, vaStart, paStart, k, flags);
          return false;
        }
        va, pa, k := va + PAGE, pa + PAGE, k + 1;
      }
      SameRegion(old(mem), mem, root, vaStart, paStart, n, flags);
      return true;
    }

    method Step4k(va: nat, pa: nat, flags: nat, ghost m0: Memory, ghost va0: nat, ghost pa0: nat, ghost k: nat,
                  ghost n: nat) returns (ok: bool)
      requires Valid() && flags < 1024 && k < n && va == va0 + k * PAGE && pa == pa0 + k * PAGE
      requires CanonicalRange(va0, n) && pa0 + n * PAGE <= 0x100_0000_0000_0000
      requires Progress(m0, mem, root, va0, pa0, k, n, flags)
      modifies this
      ensures Valid()
      ensures if ok then Progress(m0, mem, root, va0, pa0, k + 1, n, flags)
              else pool == [] && RegionMapped(m0, mem, root, va0, pa0, k, flags)
    {
      ghost var m := mem;
      RangeAt(va0, k, n);
      assert PathClear(mem, root, va);
      ok := MapPage4k(va, pa, flags);
      if ok {
        RegionExtend(m0, m, mem, root, va0, pa0, k, 0, flags);
        ReplacedKeepsClear(m, mem, root, va0, k, n, 0, MakePte(Down(pa, 0), WithV(flags)));
      }
    }

    /** One superpage of map_region_large: level 1 is a 2 MB page, level 2 a 1 GB page. */
    method StepSuper(level: nat, va: nat, pa: nat, flags: nat, ghost m0: Memory, ghost va0: nat, ghost pa0: nat,
                     ghost k: nat, ghost n: nat) returns (ok: bool)
      requires Valid() && flags < 1024 && HasRwx(flags) && 1 <= level <= 2
      requires va == va0 + k * PAGE && pa == pa0 + k * PAGE && k + Span(level) / PAGE <= n
      requires va % Span(level) == 0 && pa % Span(level) == 0
      requires CanonicalRange(va0, n) && pa0 + n * PAGE <= 0x100_0000_0000_0000
      requires Progress(m0, mem, root, va0, pa0, k, n, flags)
      modifies this
      ensures Valid()
      ensures if ok then Progress(m0, mem, root, va0, pa0, k + Span(level) / PAGE, n, flags)
              else pool == [] && RegionMapped(m0, mem, root, va0, pa0, k, flags)
    {
      ghost var m := mem;
      RangeAt(va0, k, n);
      assert PathClear(mem, root, va);
      SuperAligned(pa, level);
      ok := true;
      if level == 2 {
        MapPage1g(va, pa, flags);
      } else {
        ok := MapPage2m(va, pa, flags);
      }
      if ok {
        RegionExtend(m0, m, mem, root, va0, pa0, k, level, flags);
        ReplacedKeepsClear(m, mem, root, va0, k, n, level, MakePte(Down(pa, level), WithV(flags)));
      }
    }

    /** map_region_large: as map_region, but each step uses the largest page that fits and is aligned. */
    method MapRegionLarge(vaStart: nat, paStart: nat, size: nat, flags: nat) returns (ok: bool)
      requires Valid() && flags < 1024 && HasRwx(flags)
      requires CanonicalRange(vaStart, PagesIn(size))
      requires paStart + PagesIn(size) * PAGE <= 0x100_0000_0000_0000
      requires RegionClear(mem, root, vaStart, 0, PagesIn(size))
      modifies this
      ensures Valid()
      ensures ok ==> RegionMapped(old(mem), mem, root, vaStart, paStart, PagesIn(size), flags)
      ensures !ok ==> pool == [] && exists k | 0 <= k < PagesIn(size) ::
                RegionMapped(old(mem), mem, root, vaStart, paStart, k, flags)
    {
      ghost var n := PagesIn(size);
      var va, pa, end := vaStart, paStart, vaStart + size;
      ghost var k := 0;
      while va < end
        invariant Valid() && k <= n && va == vaStart + k * PAGE && pa == paStart + k * PAGE
        invariant Progress(old(mem), mem, root, vaStart, paStart, k, n, flags)
        decreases n - k
      {
        var remaining := end - va;
        var level := if va % GIGA == 0 && pa % GIGA == 0 && remaining >= GIGA then 2
                     else if va % MEGA == 0 && pa % MEGA == 0 && remaining >= MEGA then 1
                     else 0;
        PagesLeft(size, k, level);
        if level > 0 {
          ok := StepSuper(level, va, pa, flags, old(mem), vaStart, paStart, k, n);
        } else {
          ok := Step4k(va, pa, flags, old(mem), vaStart, paStart, k, n);
        }
        if !ok { return false; }
        va, pa, k := va + Span(level), pa + Span(level), k + Span(level) / PAGE;
      }
      return true;
    }

    /** lookup_pa on these tables. */
    method LookupPa(va: nat) returns (pa: nat)
      requires Valid()
      modifies this
      ensures Valid() && mem == old(mem) && pool == old(pool) && owner == old(owner)
      ensures pa == Looked(StopAt(mem, root, va), va)
    {
      var found, t, k := WalkPgtable(va, false);
      if !found || !Present(mem[t][k]) { return 0; }
      return PhysOf(mem[t][k]) + va % PAGE;
    }

    /** protect_page: a mapped page keeps its physical address and gets new flags, together with every
        other page of the same leaf; all other pages keep their translation. */
    method ProtectPage(va: nat, flags: nat) returns (ok: bool)
      requires Valid() && flags < 1024 && (PathClear(mem, root, va) || HasRwx(flags))
      modifies this
      ensures Valid() && pool == old(pool)
      ensures ok <==> Present(StopAt(old(mem), root, va).pte)
      ensures !ok ==> mem == old(mem)
      ensures ok ==> Protected(old(mem), mem, root, va, StopAt(old(mem), root, va).level, flags)
    {
      ghost var m0 := mem;
      var found, t, k := WalkPgtable(va, false);
      if !found || !Present(mem[t][k]) { return false; }
      var phys := PhysOf(mem[t][k]);
      LeafPte(phys, flags);
      SetPte(t, k, MakePte(phys, WithV(flags)), va);
      ReplacedProtects(m0, mem, owner, root, va, flags);
      return true;
    }
  }

  /** The two ways of mapping a region agree: from tables that translate alike, with no superpage leaf in
      the region, both calls that succeed leave tables that translate alike. */
  method MapBothWays(small: Tables, large: Tables, vaStart: nat, paStart: nat, size: nat, flags: nat)
    returns (okSmall: bool, okLarge: bool)
    requires small != large && small.Valid() && large.Valid() && flags < 1024 && HasRwx(flags)
    requires PagesMet(vaStart, size) == PagesIn(size)
    requires CanonicalRange(vaStart, PagesIn(size)) && paStart + PagesIn(size) * PAGE <= 0x100_0000_0000_0000
    requires RegionClear(small.mem, small.root, vaStart, 0, PagesIn(size))
    requires RegionClear(large.mem, large.root, vaStart, 0, PagesIn(size))
    requires forall va: nat | Canonical(va) ::
               Translate(small.mem, small.root, va) == Translate(large.mem, large.root, va)
    modifies small, large
    ensures small.Valid() && large.Valid()
    ensures okSmall && okLarge ==> forall va: nat | Canonical(va) ::
              Translate(small.mem, small.root, va) == Translate(large.mem, large.root, va)
  {
    okSmall := small.MapRegion(vaStart, paStart, size, flags);
    okLarge := large.MapRegionLarge(vaStart, paStart, size, flags);
  }

  /** Pages of a range of this size that starts on a page boundary. */
  function PagesIn(size: nat): nat { (size + PAGE - 1) / PAGE }

  /** The two forms map the same number of pages exactly when the range's last byte lies in the same page
      relative to its start as it would if the range were aligned; in particular for every aligned
      start. */
  lemma SamePageCount(va: nat, size: nat)
    ensures va % PAGE == 0 ==> PagesMet(va, size) == PagesIn(size)
    ensures PagesMet(va, size) == PagesIn(size) <==>
            if size == 0 then va % PAGE == 0 else (va % PAGE + (size - 1) % PAGE) < PAGE
  {}

  /** For leaf flags and pages that were not mapped before, the results of the two forms agree on every
      address exactly when they map the same number of pages.  They do not for two pages met by 0x1000
      bytes at 0x800, for instance. */
  lemma FormsAgreeExactly(m: Memory, small: Memory, large: Memory, root: nat, va: nat, pa: nat, size: nat, flags: nat)
    requires RegionMapped(m, small, root, va, pa, PagesMet(va, size), flags)
    requires RegionMapped(m, large, root, va, pa, PagesIn(size), flags)
    requires CanonicalRange(va, PagesMet(va, size)) && Mapped(0, flags).Page?
    requires forall x: nat | Canonical(x) && va / PAGE <= x / PAGE < va / PAGE + PagesMet(va, size) ::
               Translate(m, root, x) == Fault
    ensures SameTranslation(small, large, root) <==> PagesMet(va, size) == PagesIn(size)
    ensures PagesMet(0x800, 0x1000) != PagesIn(0x1000)
  {
    var n, n' := PagesMet(va, size), PagesIn(size);
    if n == n' {
      forall x: nat | Canonical(x) ensures Translate(large, root, x) == Translate(small, root, x) {}
    } else {
      assert n' < n;
      var x := va + n' * PAGE;
      RangeAt(va, n', n);
      assert Translate(small, root, x) == Mapped((pa / PAGE + n') * PAGE, flags);
      assert Translate(large, root, x) == Translate(m, root, x);
    }
  }

  lemma PagesLeft(size: nat, k: nat, level: nat)
    requires level <= 2 && k * PAGE < size && (level > 0 ==> k * PAGE + Span(level) <= size)
    ensures k + Span(level) / PAGE <= PagesIn(size)
  {}

  lemma SuperAligned(pa: nat, level: nat)
    requires 1 <= level <= 2 && pa % Span(level) == 0
    ensures Down(pa, level) == pa == pa / PAGE * PAGE
  {
    var k := pa / Span(level);
    assert pa == Span(level) * k;
    if level == 1 { DivIs(pa, PAGE, 512 * k, 0); } else { DivIs(pa, PAGE, 0x4_0000 * k, 0); }
  }

  // ----- lookup_pa

  function Looked(s: Stop, va: nat): nat {
    if Present(s.pte) then PhysOf(s.pte) + va % PAGE else 0
  }

  /** For a mapped address, lookup_pa gives the hardware's physical address exactly when the leaf is a
      4 KB page or the address lies in the first page of its superpage. */
  lemma LookupExact(m: Memory, owner: Owners, root: nat, va: nat)
    requires WellFormed(m, owner, root) && Canonical(va) && Translate(m, root, va).Page?
    ensures var s := StopAt(m, root, va);
            Looked(s, va) == Translate(m, root, va).pa + va % PAGE <==> va % Span(s.level) < PAGE
    ensures StopAt(m, root, va).level == 0 ==> Looked(StopAt(m, root, va), va) == Translate(m, root, va).pa + va % PAGE
  {
    HardwareAgrees(m, owner, root, va);
    BelowPage(va % Span(StopAt(m, root, va).level));
  }

  lemma BelowPage(x: nat)
    ensures x / PAGE * PAGE == 0 <==> x < PAGE
  {
    if x < PAGE { DivIs(x, PAGE, 0, x); }
  }

  // ----- protect_page

  ghost predicate Protected(m: Memory, m': Memory, root: nat, va: nat, level: nat, flags: nat) {
    forall va': nat {:trigger Translate(m', root, va')} | Canonical(va') ::
      if !SameEntry(va, va', level) then Translate(m', root, va') == Translate(m, root, va')
      else Translate(m, root, va').Page? ==> Translate(m', root, va') == Mapped(Translate(m, root, va').pa, flags)
  }

  /** An entry with other flags for the same page. */
  lemma SamePlace(s: Stop, va: nat, flags: nat)
    requires flags < 1024
    ensures Decode(s, va).Page? ==>
              Decode(Stop(s.level, MakePte(PhysOf(s.pte), WithV(flags))), va) == Mapped(Decode(s, va).pa, flags)
  {
    WithVBits(flags);
    PteRoundTrip(PhysOf(s.pte), WithV(flags));
  }

  lemma ReplacedProtects(m: Memory, m': Memory, owner: Owners, root: nat, va: nat, flags: nat)
    requires WellFormed(m, owner, root) && WellFormed(m', owner, root) && flags < 1024
    requires var s := StopAt(m, root, va);
             Replaced(m, m', root, va, s.level, MakePte(PhysOf(s.pte), WithV(flags)))
    ensures Protected(m, m', root, va, StopAt(m, root, va).level, flags)
  {
    var s := StopAt(m, root, va);
    forall va': nat | Canonical(va')
      ensures if !SameEntry(va, va', s.level) then Translate(m', root, va') == Translate(m, root, va')
              else Translate(m, root, va').Page? ==>
                     Translate(m', root, va') == Mapped(Translate(m, root, va').pa, flags)
    {
      if SameEntry(va, va', s.level) {
        SameStopInRegion(m, root, va, va');
        HardwareAgrees(m, owner, root, va');
        HardwareAgrees(m', owner, root, va');
        assert StopAt(m', root, va') == Stop(s.level, MakePte(PhysOf(s.pte), WithV(flags)));
        SamePlace(s, va', flags);
      } else {
        SameStopTranslates(m, m', owner, owner, root, va');
      }
    }
  }

  /** The first k of n pages are mapped and no superpage leaf stands in the way of the others. */
  ghost predicate Progress(m0: Memory, m: Memory, root: nat, va0: nat, pa0: nat, k: nat, n: nat, flags: nat) {
    RegionMapped(m0, m, root, va0, pa0, k, flags) && RegionClear(m, root, va0, k, n)
  }

  lemma RegionEnd(vaStart: nat, paStart: nat, size: nat)
    ensures Down(vaStart + size + PAGE - 1, 0) == Down(vaStart, 0) + PagesMet(vaStart, size) * PAGE
    ensures Down(vaStart, 0) / PAGE == vaStart / PAGE && Down(paStart, 0) / PAGE == paStart / PAGE
    ensures Down(paStart, 0) <= paStart
  {}

  lemma SameRegion(m: Memory, m': Memory, root: nat, va: nat, pa: nat, n: nat, flags: nat)
    requires RegionMapped(m, m', root, Down(va, 0), Down(pa, 0), n, flags)
    ensures RegionMapped(m, m', root, va, pa, n, flags)
  {
    DownBasic(va, 0);
    DownBasic(pa, 0);
  }

  /** Pages that meet [va, va + size); an unaligned empty range counts the page it points into. */
  function PagesMet(va: nat, size: nat): nat { (va % PAGE + size + PAGE - 1) / PAGE }

  lemma RangeAt(va0: nat, k: nat, n: nat)
    requires CanonicalRange(va0, n) && k < n
    ensures Canonical(va0 + k * PAGE) && (va0 + k * PAGE) / PAGE == va0 / PAGE + k
  {}

  /** Addresses that share va's entry at this level fault; all others translate as before. */
  ghost predicate Unmaps(m: Memory, m': Memory, root: nat, va: nat, level: nat) {
    forall va': nat {:trigger Translate(m', root, va')} | Canonical(va') ::
      Translate(m', root, va') == if SameEntry(va, va', level) then Fault else Translate(m, root, va')
  }

  lemma ReplacedUnmaps(m: Memory, m': Memory, owner: Owners, root: nat, va: nat, level: nat)
    requires WellFormed(m, owner, root) && WellFormed(m', owner, root)
    requires Replaced(m, m', root, va, level, 0)
    ensures Unmaps(m, m', root, va, level)
  {
    forall va': nat | Canonical(va')
      ensures Translate(m', root, va') == if SameEntry(va, va', level) then Fault else Translate(m, root, va')
    {
      HardwareAgrees(m', owner, root, va');
      if SameEntry(va, va', level) {
        assert StopAt(m', root, va') == Stop(level, 0);
      } else {
        SameStopTranslates(m, m', owner, owner, root, va');
      }
    }
  }

  lemma NothingToUnmap(m: Memory, owner: Owners, root: nat, va: nat)
    requires WellFormed(m, owner, root) && !Present(StopAt(m, root, va).pte)
    ensures Unmaps(m, m, root, va, 0)
  {}

  /** All addresses of one page translate alike. */
  lemma OnePage(m: Memory, owner: Owners, root: nat, va: nat, va': nat)
    requires WellFormed(m, owner, root) && Canonical(va) && Canonical(va') && SameEntry(va, va', 0)
    ensures Translate(m, root, va') == Translate(m, root, va)
  {
    HardwareAgrees(m, owner, root, va);
    HardwareAgrees(m, owner, root, va');
    SameStopInRegion(m, root, va, va');
    SameEntryIsSameRegion(va, va', 0);
    PageIndex(va, StopAt(m, root, va).level);
    PageIndex(va', StopAt(m, root, va).level);
  }

  /** Mapping a page that was not mapped and unmapping it again restores every translation. */
  lemma MapThenUnmap(m: Memory, m1: Memory, m2: Memory, owner: Owners, root: nat, va: nat, pa: nat, flags: nat)
    requires WellFormed(m, owner, root) && Canonical(va) && Translate(m, root, va) == Fault
    requires MapsRegion(m, m1, root, va, 0, pa, flags) && Unmaps(m1, m2, root, va, 0)
    ensures SameTranslation(m, m2, root)
  {}

  // ----- what goes wrong under the kernel's gigapage

  /** On the tables pgtable_init leaves, lookup_pa of the kernel's second page gives its first page. */
  lemma LookupInKernel(root: nat)
    requires root % PAGE == 0 && root < 0x100_0000_0000_0000
    ensures var m, va := KernelTables(root), PHYS_MEMORY_BASE + PAGE;
            Looked(StopAt(m, root, va), va) == PHYS_MEMORY_BASE && Translate(m, root, va) == Page(va, PTE_KERNEL_RWX)
  {
    var va := PHYS_MEMORY_BASE + PAGE;
    KernelStops(root, va);
    KernelTranslates(root, va);
    PteRoundTrip(PHYS_MEMORY_BASE, PTE_KERNEL_RWX);
  }

  /** map_page_4k of a page at the start of the vmalloc range replaces the kernel's gigapage: unless the page
      happens to lie on a gigabyte boundary, nothing of the kernel's gigabyte translates any more. */
  lemma KernelOverwritten(root: nat, pa: nat)
    requires root % PAGE == 0 && root < 0x100_0000_0000_0000
    requires pa % PAGE == 0 && pa % GIGA != 0 && pa < 0x100_0000_0000_0000
    ensures var m, o := KernelTables(root), map[root := Root];
            var m' := Store(m, root, 2, MakePte(pa, PTE_KERNEL));
            && Overwritten(m, m', o, o, root, 0x8400_0000, pa, PTE_KERNEL)
            && !MapsRegion(m, m', root, 0x8400_0000, 0, pa, PTE_KERNEL)
            && forall va: nat | va / GIGA == 2 :: Translate(m', root, va) == Fault
  {
    var m, o, va0 := KernelTables(root), map[root := Root], 0x8400_0000;
    var pte := MakePte(pa, PTE_KERNEL);
    var m' := Store(m, root, 2, pte);
    KernelTablesOk(root);
    KernelStops(root, va0);
    LeafPte(pa, PTE_KERNEL);
    StoreWellFormed(m, o, root, root, 2, pte);
    StoreReplaces(m, o, root, root, 2, pte, va0);
    PteRoundTrip(pa, PTE_KERNEL);
    PteRoundTrip(PHYS_MEMORY_BASE, PTE_KERNEL_RWX);
    forall va: nat | va / GIGA == 2 ensures Translate(m', root, va) == Fault {
      HardwareAgrees(m', o, root, va);
      SameGigabyte(va0, va);
      assert StopAt(m', root, va) == Stop(2, pte);
    }
    OverwriteExactly(m, m', o, o, root, va0, pa, PTE_KERNEL);
  }

  /** map_page_2m inside the kernel's gigapage reports success; with the leaf's own flags and an identical
      address the region was mapped so before, with other flags it is not mapped as asked. */
  lemma MegapageInKernel(root: nat)
    requires root % PAGE == 0 && root < 0x100_0000_0000_0000
    ensures var m, va := KernelTables(root), 0x8400_0000;
            && UnderGigapage(m, root, va) && StrayFrame(m, root, va) == PHYS_MEMORY_BASE
            && MegapageIs(m, root, va, va, PTE_KERNEL_RWX) && !MegapageIs(m, root, va, va, PTE_KERNEL)
  {
    var m, va := KernelTables(root), 0x8400_0000;
    KernelTablesOk(root);
    KernelStops(root, va);
    KernelLeaf();
    UnderLeafExactly(m, map[root := Root], root, va, va, PTE_KERNEL_RWX);
    UnderLeafExactly(m, map[root := Root], root, va, va, PTE_KERNEL);
  }

  lemma KernelLeaf()
    ensures var pte, va := MakePte(PHYS_MEMORY_BASE, PTE_KERNEL_RWX), 0x8400_0000;
            && Present(pte) && PhysOf(pte) == PHYS_MEMORY_BASE && Down(va, 1) == va
            && Decode(Stop(2, pte), va) == Mapped(va, PTE_KERNEL_RWX)
            && Mapped(va, PTE_KERNEL_RWX) != Mapped(va, PTE_KERNEL)
  {
    PteRoundTrip(PHYS_MEMORY_BASE, PTE_KERNEL_RWX);
    LeafMaps(0x8400_0000, 2, PHYS_MEMORY_BASE, PTE_KERNEL_RWX);
  }
}
