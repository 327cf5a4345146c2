/** The vmalloc address ranges: a sorted list of areas, each with its guard page, and the first-fit search. */
module VmallocSpec {
  import opened Division
  import opened Lists

  const PAGE: nat := 4096
  const START: nat := 0x8400_0000
  const END: nat := 0x8800_0000
  const MAX_AREAS: nat := 64

  /** An area of the list: its slot in the pool of structures, its range with the guard page, and whether
      vunmap and iounmap accept it. */
  datatype Area = Area(slot: nat, addr: nat, size: nat, isMap: bool, isIo: bool)

  type Areas = seq<Area>

  function End(a: Area): nat { a.addr + a.size }

  ghost predicate InRange(a: Area) {
    START <= a.addr && 0 < a.size && End(a) <= END && a.addr % PAGE == 0 && a.size % PAGE == 0
  }

  ghost predicate Ranged(l: Areas) {
    forall i {:trigger l[i]} | 0 <= i < |l| :: InRange(l[i]) && l[i].slot < MAX_AREAS
  }

  ghost predicate Before(a: Area, b: Area) { End(a) <= b.addr && a.slot != b.slot }

  ghost predicate Ordered(l: Areas) {
    forall i, j {:trigger Before(l[i], l[j])} | 0 <= i < j < |l| :: Before(l[i], l[j])
  }

  /** Areas in address order, not overlapping, each on its own slot. */
  ghost predicate Inv(l: Areas) { Ranged(l) && Ordered(l) }

  // ----- the search

  /** The bytes an area of this size takes, with its guard page. */
  function Span(size: nat): nat { (size + PAGE + PAGE - 1) / PAGE * PAGE }

  /** find_vmalloc_area from one area on; addr is where the free space before it begins. */
  function Find(l: Areas, addr: nat, span: nat): nat {
    if l == [] then if addr + span <= END then addr else 0
    else if addr + span <= l[0].addr then addr
    else Find(l[1..], End(l[0]), span)
  }

  /** The range [a, a + span) lies in the region and meets no area of the list. */
  ghost predicate Fits(l: Areas, a: nat, span: nat) {
    START <= a && a + span <= END && forall i {:trigger l[i]} | 0 <= i < |l| :: a + span <= l[i].addr || End(l[i]) <= a
  }

  /** r, when it is not 0, lies past from, fits, and nothing from there on fits lower; when it is 0, nothing from
      there on fits. */
  ghost predicate LowestFit(l: Areas, from: nat, span: nat, r: nat) {
    && (r == 0 <==> forall a | from <= a :: !Fits(l, a, span))
    && (r != 0 ==> r >= from && Fits(l, r, span) && forall a | from <= a < r :: !Fits(l, a, span))
  }

  lemma {:induction false} FindFrom(l: Areas, from: nat, span: nat)
    requires Inv(l) && START <= from <= END && span > 0 && (l != [] ==> from <= l[0].addr)
    ensures LowestFit(l, from, span, Find(l, from, span))
  {
    if l != [] {
      assert InRange(l[0]);
      if from + span <= l[0].addr {
        FitsFirst(l, from, span);
        assert LowestFit(l, from, span, from);
      } else {
        Rest(l);
        FindFrom(l[1..], End(l[0]), span);
        FindSkip(l, from, span, Find(l[1..], End(l[0]), span));
      }
    } else {
      FindEmpty(from, span);
    }
  }

  lemma {:induction false} FindAligned(l: Areas, from: nat, span: nat)
    requires Inv(l) && from % PAGE == 0
    ensures Find(l, from, span) % PAGE == 0
  {
    if l != [] {
      assert InRange(l[0]);
      EndAligned(l[0]);
      Rest(l);
      FindAligned(l[1..], End(l[0]), span);
    }
  }

  lemma EndAligned(x: Area)
    requires x.addr % PAGE == 0 && x.size % PAGE == 0
    ensures End(x) % PAGE == 0
  {
    DivIs(End(x), PAGE, x.addr / PAGE + x.size / PAGE, 0);
  }

  lemma FindEmpty(from: nat, span: nat)
    requires START <= from && span > 0
    ensures LowestFit([], from, span, Find([], from, span))
  {
    assert forall a | from <= a :: Fits([], a, span) <==> a + span <= END;
    assert Fits([], from, span) <==> from + span <= END;
  }

  /** When there is no room in front of the first area, the search goes on behind it. */
  lemma FindSkip(l: Areas, from: nat, span: nat, r: nat)
    requires Inv(l) && l != [] && from <= l[0].addr < from + span && LowestFit(l[1..], End(l[0]), span, r)
    ensures LowestFit(l, from, span, r)
  {
    forall a | from <= a ensures Fits(l, a, span) <==> End(l[0]) <= a && Fits(l[1..], a, span) { FitsRest(l, a, span); }
  }

  lemma Rest(l: Areas)
    requires Inv(l) && l != []
    ensures Inv(l[1..]) && (|l| > 1 ==> End(l[0]) <= l[1].addr) && START <= End(l[0]) <= END
  {
    assert InRange(l[0]);
    assert |l| > 1 ==> Before(l[0], l[1]);
    forall i, j | 0 <= i < j < |l[1..]| ensures Before(l[1..][i], l[1..][j]) { assert Before(l[i + 1], l[j + 1]); }
  }

  lemma FitsFirst(l: Areas, a: nat, span: nat)
    requires Inv(l) && l != [] && START <= a && a + span <= l[0].addr
    ensures Fits(l, a, span)
  {
    assert InRange(l[0]);
    forall i | 0 <= i < |l| ensures a + span <= l[i].addr { assert i > 0 ==> Before(l[0], l[i]); }
  }

  lemma FitsRest(l: Areas, a: nat, span: nat)
    requires Inv(l) && l != [] && a + span > l[0].addr
    ensures Fits(l, a, span) <==> End(l[0]) <= a && Fits(l[1..], a, span)
  {}

  /** find_vmalloc_area returns the lowest address that fits, and 0 exactly when none does. */
  lemma FindLowest(l: Areas, span: nat)
    requires Inv(l) && span > 0
    ensures var r := Find(l, START, span);
            && (r == 0 <==> forall a: nat :: !Fits(l, a, span))
            && (r != 0 ==> r % PAGE == 0 && Fits(l, r, span) && forall a: nat | a < r :: !Fits(l, a, span))
  {
    if l != [] { assert InRange(l[0]); }
    FindFrom(l, START, span);
    FindAligned(l, START, span);
    forall a: nat | Fits(l, a, span) ensures START <= a {}
  }

  // ----- insertion and removal

  /** Where insert_vm_struct links an area that begins at addr: in front of the first one that does not begin
      below it. */
  function Place(l: Areas, addr: nat, i: nat): (k: nat)
    requires i <= |l|
    ensures i <= k <= |l| && (k < |l| ==> l[k].addr >= addr)
    ensures forall j | i <= j < k :: l[j].addr < addr
    decreases |l| - i
  {
    if i < |l| && l[i].addr < addr then Place(l, addr, i + 1) else i
  }

  function Insert(l: Areas, x: Area): Areas {
    var k := Place(l, x.addr, 0);
    l[..k] + [x] + l[k..]
  }

  /** find_vm_area */
  function Locate(l: Areas, addr: nat, i: nat): (r: Option<nat>)
    requires i <= |l|
    ensures r.Some? ==> i <= r.value < |l| && l[r.value].addr == addr
    ensures forall j | i <= j < (if r.Some? then r.value else |l|) :: l[j].addr != addr
    decreases |l| - i
  {
    if i == |l| then None else if l[i].addr == addr then Some(i) else Locate(l, addr, i + 1)
  }

  function RemoveAt(l: Areas, k: nat): Areas
    requires k < |l|
  {
    l[..k] + l[k + 1..]
  }

  ghost function Used(l: Areas): set<nat> { set i | 0 <= i < |l| :: l[i].slot }

  lemma InsertInv(l: Areas, x: Area)
    requires Inv(l) && InRange(x) && Fits(l, x.addr, x.size) && x.slot < MAX_AREAS && x.slot !in Used(l)
    ensures Inv(Insert(l, x)) && Used(Insert(l, x)) == Used(l) + {x.slot}
  {
    var k := Place(l, x.addr, 0);
    forall i | 0 <= i < |l| ensures if i < k then Before(l[i], x) else Before(x, l[i]) {
      assert InRange(l[i]) && l[i].slot in Used(l);
      assert i > k ==> Before(l[k], l[i]) && InRange(l[k]);
    }
    InsertOrdered(l, x, k);
    UsedInsert(l, x, k);
  }

  lemma InsertOrdered(l: Areas, x: Area, k: nat)
    requires Ordered(l) && k <= |l| && forall i | 0 <= i < |l| :: if i < k then Before(l[i], x) else Before(x, l[i])
    ensures Ordered(l[..k] + [x] + l[k..])
  {}

  lemma UsedInsert(l: Areas, x: Area, k: nat)
    requires k <= |l|
    ensures Used(l[..k] + [x] + l[k..]) == Used(l) + {x.slot}
  {
    var l' := l[..k] + [x] + l[k..];
    assert l'[k] == x;
    forall i | 0 <= i < |l| ensures l[i].slot in Used(l') { assert l'[if i < k then i else i + 1] == l[i]; }
    forall i | 0 <= i < |l'| ensures l'[i].slot in Used(l) + {x.slot} {
      if i != k { assert l'[i] == l[if i < k then i else i - 1]; }
    }
  }

  lemma RemoveInv(l: Areas, k: nat)
    requires Inv(l) && k < |l|
    ensures Inv(RemoveAt(l, k)) && Used(RemoveAt(l, k)) == Used(l) - {l[k].slot}
  {
    var l' := RemoveAt(l, k);
    forall i {:trigger l'[i]} | 0 <= i < |l'| ensures InRange(l'[i]) && l'[i].slot < MAX_AREAS {
      assert l'[i] == l[if i < k then i else i + 1];
    }
    forall i, j | 0 <= i < j < |l'| ensures Before(l'[i], l'[j]) {
      var a, b := if i < k then i else i + 1, if j < k then j else j + 1;
      assert l'[i] == l[a] && l'[j] == l[b] && Before(l[a], l[b]);
    }
    UsedRemove(l, k);
  }

  lemma UsedRemove(l: Areas, k: nat)
    requires Inv(l) && k < |l|
    ensures Used(RemoveAt(l, k)) == Used(l) - {l[k].slot}
  {
    var l' := RemoveAt(l, k);
    forall i | 0 <= i < |l'| ensures l'[i].slot in Used(l) - {l[k].slot} {
      var a := if i < k then i else i + 1;
      assert l'[i] == l[a];
      assert if a < k then Before(l[a], l[k]) else Before(l[k], l[a]);
    }
    forall i | 0 <= i < |l| && i != k ensures l[i].slot in Used(l') { assert l'[if i < k then i else i - 1] == l[i]; }
  }

  // ----- operations

  /** Take a structure, find a range, map the pages and link the area; when any of these fails the list is as
      before.  mapped says whether all pages could be allocated and mapped. */
  ghost function Reserve(l: Areas, size: nat, isMap: bool, isIo: bool, mapped: bool): (Areas, nat) {
    var slot, addr := FreeFrom(Used(l), 0, MAX_AREAS), Find(l, START, Span(size));
    if slot.None? || addr == 0 || !mapped then (l, 0)
    else (Insert(l, Area(slot.value, addr, Span(size), isMap, isIo)), addr)
  }

  ghost function Vmalloc(l: Areas, size: nat, mapped: bool): (Areas, nat) {
    if size == 0 then (l, 0) else Reserve(l, size, false, false, mapped)
  }

  /** io: the caller's flags hold VM_IOREMAP. */
  ghost function Vmap(l: Areas, pages: nat, io: bool, mapped: bool): (Areas, nat) {
    if pages == 0 then (l, 0) else Reserve(l, pages * PAGE, true, io, mapped)
  }

  function IoPages(phys: nat, size: nat): nat { (size + phys % PAGE + PAGE - 1) / PAGE }

  ghost function Ioremap(l: Areas, phys: nat, size: nat, mapped: bool): (Areas, nat) {
    if size == 0 then (l, 0) else
      var (l', addr) := Reserve(l, IoPages(phys, size) * PAGE, false, true, mapped);
      (l', if addr == 0 then 0 else addr + phys % PAGE)
  }

  function Vfree(l: Areas, addr: nat): Areas {
    match Locate(l, addr, 0)
    case None => l
    case Some(k) => RemoveAt(l, k)
  }

  function Vunmap(l: Areas, addr: nat): Areas {
    match Locate(l, addr, 0)
    case None => l
    case Some(k) => if l[k].isMap then RemoveAt(l, k) else l
  }

  /** addr & PAGE_MASK */
  function Base(addr: nat): nat { addr / PAGE * PAGE }

  function RemoveIo(l: Areas, base: nat): Areas {
    match Locate(l, base, 0)
    case None => l
    case Some(k) => if l[k].isIo then RemoveAt(l, k) else l
  }

  function Iounmap(l: Areas, addr: nat): Areas { RemoveIo(l, Base(addr)) }

  lemma SpanPages(size: nat)
    requires size > 0
    ensures Span(size) == ((size + PAGE - 1) / PAGE + 1) * PAGE && Span(size) >= size + PAGE && Span(size) % PAGE == 0
  {}

  lemma WholePages(n: nat)
    ensures (n * PAGE + PAGE - 1) / PAGE == n
  {}

  lemma FindFits(l: Areas, span: nat)
    requires Inv(l) && span > 0
    ensures var r := Find(l, START, span); r != 0 ==> Fits(l, r, span) && r % PAGE == 0
  {
    FindLowest(l, span);
  }

  /** A reservation fails exactly when all structures are taken, no range is large enough or the pages cannot
      be mapped, and then nothing has changed; otherwise it takes the lowest range that fits. */
  lemma ReserveTheorem(l: Areas, size: nat, isMap: bool, isIo: bool, mapped: bool)
    requires Inv(l) && size > 0
    ensures var (l', addr) := Reserve(l, size, isMap, isIo, mapped);
            && Inv(l')
            && (addr == 0 <==> !mapped || |Used(l)| == MAX_AREAS || forall a: nat :: !Fits(l, a, Span(size)))
            && (addr == 0 ==> l' == l)
            && (addr != 0 ==>
                  && addr % PAGE == 0 && Fits(l, addr, Span(size))
                  && (forall a: nat | a < addr :: !Fits(l, a, Span(size)))
                  && Locate(l', addr, 0).Some? && RemoveAt(l', Locate(l', addr, 0).value) == l
                  && l'[Locate(l', addr, 0).value].isMap == isMap && l'[Locate(l', addr, 0).value].isIo == isIo)
  {
    var slot, addr := FreeFrom(Used(l), 0, MAX_AREAS), Find(l, START, Span(size));
    SpanPages(size);
    FindLowest(l, Span(size));
    AllUsed(l);
    if slot.Some? && addr != 0 && mapped {
      var x := Area(slot.value, addr, Span(size), isMap, isIo);
      InsertInv(l, x);
      forall i | 0 <= i < |l| ensures l[i].addr != addr { assert InRange(l[i]); }
      InsertLocate(l, x);
    }
  }

  lemma AllUsed(l: Areas)
    requires Inv(l)
    ensures FreeFrom(Used(l), 0, MAX_AREAS).None? <==> |Used(l)| == MAX_AREAS
  {
    var all := Below(MAX_AREAS);
    assert Used(l) <= all;
    if FreeFrom(Used(l), 0, MAX_AREAS).None? {
      assert all == Used(l);
    } else {
      SubsetSize(Used(l), all);
      assert FreeFrom(Used(l), 0, MAX_AREAS).value in all - Used(l);
    }
  }

  lemma InsertLocate(l: Areas, x: Area)
    requires forall i | 0 <= i < |l| :: l[i].addr != x.addr
    ensures Locate(Insert(l, x), x.addr, 0) == Some(Place(l, x.addr, 0))
    ensures Insert(l, x)[Place(l, x.addr, 0)] == x && RemoveAt(Insert(l, x), Place(l, x.addr, 0)) == l
  {
    var k := Place(l, x.addr, 0);
    PutAndTake(l, x, k);
    LocateUnique(Insert(l, x), x.addr, k);
  }

  lemma PutAndTake(l: Areas, x: Area, k: nat)
    requires k <= |l| && forall i | 0 <= i < |l| :: l[i].addr != x.addr
    ensures var l' := l[..k] + [x] + l[k..];
            l'[k] == x && l'[..k] == l[..k] && l'[k + 1..] == l[k..] && l'[..k] + l'[k + 1..] == l
            && forall j | 0 <= j < |l'| && j != k :: l'[j].addr != x.addr
  {}

  lemma LocateUnique(l: Areas, addr: nat, k: nat)
    requires k < |l| && l[k].addr == addr && forall j | 0 <= j < |l| && j != k :: l[j].addr != addr
    ensures Locate(l, addr, 0) == Some(k)
  {}

  // ----- runs

  datatype Event = DoVmalloc(size: nat, mapped: bool) | DoVmap(pages: nat, io: bool, mapped: bool)
                 | DoIoremap(phys: nat, size: nat, mapped: bool)
                 | DoVfree(addr: nat) | DoVunmap(addr: nat) | DoIounmap(addr: nat)

  ghost function Step(l: Areas, e: Event): Areas {
    match e
    case DoVmalloc(size, mapped) => Vmalloc(l, size, mapped).0
    case DoVmap(pages, io, mapped) => Vmap(l, pages, io, mapped).0
    case DoIoremap(phys, size, mapped) => Ioremap(l, phys, size, mapped).0
    case DoVfree(addr) => Vfree(l, addr)
    case DoVunmap(addr) => Vunmap(l, addr)
    case DoIounmap(addr) => Iounmap(l, addr)
  }

  lemma ReserveInv(l: Areas, size: nat, isMap: bool, isIo: bool, mapped: bool)
    requires Inv(l) && size > 0
    ensures Inv(Reserve(l, size, isMap, isIo, mapped).0)
  {
    ReserveTheorem(l, size, isMap, isIo, mapped);
  }

  lemma StepInv(l: Areas, e: Event)
    requires Inv(l)
    ensures Inv(Step(l, e))
  {
    match e
    case DoVmalloc(size, mapped) => if size > 0 { ReserveInv(l, size, false, false, mapped); }
    case DoVmap(pages, io, mapped) => if pages > 0 { ReserveInv(l, pages * PAGE, true, io, mapped); }
    case DoIoremap(phys, size, mapped) =>
      if size > 0 { ReserveInv(l, IoPages(phys, size) * PAGE, false, true, mapped); }
    case DoVfree(addr) => if Locate(l, addr, 0).Some? { RemoveInv(l, Locate(l, addr, 0).value); }
    case DoVunmap(addr) => if Locate(l, addr, 0).Some? { RemoveInv(l, Locate(l, addr, 0).value); }
    case DoIounmap(addr) =>
      if Locate(l, Base(addr), 0).Some? { RemoveInv(l, Locate(l, Base(addr), 0).value); }
  }

  ghost function Run(l: Areas, es: seq<Event>): Areas
    decreases |es|
  {
    if es == [] then l else Run(Step(l, es[0]), es[1..])
  }

  /** Through any mix of calls, successful or not, the areas stay sorted, disjoint and in range. */
  lemma {:induction false} RunInv(l: Areas, es: seq<Event>)
    requires Inv(l)
    ensures Inv(Run(l, es))
    decreases |es|
  {
    if es != [] {
      StepInv(l, es[0]);
      RunInv(Step(l, es[0]), es[1..]);
    }
  }

  /** Each allocation is undone by its own inverse, which leaves the list as it was before the call. */
  lemma VfreeRestores(l: Areas, size: nat)
    requires Inv(l)
    ensures var (l', a) := Vmalloc(l, size, true); a != 0 ==> Vfree(l', a) == l
  {
    if size > 0 { ReserveTheorem(l, size, false, false, true); }
  }

  lemma VunmapRestores(l: Areas, pages: nat, io: bool)
    requires Inv(l)
    ensures var (l', a) := Vmap(l, pages, io, true); a != 0 ==> Vunmap(l', a) == l && Vfree(l', a) == l
  {
    if pages > 0 { ReserveTheorem(l, pages * PAGE, true, io, true); }
  }

  lemma PageOf(a: nat, offset: nat)
    requires a % PAGE == 0 && offset < PAGE
    ensures Base(a + offset) == a
  {}

  lemma ReserveUndone(l: Areas, n: nat)
    requires Inv(l) && n > 0
    ensures var (l', a) := Reserve(l, n, false, true, true); a != 0 ==> a % PAGE == 0 && RemoveIo(l', a) == l
  {
    ReserveTheorem(l, n, false, true, true);
  }

  lemma InsideFirstPage(l: Areas, n: nat, offset: nat)
    requires Inv(l) && n > 0 && offset < PAGE
    ensures var (l', a) := Reserve(l, n, false, true, true); a != 0 ==> Iounmap(l', a + offset) == l
  {
    var a := Reserve(l, n, false, true, true).1;
    ReserveUndone(l, n);
    if a != 0 { PageOf(a, offset); }
  }

  /** ioremap returns an address inside its first page; iounmap finds the area from it. */
  lemma IounmapRestores(l: Areas, phys: nat, size: nat)
    requires Inv(l)
    ensures var (l', a) := Ioremap(l, phys, size, true); a != 0 ==> Iounmap(l', a) == l
  {
    if size > 0 { InsideFirstPage(l, IoPages(phys, size) * PAGE, phys % PAGE); }
  }
}
