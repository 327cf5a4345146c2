/** Sv39 address translation as the hardware performs it: section 4.3.2 (virtual address translation
    process) and section 4.4 (Sv39) of the RISC-V Privileged Architecture, version 20211203.  This is the
    specification the page-table code is proved against. */
module Sv39 {
  import opened Division

  const PAGE: nat := 0x1000
  const MEGA: nat := 0x20_0000
  const GIGA: nat := 0x4000_0000
  const ENTRIES: nat := 512

  /** Page-table memory: page-aligned physical address of a table -> its 512 entries. */
  type Memory = map<nat, seq<nat>>

  // ----- page-table entries

  const PTE_V: nat := 1

  function FlagsOf(pte: nat): nat { pte % 1024 }
  predicate FlagV(f: nat) { f % 2 == 1 }
  predicate FlagR(f: nat) { f / 2 % 2 == 1 }
  predicate FlagW(f: nat) { f / 4 % 2 == 1 }
  predicate FlagX(f: nat) { f / 8 % 2 == 1 }

  /** PTE_U, PTE_A or PTE_D: reserved, and so required to be zero, in an entry that is not a leaf. */
  predicate FlagUAD(f: nat) { f / 16 % 2 == 1 || f / 64 % 2 == 1 || f / 128 % 2 == 1 }

  predicate Present(pte: nat) { FlagV(FlagsOf(pte)) }

  /** Physical address held in an entry. */
  function PhysOf(pte: nat): nat { pte / 1024 * PAGE }

  /** Bits 63-54 are reserved and must be zero. */
  predicate Reserved(pte: nat) { pte >= 0x40_0000_0000_0000 }

  // ----- virtual addresses

  /** Size of the region that one entry of a table at this level maps. */
  function Span(level: nat): nat {
    if level == 0 then PAGE else if level == 1 then MEGA else GIGA
  }

  function Index(va: nat, level: nat): (i: nat)
    ensures i < ENTRIES
  {
    va / Span(level) % ENTRIES
  }

  /** Bits 63-39 all equal bit 38. */
  predicate Canonical(va: nat) {
    va < 0x40_0000_0000 || 0xFFFF_FFC0_0000_0000 <= va < 0x1_0000_0000_0000_0000
  }

  /** The outcome for the 4 KB page that contains an address: its physical page and the entry's flags. */
  datatype Translation = Fault | Page(pa: nat, flags: nat)

  /** Steps 6 and 8: a leaf found at this level; a misaligned superpage faults. */
  function LeafPage(pte: nat, va: nat, level: nat): Translation {
    if PhysOf(pte) % Span(level) != 0 then Fault
    else Page(PhysOf(pte) + va % Span(level) / PAGE * PAGE, FlagsOf(pte))
  }

  /** Steps 2 to 4 at the table at address a. */
  function Walk(m: Memory, a: nat, va: nat, level: nat): Translation
    decreases level
  {
    if a !in m || |m[a]| != ENTRIES then Fault else
      var pte := m[a][Index(va, level)];
      var f := FlagsOf(pte);
      if !FlagV(f) || (!FlagR(f) && FlagW(f)) || Reserved(pte) then Fault
      else if FlagR(f) || FlagX(f) then LeafPage(pte, va, level)
      else if FlagUAD(f) || level == 0 then Fault
      else Walk(m, PhysOf(pte), va, level - 1)
  }

  function Translate(m: Memory, root: nat, va: nat): Translation {
    if Canonical(va) then Walk(m, root, va, 2) else Fault
  }

  /** Addresses that use the same table entries down to the given level. */
  predicate SameEntry(va: nat, va': nat, level: nat) {
    && Index(va, 2) == Index(va', 2)
    && (level <= 1 ==> Index(va, 1) == Index(va', 1))
    && (level == 0 ==> Index(va, 0) == Index(va', 0))
  }

  /** The page number of an address is its index in the levels below and the region number above. */
  lemma Digits(va: nat)
    ensures var p, m := va / PAGE, va / MEGA;
            && m == p / 512 && va / GIGA == m / 512 && va / GIGA == p / 0x4_0000
            && va % MEGA == p % 512 * PAGE + va % PAGE
            && va % GIGA == p % 0x4_0000 * PAGE + va % PAGE && p % 0x4_0000 == m % 512 * 512 + p % 512
  {
    var p, o := va / PAGE, va % PAGE;
    var m, q := p / 512, p % 512;
    var g, s := m / 512, m % 512;
    DivIs(va, MEGA, m, q * PAGE + o);
    DivIs(va, GIGA, g, (s * 512 + q) * PAGE + o);
    DivIs(p, 0x4_0000, g, s * 512 + q);
  }

  /** For canonical addresses, sharing the entry in the root table means lying in the same gigabyte. */
  lemma SameGigabyte(va: nat, va': nat)
    requires Canonical(va) && Canonical(va')
    ensures Index(va, 2) == Index(va', 2) <==> va / GIGA == va' / GIGA
  {
    var g, g' := va / GIGA, va' / GIGA;
    assert g < 256 || 0x3_FFFF_FF00 <= g < 0x4_0000_0000;
    assert g' < 256 || 0x3_FFFF_FF00 <= g' < 0x4_0000_0000;
  }

  /** For canonical addresses, sharing a level's entry means lying in the same region of that level's
      size: no two regions alias. */
  lemma SameEntryIsSameRegion(va: nat, va': nat, level: nat)
    requires Canonical(va) && Canonical(va') && level <= 2
    ensures SameEntry(va, va', level) <==> va / Span(level) == va' / Span(level)
  {
    SameGigabyte(va, va');
    Digits(va);
    Digits(va');
  }
}
