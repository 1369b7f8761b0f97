/**
  The 32-bit boot code that clears its BSS and builds the page tables there, and the four-level
  page walk of 64-bit mode (section 4.5 of the Intel SDM, volume 3A) that reads them.
 */
module Boot {

  import Arena
  import opened Words

  const TWO32: nat := 0x1_0000_0000

  type dword = n: nat | n < TWO32

  const ENTRIES := 512
  const SIZE_4K: nat := 0x1000
  const SIZE_2M: nat := 0x20_0000
  const SIZE_1G: nat := 0x4000_0000
  const SIZE_512G: nat := 0x80_0000_0000
  const MAPPED: nat := 0x2000_0000

  // ---- The page walk of the processor ----------------------------------------------------

  datatype Translation = NotPresent | Mapped(physical: nat, writable: bool)

  /** The 64-bit entry at a physical address. */
  function Quad(mem: seq<dword>, at: nat): nat {
    if at / 4 + 1 < |mem| then mem[at / 4] + TWO32 * mem[at / 4 + 1] else 0
  }

  function Entry(mem: seq<dword>, table: nat, index: nat): nat { Quad(mem, table + 8 * index) }

  predicate Present(e: nat) { e % 2 == 1 }

  predicate Writable(e: nat) { e / 2 % 2 == 1 }

  predicate Large(e: nat) { e / 128 % 2 == 1 }

  /** The physical address in an entry, for a frame of 4 KB, 2 MB or 1 GB. */
  function Frame4K(e: nat): nat { e % 0x10_0000_0000_0000 / SIZE_4K * SIZE_4K }

  function Frame2M(e: nat): nat { e % 0x10_0000_0000_0000 / SIZE_2M * SIZE_2M }

  function Frame1G(e: nat): nat { e % 0x10_0000_0000_0000 / SIZE_1G * SIZE_1G }

  /** Bits 47 to 63 of the address are equal. */
  predicate Canonical(a: size_t) { a < TWO64 / 0x2_0000 || a >= TWO64 - TWO64 / 0x2_0000 }

  /** The last table of the walk: pages of 4 KB. */
  function WalkPt(mem: seq<dword>, table: nat, a: size_t, writable: bool): Translation {
    var pte := Entry(mem, table, a / SIZE_4K % ENTRIES);
    if !Present(pte) then NotPresent else Mapped(Frame4K(pte) + a % SIZE_4K, writable && Writable(pte))
  }

  /** A page directory: pages of 2 MB, or further tables. */
  function WalkPd(mem: seq<dword>, table: nat, a: size_t, writable: bool): Translation {
    var pde := Entry(mem, table, a / SIZE_2M % ENTRIES);
    if !Present(pde) then NotPresent
    else if Large(pde) then Mapped(Frame2M(pde) + a % SIZE_2M, writable && Writable(pde))
    else WalkPt(mem, Frame4K(pde), a, writable && Writable(pde))
  }

  /** A page-directory-pointer table: pages of 1 GB, or directories. */
  function WalkPdpt(mem: seq<dword>, table: nat, a: size_t, writable: bool): Translation {
    var pdpte := Entry(mem, table, a / SIZE_1G % ENTRIES);
    if !Present(pdpte) then NotPresent
    else if Large(pdpte) then Mapped(Frame1G(pdpte) + a % SIZE_1G, writable && Writable(pdpte))
    else WalkPd(mem, Frame4K(pdpte), a, writable && Writable(pdpte))
  }

  function Walk(mem: seq<dword>, cr3: nat, a: size_t): Translation
    requires Canonical(a)
  {
    var pml4e := Entry(mem, cr3, a / SIZE_512G % ENTRIES);
    if !Present(pml4e) then NotPresent else WalkPdpt(mem, Frame4K(pml4e), a, Writable(pml4e))
  }

  // ---- What the boot code must leave in memory ----------------------------------------------

  /** Where the linker put the BSS, from the start of a page on, and the pages of the three tables in it. */
  datatype Layout = Layout(bssPage: nat, bssSize: nat, pml4Page: nat, pdptPage: nat, pdPage: nat) {
    const bssStart: nat := SIZE_4K * bssPage
    const bssEnd: nat := bssStart + bssSize
    const pml4: nat := SIZE_4K * pml4Page
    const pdpt: nat := SIZE_4K * pdptPage
    const pd: nat := SIZE_4K * pdPage

    predicate InBss(page: nat) { bssPage <= page && SIZE_4K * (page + 1) <= bssEnd }

    predicate Valid() {
      && bssEnd < TWO32
      && InBss(pml4Page) && InBss(pdptPage) && InBss(pdPage)
      && pml4Page != pdptPage && pml4Page != pdPage && pdptPage != pdPage
    }
  }

  function Pml4Entry(l: Layout, i: nat): nat { if i == 0 then l.pdpt + 3 else 0 }

  function PdptEntry(l: Layout, i: nat): nat { if i == 0 then l.pd + 3 else 0 }

  function PdEntry(i: nat): nat { if i < 256 then i * SIZE_2M + 0x83 else 0 }

  ghost predicate IdentityTables(mem: seq<dword>, l: Layout) {
    && (forall i | 0 <= i < ENTRIES :: Entry(mem, l.pml4, i) == Pml4Entry(l, i))
    && (forall i | 0 <= i < ENTRIES :: Entry(mem, l.pdpt, i) == PdptEntry(l, i))
    && (forall i | 0 <= i < ENTRIES :: Entry(mem, l.pd, i) == PdEntry(i))
  }

  lemma TableBits(page: nat)
    requires SIZE_4K * page < TWO32
    ensures var table := SIZE_4K * page;
            && Present(table + 3) && Writable(table + 3) && !Large(table + 3) && Frame4K(table + 3) == table
  {
    var e := SIZE_4K * page + 3;
    assert e == 2 * (2048 * page + 1) + 1 && e / 2 == 2048 * page + 1 && e / 128 == 32 * page;
    assert e % 0x10_0000_0000_0000 == e && e / SIZE_4K == page;
  }

  lemma LargePageBits(i: nat)
    requires i < 256
    ensures Present(PdEntry(i)) && Writable(PdEntry(i)) && Large(PdEntry(i)) && Frame2M(PdEntry(i)) == i * SIZE_2M
  {
  }

  /** Only addresses below 512 MB select the first entry of the upper tables and the filled half of the directory. */
  lemma FirstHalfGigabyte(a: size_t)
    requires Canonical(a)
    ensures a < MAPPED <==> a / SIZE_512G % ENTRIES == 0 && a / SIZE_1G % ENTRIES == 0 && a / SIZE_2M % ENTRIES < 256
    ensures a < MAPPED ==> a / SIZE_2M % ENTRIES * SIZE_2M + a % SIZE_2M == a
  {
    if a < SIZE_512G {
      assert a / SIZE_512G == 0;
      if a < SIZE_1G {
        assert a / SIZE_1G == 0;
      }
    }
  }

  lemma DirectoryMaps(mem: seq<dword>, l: Layout, a: size_t)
    requires IdentityTables(mem, l)
    ensures var i := a / SIZE_2M % ENTRIES;
            WalkPd(mem, l.pd, a, true) == if i < 256 then Mapped(i * SIZE_2M + a % SIZE_2M, true) else NotPresent
  {
    var i := a / SIZE_2M % ENTRIES;
    assert Entry(mem, l.pd, i) == PdEntry(i) && !Present(0);
    if i < 256 {
      LargePageBits(i);
    }
    hide Present, Writable, Large, Frame4K, Frame2M, Entry, WalkPt, IdentityTables;
  }

  lemma PointerTableMaps(mem: seq<dword>, l: Layout, a: size_t)
    requires l.Valid() && IdentityTables(mem, l)
    ensures WalkPdpt(mem, l.pdpt, a, true) == if a / SIZE_1G % ENTRIES == 0 then WalkPd(mem, l.pd, a, true) else NotPresent
  {
    var i := a / SIZE_1G % ENTRIES;
    assert Entry(mem, l.pdpt, i) == PdptEntry(l, i) && !Present(0);
    TableBits(l.pdPage);
    hide Present, Writable, Large, Frame4K, Frame1G, Entry, WalkPd, IdentityTables;
  }

  /** The walk maps the first 512 MB onto themselves, present and writable, and nothing else. */
  lemma WalkIsIdentity(mem: seq<dword>, l: Layout, a: size_t)
    requires l.Valid() && IdentityTables(mem, l) && Canonical(a)
    ensures Walk(mem, l.pml4, a) == if a < MAPPED then Mapped(a, true) else NotPresent
  {
    var i := a / SIZE_512G % ENTRIES;
    assert Entry(mem, l.pml4, i) == Pml4Entry(l, i) && !Present(0);
    TableBits(l.pdptPage);
    FirstHalfGigabyte(a);
    DirectoryMaps(mem, l, a);
    PointerTableMaps(mem, l, a);
    hide Present, Writable, Frame4K, Entry, Canonical, WalkPd, WalkPdpt, IdentityTables;
  }

  /** The whole mmap arena is mapped to the RAM of the same address. */
  lemma ArenaIsMapped(mem: seq<dword>, l: Layout, a: size_t)
    requires l.Valid() && IdentityTables(mem, l)
    requires Arena.MMAP_BASE <= a < Arena.MMAP_LIMIT
    ensures Walk(mem, l.pml4, a) == Mapped(a, true)
  {
    WalkIsIdentity(mem, l, a);
  }

  // ---- The boot code ------------------------------------------------------------------------

  /** Bitwise or. */
  function Or(a: nat, b: nat): nat {
    AndBounded(a, b);
    a + b - And(a, b)
  }

  lemma OrFlags(page: nat)
    ensures Or(SIZE_4K * page, 3) == SIZE_4K * page + 3
  {
    var x := SIZE_4K * page;
    assert And(x / 2, 1) == 0 + 2 * And(x / 4, 0);
  }

  /** The doublewords of the BSS, and those of one of its pages. */
  ghost predicate InBssWords(l: Layout, k: int) { 1024 * l.bssPage <= k < 1024 * l.bssPage + l.bssSize / 4 }

  ghost predicate InPageWords(page: nat, k: int) { 1024 * page <= k < 1024 * page + 1024 }

  /** rep stosl, with the address in edi and the count in ecx. */
  method ClearBss(mem: array<dword>, l: Layout)
    requires l.Valid() && l.bssEnd <= 4 * mem.Length
    modifies mem
    ensures forall k | 0 <= k < mem.Length :: mem[k] == if InBssWords(l, k) then 0 else old(mem[k])
  {
    var edi := l.bssStart;
    var ecx := (l.bssEnd - edi) / 4;
    ghost var first, n := 1024 * l.bssPage, 0;
    while ecx > 0
      invariant n + ecx == l.bssSize / 4 && ecx >= 0 && edi == 4 * (first + n)
      invariant forall k | 0 <= k < mem.Length :: mem[k] == if first <= k < first + n then 0 else old(mem[k])
    {
      assert edi / 4 == first + n;
      mem[edi / 4] := 0;
      edi := edi + 4;
      ecx := ecx - 1;
      n := n + 1;
    }
  }

  /** The word of the page directory at this index once 'filled' of its entries are written. */
  ghost function DirectoryWord(l: Layout, filled: nat, k: int, was: dword): nat
    requires filled <= 256
  {
    var j := k - 1024 * l.pdPage;
    if 0 <= j < 2 * filled then if j % 2 == 0 then j / 2 * SIZE_2M + 0x83 else 0 else was
  }

  lemma OneMoreEntry(l: Layout, n: nat, k: int, was: dword)
    requires n < 256
    ensures var j := k - 1024 * l.pdPage;
            DirectoryWord(l, n + 1, k, was) ==
            if j == 2 * n then n * SIZE_2M + 0x83 else if j == 2 * n + 1 then 0 else DirectoryWord(l, n, k, was)
  {
    var j := k - 1024 * l.pdPage;
    if j == 2 * n {
      assert j % 2 == 0 && j / 2 == n;
    } else if j == 2 * n + 1 {
      assert j % 2 == 1;
    } else {
      assert 0 <= j < 2 * (n + 1) <==> 0 <= j < 2 * n;
    }
  }

  /** The loop over registers: eax and edx are the entry, edi its address, ecx the count. */
  method FillDirectory(mem: array<dword>, l: Layout)
    requires l.Valid() && l.bssEnd <= 4 * mem.Length
    modifies mem
    ensures forall k | 0 <= k < mem.Length :: mem[k] == DirectoryWord(l, 256, k, old(mem[k]))
  {
    var edi, eax, edx, ecx := l.pd, 0x83, 0, 256;
    ghost var n := 0;
    while true
      invariant n + ecx == 256 && ecx > 0
      invariant edi == 4 * (1024 * l.pdPage + 2 * n) && eax == n * SIZE_2M + 0x83 && edx == 0
      invariant forall k | 0 <= k < mem.Length :: mem[k] == DirectoryWord(l, n, k, old(mem[k]))
      decreases ecx
    {
      ghost var at := 1024 * l.pdPage + 2 * n;
      assert edi / 4 == at && (edi + 4) / 4 == at + 1;
      mem[edi / 4] := eax;
      mem[(edi + 4) / 4] := edx;
      hide DirectoryWord;
      forall k | 0 <= k < mem.Length
        ensures mem[k] == DirectoryWord(l, n + 1, k, old(mem[k]))
      {
        OneMoreEntry(l, n, k, old(mem[k]));
      }
      var carry := if eax + 0x20_0000 >= TWO32 then 1 else 0;
      eax := (eax + 0x20_0000) % TWO32;
      edx := (edx + carry) % TWO32;
      edi := edi + 8;
      ecx := ecx - 1;
      n := n + 1;
      if ecx == 0 {
        break;
      }
    }
  }

  lemma EntryWords(mem: seq<dword>, page: nat, i: nat)
    requires i < ENTRIES && 1024 * (page + 1) <= |mem|
    ensures Entry(mem, SIZE_4K * page, i) == mem[1024 * page + 2 * i] + TWO32 * mem[1024 * page + 2 * i + 1]
  {
    assert (SIZE_4K * page + 8 * i) / 4 == 1024 * page + 2 * i;
  }

  /** The words of a table that holds one entry, the first. */
  ghost predicate OneEntry(mem: seq<dword>, page: nat, entry: dword)
    requires 1024 * (page + 1) <= |mem|
  {
    forall k | InPageWords(page, k) :: mem[k] == if k == 1024 * page then entry else 0
  }

  ghost predicate FilledDirectory(mem: seq<dword>, l: Layout)
    requires 1024 * (l.pdPage + 1) <= |mem|
  {
    forall k | InPageWords(l.pdPage, k) :: mem[k] == DirectoryWord(l, 256, k, 0)
  }

  lemma OneEntryTable(mem: seq<dword>, page: nat, entry: dword, i: nat)
    requires 1024 * (page + 1) <= |mem| && OneEntry(mem, page, entry) && i < ENTRIES
    ensures Entry(mem, SIZE_4K * page, i) == if i == 0 then entry else 0
  {
    EntryWords(mem, page, i);
    hide Entry;
    assert InPageWords(page, 1024 * page + 2 * i) && InPageWords(page, 1024 * page + 2 * i + 1);
  }

  lemma DirectoryTable(mem: seq<dword>, l: Layout, i: nat)
    requires 1024 * (l.pdPage + 1) <= |mem| && FilledDirectory(mem, l) && i < ENTRIES
    ensures Entry(mem, l.pd, i) == PdEntry(i)
  {
    EntryWords(mem, l.pdPage, i);
    hide Entry;
    var k := 1024 * l.pdPage + 2 * i;
    assert InPageWords(l.pdPage, k) && InPageWords(l.pdPage, k + 1);
    assert DirectoryWord(l, 256, k, 0) == PdEntry(i);
    assert DirectoryWord(l, 256, k + 1, 0) == 0;
  }

  lemma WordsMakeTables(mem: seq<dword>, l: Layout)
    requires l.Valid() && l.bssEnd <= 4 * |mem|
    requires OneEntry(mem, l.pml4Page, l.pdpt + 3) && OneEntry(mem, l.pdptPage, l.pd + 3) && FilledDirectory(mem, l)
    ensures IdentityTables(mem, l)
  {
    hide OneEntry, FilledDirectory, Entry, PdEntry;
    forall i | 0 <= i < ENTRIES
      ensures Entry(mem, l.pml4, i) == Pml4Entry(l, i)
      ensures Entry(mem, l.pdpt, i) == PdptEntry(l, i)
      ensures Entry(mem, l.pd, i) == PdEntry(i)
    {
      OneEntryTable(mem, l.pml4Page, l.pdpt + 3, i);
      OneEntryTable(mem, l.pdptPage, l.pd + 3, i);
      DirectoryTable(mem, l, i);
    }
  }

  method BuildTables(mem: array<dword>, l: Layout)
    requires l.Valid() && l.bssEnd <= 4 * mem.Length
    modifies mem
    ensures IdentityTables(mem[..], l)
    ensures forall k | 0 <= k < mem.Length && !InBssWords(l, k) :: mem[k] == old(mem[k])
  {
    ClearBss(mem, l);
    OrFlags(l.pdptPage);
    OrFlags(l.pdPage);
    hide Or;
    assert l.pml4 / 4 == 1024 * l.pml4Page && l.pdpt / 4 == 1024 * l.pdptPage;
    mem[l.pml4 / 4] := Or(l.pdpt, 3);
    mem[l.pdpt / 4] := Or(l.pd, 3);
    FillDirectory(mem, l);
    WordsMakeTables(mem[..], l);
    hide IdentityTables;
  }
}
