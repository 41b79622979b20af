/** virt_mem_allocator.cpp: the kernel's page directory and page tables, edited in place
    in physical memory, and the scans that find room in the high half. */
module VirtMem {
  import opened Kernel
  import opened Paging

  class VirtMemAllocator {
    /** Physical memory, one element a word. */
    const memory: array<Word>
    /** _kernel_start, a link-time constant. */
    const kernelStart: Word
    /** Virtual addresses of the page directory and of page table 0. */
    var pageDir: Word
    var pageTables: Word

    constructor (memory: array<Word>, kernelStart: Word)
      ensures this.memory == memory && this.kernelStart == kernelStart
    {
      this.memory := memory;
      this.kernelStart := kernelStart;
      pageDir, pageTables := 0, 0;
    }

    /** The frames of the directory and of table 0. */
    ghost function Layout(): Tables
      reads this
    {
      Tables(VirtToPhys(pageDir) / 0x1000, VirtToPhys(pageTables) / 0x1000)
    }

    ghost predicate Valid()
      reads this
    {
      && memory.Length == MEMORY_WORDS
      && KERNEL_BASE <= kernelStart
      && VirtToPhys(pageDir) % 0x1000 == 0 && VirtToPhys(pageTables) % 0x1000 == 0
      && Placed(Layout())
    }

    ghost predicate Consistent()
      reads this, memory
    {
      Valid() && DirectoryInvariant(memory[..], Layout())
    }

    /** The first page the kernel may map: that of _kernel_start. */
    ghost function FirstPage(): (p: nat)
      requires Valid()
      reads this
      ensures HIGH_PAGE <= p < NUM_PAGES && 0x1000 * p <= kernelStart < 0x1000 * (p + 1)
    {
      kernelStart / 0x1000
    }

    method InitPageDir(pageDir: Word, pageTables: Word)
      modifies this
      ensures this.pageDir == pageDir && this.pageTables == pageTables
    {
      this.pageDir, this.pageTables := pageDir, pageTables;
    }

    /** The index in memory of page_dir[pdIndex]. */
    function PdeIndex(pdIndex: nat): (w: nat)
      requires Valid() && pdIndex < 1024
      reads this
      ensures w == 1024 * Layout().dir + pdIndex < MEMORY_WORDS
    {
      VirtToPhys(pageDir) / 4 + pdIndex
    }

    /** Removes the identity mapping left by early boot: one directory entry. */
    method ClearIdentMap()
      requires Valid()
      modifies memory
      ensures memory[..] == Clear(old(memory[..]), Layout(), PdIndex(VirtToPhys(kernelStart)))
    {
      var identPdIndex := PdIndex(VirtToPhys(kernelStart));
      memory[PdeIndex(identPdIndex)] := 0;
    }

    /** The physical address of the table that directory entry pdIndex names. */
    method GetPageTable(pdIndex: nat) returns (table: Word)
      requires Valid() && pdIndex < 1024
      ensures table % 0x1000 == 0 && Frame(table) == Frame(Pde(memory[..], Layout(), pdIndex))
    {
      table := PageMask(memory[PdeIndex(pdIndex)]);
    }

    method LoadPageTable(pdIndex: nat)
      requires Valid() && pdIndex < 1024
      modifies memory
      ensures memory[..] == Load(old(memory[..]), Layout(), pdIndex)
    {
      var pdEntry := VirtToPhys(Wrap(pageTables + 4 * (1024 * pdIndex)));
      TableAddress(pageTables, pdIndex);
      assert pdEntry == 0x1000 * (Layout().base + pdIndex);
      pdEntry := SetPresent(pdEntry);
      assert pdEntry == Entry(Layout().base + pdIndex);
      memory[PdeIndex(pdIndex)] := pdEntry;
    }

    /** The table of a high-half block, loaded first if the block was absent. */
    method LoadedPageTable(pdIndex: nat) returns (table: Word)
      requires Consistent() && HIGH_INDEX <= pdIndex < 1024
      modifies memory
      ensures Consistent()
      ensures memory[..] == WithBlock(old(memory[..]), Layout(), pdIndex)
      ensures table % 0x1000 == 0 && Frame(table) == Frame(Pde(memory[..], Layout(), pdIndex))
    {
      if !Present(memory[PdeIndex(pdIndex)]) {
        LoadKeepsInvariant(memory[..], Layout(), pdIndex);
        LoadPageTable(pdIndex);
      }
      table := GetPageTable(pdIndex);
    }

    /** The first free page of the kernel's range. The outer scan goes block by block, the
        inner one page by page; both stop when the address wraps to 0 at 4 GiB. An absent
        block on the way is loaded, and its first page is the result. */
    method FindFreeVirtPage() returns (page: Word)
      requires Consistent()
      modifies memory
      ensures Consistent()
      ensures FreePageResult(old(memory[..]), memory[..], Layout(), FirstPage(), page)
    {
      ghost var m := memory[..];
      ghost var t := Layout();
      page := PageMask(kernelStart);
      ghost var first := FirstPage();
      ghost var pos := first;
      while page != 0
        invariant Valid() && memory[..] == m
        invariant first <= pos <= NUM_PAGES && page == PageAddr(pos)
        invariant AllMapped(m, t, first, pos)
        decreases NUM_PAGES - pos
      {
        var pdIndex := PdIndex(page);
        var nextBlock := Wrap(page + BLOCK_SIZE);
        nextBlock := Wrap(nextBlock - page % BLOCK_SIZE);
        NextBlock(pos);
        var pageTable := LoadedPageTable(pdIndex);
        var free: bool;
        ghost var start := pos;
        page, free, pos := ScanTable(page, nextBlock, pageTable, pdIndex, start);
        BlockScanned(m, memory[..], t, pdIndex, first, start, pos);
        if free {
          return;
        }
      }
      BlockDone(1023, pos);
      assert FreePageResult(m, m, t, first, 0);
    }

    /** The inner loop of FindFreeVirtPage: one table, from `page` to the end of its block. */
    method ScanTable(from: Word, nextBlock: Word, pageTable: Word, ghost i: nat, ghost start: nat)
      returns (page: Word, free: bool, ghost pos: nat)
      requires Valid() && pageTable % 0x1000 == 0
      requires HIGH_INDEX <= i < 1024 && start / 1024 == i
      requires from == PageAddr(start) && nextBlock == PageAddr(1024 * (i + 1))
      ensures start <= pos <= 1024 * (i + 1) && page == PageAddr(pos)
      ensures forall q :: start <= q < pos ==> Present(At(memory[..], Frame(pageTable), q % 1024))
      ensures if free then pos < 1024 * (i + 1) && !Present(At(memory[..], Frame(pageTable), pos % 1024))
              else pos == 1024 * (i + 1)
    {
      page, pos := from, start;
      while page != nextBlock
        invariant start <= pos <= 1024 * (i + 1) && page == PageAddr(pos)
        invariant forall q :: start <= q < pos ==> Present(At(memory[..], Frame(pageTable), q % 1024))
        decreases 1024 * (i + 1) - pos
      {
        var ptIndex := PtIndex(page);
        BlockOf(i, pos);
        assert pageTable / 4 + ptIndex == 1024 * Frame(pageTable) + pos % 1024;
        if !Present(memory[pageTable / 4 + ptIndex]) {
          return page, true, pos;
        }
        page := Wrap(page + PAGE_SIZE);
        pos := pos + 1;
      }
      BlockDone(i, pos);
      free := false;
    }

    /** Maps a page, given or found, to a frame. Whatever table the directory names is
        written, whether or not the block was loaded. */
    method MapPage(virtPage: Word, physPage: Word) returns (page: Word)
      requires Consistent() && virtPage % 0x1000 == 0 && physPage % 0x1000 == 0
      modifies memory
      ensures Consistent()
      ensures MapResult(old(memory[..]), memory[..], Layout(), FirstPage(), virtPage, physPage / 0x1000, page)
    {
      page := virtPage;
      if page == 0 {
        page := FindFreeVirtPage();
      }
      ghost var m := memory[..];
      var pdIndex := PdIndex(page);
      var ptIndex := PtIndex(page);
      var pageTable := GetPageTable(pdIndex);
      var ptEntry := SetPresent(PageMask(physPage));
      PageParts(page);
      EntryBits(physPage);
      assert pageTable / 4 + ptIndex == 1024 * Frame(pageTable) + ptIndex;
      memory[pageTable / 4 + ptIndex] := ptEntry;
      assert memory[..] == Map(m, Layout(), page / 0x1000, physPage / 0x1000);
      MapKeepsInvariant(m, Layout(), page / 0x1000, physPage / 0x1000);
    }

    /** Loads the first absent block at or above the kernel start, rounded up to a block. */
    method ReserveBlock() returns (page: Word)
      requires Consistent()
      modifies memory
      ensures Consistent()
      ensures ReserveResult(old(memory[..]), memory[..], Layout(), FirstBlock(FirstPage()), page)
    {
      ghost var m := memory[..];
      ghost var t := Layout();
      ghost var first := FirstBlock(FirstPage());
      page := PageMask(kernelStart);
      if page % BLOCK_SIZE != 0 {
        page := Wrap(page + (BLOCK_SIZE - page % BLOCK_SIZE));
      }
      RoundUp(kernelStart);
      ghost var i := first;
      while page != 0
        invariant Valid() && memory[..] == m
        invariant first <= i <= 1024 && page == PageAddr(1024 * i)
        invariant forall k :: first <= k < i ==> Loaded(m, t, k)
        decreases 1024 - i
      {
        BlockAddress(i);
        var pdIndex := PdIndex(page);
        if !Present(memory[PdeIndex(pdIndex)]) {
          LoadPageTable(pdIndex);
          LoadKeepsInvariant(m, t, pdIndex);
          return;
        }
        i := i + 1;
        page := Wrap(page + BLOCK_SIZE);
      }
      BlockAddress(i);
    }
  }

  /** The first whole block at or above a page. */
  function FirstBlock(first: nat): (i: nat)
    requires HIGH_PAGE <= first < NUM_PAGES
    ensures HIGH_INDEX <= i <= 1024 && 1024 * (i - 1) < first <= 1024 * i
  {
    (first + 1023) / 1024
  }

  lemma RoundUp(addr: Word)
    requires KERNEL_BASE <= addr
    ensures
      var page := PageMask(addr);
      PageAddr(1024 * FirstBlock(addr / 0x1000)) ==
      if page % BLOCK_SIZE != 0 then Wrap(page + (BLOCK_SIZE - page % BLOCK_SIZE)) else page
  {
  }

  lemma BlockAddress(i: nat)
    requires 0 < i <= 1024
    ensures PageAddr(1024 * i) == 0 <==> i == 1024
    ensures i < 1024 ==> PageAddr(1024 * i) == 0x40_0000 * i && PdIndex(PageAddr(1024 * i)) == i
    ensures i < 1024 ==> Wrap(PageAddr(1024 * i) + BLOCK_SIZE) == PageAddr(1024 * (i + 1))
  {
  }

  lemma EntryBits(phys: Word)
    requires phys % 0x1000 == 0
    ensures SetPresent(PageMask(phys)) == Entry(phys / 0x1000)
  {
    assert phys == 0x1000 * (phys / 0x1000);
    assert phys / 2 == 0x800 * (phys / 0x1000);
  }

  /** What map_page does. Asked for page 0 it takes the first free page; if there is none it
      goes on with page 0 and reports null. Otherwise it always reports success. */
  ghost predicate MapResult(m: seq<Word>, m': seq<Word>, t: Tables, first: nat, virtPage: Word, f: nat, page: Word)
    requires IsMemory(m) && Placed(t) && f < NUM_PAGES
  {
    if virtPage != 0 then page == virtPage && m' == Map(m, t, page / 0x1000, f)
    else exists mid :: IsMemory(mid) && FreePageResult(m, mid, t, first, page) && m' == Map(mid, t, page / 0x1000, f)
  }

  /** What reserve_block promises: the lowest absent block from `first` on, now loaded;
      null if and only if there is none. */
  ghost predicate ReserveResult(m: seq<Word>, m': seq<Word>, t: Tables, first: nat, page: Word)
    requires IsMemory(m) && Placed(t)
  {
    if page == 0 then m' == m && forall k :: first <= k < 1024 ==> Loaded(m, t, k)
    else
      var i := page / 0x40_0000;
      && page % 0x40_0000 == 0 && first <= i
      && !Loaded(m, t, i) && (forall k :: first <= k < i ==> Loaded(m, t, k))
      && m' == Load(m, t, i)
  }

  function PageAddr(p: nat): Word {
    Wrap(0x1000 * p)
  }

  /** Memory once block i is loaded. */
  ghost function WithBlock(m: seq<Word>, t: Tables, i: nat): seq<Word>
    requires IsMemory(m) && Placed(t) && i < 1024
  {
    if Loaded(m, t, i) then m else Load(m, t, i)
  }

  /** The table entry of a page, once its block is loaded, is present exactly when the page
      was mapped. */
  lemma EntryTellsWalk(m: seq<Word>, t: Tables, p: nat)
    requires DirectoryInvariant(m, t) && HIGH_PAGE <= p < NUM_PAGES
    ensures var m1 := WithBlock(m, t, p / 1024);
            && IsMemory(m1)
            && (Present(At(m1, Frame(Pde(m1, t, p / 1024)), p % 1024)) <==> Walk(m, t.dir, p).Some?)
    ensures !Loaded(m, t, p / 1024) ==> Walk(m, t.dir, p).None?
  {
    HighIndex(p);
    if !Loaded(m, t, p / 1024) {
      LoadEntry(m, t, p / 1024);
      LoadKeepsWalk(m, t, p / 1024, p);
    }
  }

  /** The same for a run of pages of one block. */
  lemma TableTellsWalk(m: seq<Word>, t: Tables, i: nat, start: nat, pos: nat)
    requires DirectoryInvariant(m, t) && HIGH_INDEX <= i < 1024
    requires start / 1024 == i && start <= pos <= 1024 * (i + 1)
    requires var m1 := WithBlock(m, t, i);
             IsMemory(m1) && forall q :: start <= q < pos ==> Present(At(m1, Frame(Pde(m1, t, i)), q % 1024))
    ensures AllMapped(m, t, start, pos)
    ensures start < pos ==> Loaded(m, t, i)
    ensures pos < 1024 * (i + 1) && !Present(At(WithBlock(m, t, i), Frame(Pde(WithBlock(m, t, i), t, i)), pos % 1024))
            ==> Walk(m, t.dir, pos).None?
  {
    forall q | start <= q < pos ensures Walk(m, t.dir, q).Some? {
      EntryTellsWalk(m, t, q);
    }
    if start < pos {
      EntryTellsWalk(m, t, start);
    }
    if pos < 1024 * (i + 1) {
      EntryTellsWalk(m, t, pos);
    }
  }

  lemma NextBlock(p: nat)
    requires p < NUM_PAGES
    ensures PageAddr(p) == 0x1000 * p && PdIndex(PageAddr(p)) == p / 1024
    ensures Wrap(Wrap(PageAddr(p) + BLOCK_SIZE) - PageAddr(p) % BLOCK_SIZE) == PageAddr(1024 * (p / 1024 + 1))
  {
  }

  /** Every page in [lo, hi) is mapped. */
  ghost predicate AllMapped(m: seq<Word>, t: Tables, lo: nat, hi: nat)
    requires IsMemory(m) && Placed(t) && hi <= NUM_PAGES
  {
    forall q :: lo <= q < hi ==> Walk(m, t.dir, q).Some?
  }

  /** What a scan for a free page from page `first` promises: the lowest unmapped page,
      with its block now loaded and nothing else changed; null if and only if there is
      none. */
  ghost predicate FreePageResult(m: seq<Word>, m': seq<Word>, t: Tables, first: nat, page: Word)
    requires IsMemory(m) && Placed(t)
  {
    if page == 0 then m' == m && AllMapped(m, t, first, NUM_PAGES)
    else
      var p := page / 0x1000;
      && page % 0x1000 == 0 && first <= p
      && Walk(m, t.dir, p).None? && AllMapped(m, t, first, p)
      && m' == WithBlock(m, t, p / 1024)
  }

  lemma FoundFree(m: seq<Word>, m': seq<Word>, t: Tables, i: nat, first: nat, p: nat)
    requires IsMemory(m) && Placed(t) && HIGH_PAGE <= first <= p < NUM_PAGES
    requires 1024 * i <= p < 1024 * (i + 1) && m' == WithBlock(m, t, i)
    requires Walk(m, t.dir, p).None? && AllMapped(m, t, first, p)
    ensures FreePageResult(m, m', t, first, PageAddr(p))
  {
    assert p / 1024 == i;
    assert PageAddr(p) / 0x1000 == p;
  }

  /** One turn of the outer loop. */
  lemma BlockScanned(m: seq<Word>, m1: seq<Word>, t: Tables, i: nat, first: nat, start: nat, pos: nat)
    requires DirectoryInvariant(m, t) && HIGH_INDEX <= i < 1024 && m1 == WithBlock(m, t, i) && IsMemory(m1)
    requires start / 1024 == i && HIGH_PAGE <= first <= start <= pos <= 1024 * (i + 1)
    requires AllMapped(m, t, first, start)
    requires forall q :: start <= q < pos ==> Present(At(m1, Frame(Pde(m1, t, i)), q % 1024))
    ensures AllMapped(m, t, first, pos)
    ensures pos == 1024 * (i + 1) ==> m1 == m
    ensures pos < 1024 * (i + 1) && !Present(At(m1, Frame(Pde(m1, t, i)), pos % 1024))
            ==> FreePageResult(m, m1, t, first, PageAddr(pos))
  {
    TableTellsWalk(m, t, i, start, pos);
    if pos < 1024 * (i + 1) && !Present(At(m1, Frame(Pde(m1, t, i)), pos % 1024)) {
      FoundFree(m, m1, t, i, first, pos);
    }
  }

  /** The scan of block i has reached its end, 4 GiB included. */
  lemma BlockDone(i: nat, pos: nat)
    requires HIGH_INDEX <= i < 1024 && HIGH_PAGE <= pos <= 1024 * (i + 1)
    requires PageAddr(pos) == PageAddr(1024 * (i + 1))
    ensures pos == 1024 * (i + 1)
  {
  }

  /** A position inside block i, before its end. */
  lemma BlockOf(i: nat, pos: nat)
    requires i < 1024 && 1024 * i <= pos <= 1024 * (i + 1) && PageAddr(pos) != PageAddr(1024 * (i + 1))
    ensures pos < NUM_PAGES && pos / 1024 == i
    ensures PtIndex(PageAddr(pos)) == pos % 1024
    ensures Wrap(PageAddr(pos) + PAGE_SIZE) == PageAddr(pos + 1)
  {
  }

  /** KERNEL_VIRT_TO_PHYS(&page_tables[1024 * i]) does not wrap for tables in memory. */
  lemma TableAddress(tables: Word, i: nat)
    requires i < 1024 && VirtToPhys(tables) + 0x40_0000 <= WORD_LIMIT
    ensures VirtToPhys(Wrap(tables + 4 * (1024 * i))) == VirtToPhys(tables) + 0x1000 * i
  {
  }
}
