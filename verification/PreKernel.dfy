/** pre_kernel.cpp: the first page directory and tables, written in physical memory before
    paging is on. */
module PreKernel {
  import opened Kernel
  import opened Paging
  import opened BootPaging
  import opened Multiboot

  /** The number of the first page boundary at or above an address. */
  function PageAbove(addr: nat): (p: nat)
    ensures 0x1000 * (p - 1) < addr <= 0x1000 * p
  {
    (addr + 0xfff) / 0x1000
  }

  /** The pre-paging helper: an entry in a table given by its physical address. */
  method MapPage(memory: array<Word>, virtAddr: Word, physAddr: Word, table: Word)
    requires memory.Length == MEMORY_WORDS && table % 0x1000 == 0 && physAddr % 0x1000 == 0
    modifies memory
    ensures memory[..] == Set(old(memory[..]), Frame(table), PtIndex(virtAddr), Entry(Frame(physAddr)))
  {
    var pagePtIndex := PtIndex(virtAddr);
    EntryOf(physAddr);
    var pagePtEntry := SetPresent(physAddr);
    assert table / 4 + pagePtIndex == 1024 * Frame(table) + pagePtIndex;
    memory[table / 4 + pagePtIndex] := pagePtEntry;
  }

  lemma EntryOf(addr: Word)
    requires addr % 0x1000 == 0
    ensures SetPresent(addr) == Entry(Frame(addr))
  {
    assert addr == 0x1000 * (addr / 0x1000);
    assert addr / 2 == 0x800 * (addr / 0x1000);
  }

  /** p_init_page_dir[i] = entry */
  method EnterPde(memory: array<Word>, pageDir: Word, i: nat, entry: Word)
    requires memory.Length == MEMORY_WORDS && pageDir % 0x1000 == 0 && i < 1024
    modifies memory
    ensures memory[..] == Set(old(memory[..]), Frame(pageDir), i, entry)
  {
    assert pageDir / 4 + i == 1024 * Frame(pageDir) + i;
    memory[pageDir / 4 + i] := entry;
  }

  /** The block of the last kernel page mapped so far, once the pages from lo to f - 1 are. */
  function CurrentBlock(lo: nat, f: nat): nat {
    if lo < f then (f - 1) / 1024 else lo / 1024
  }

  lemma BlockAdvances(lo: nat, f: nat)
    requires lo <= f
    ensures CurrentBlock(lo, f + 1) == f / 1024
    ensures f / 1024 == CurrentBlock(lo, f) || f / 1024 == CurrentBlock(lo, f) + 1
    ensures lo / 1024 <= CurrentBlock(lo, f) <= f / 1024
  {
  }

  /** The tables hold the kernel pages from lo to f - 1; blocks up to cur are entered, and
      `entry` and `table` name the table of block cur. */
  ghost predicate KernelState(m: seq<Word>, t: Tables, lo: nat, f: nat, cur: nat, entry: Word, table: Word)
    requires IsMemory(m) && Placed(t) && lo <= f <= 0x4_0000
  {
    && lo / 1024 <= cur < 256
    && table == 0x1000 * (t.base + cur - lo / 1024)
    && entry == Entry(t.base + cur - lo / 1024)
    && DirectoryIs(m, t, lo / 1024, cur)
    && TablesAre(m, t, KernelSlots(lo / 1024, lo, f))
  }

  /** What the kernel loop keeps. */
  ghost predicate KernelMapped(m: seq<Word>, t: Tables, lo: nat, f: nat, cur: nat, entry: Word, table: Word)
    requires IsMemory(m) && Placed(t) && lo <= f <= 0x4_0000
  {
    cur == CurrentBlock(lo, f) && KernelState(m, t, lo, f, cur, entry, table)
  }

  /** Page f, by its address. */
  lemma PageAt(f: nat)
    requires f < NUM_PAGES
    ensures Frame(0x1000 * f) == f
    ensures PdIndex(0x1000 * f) == f / 1024 && PtIndex(0x1000 * f) == f % 1024
  {
  }

  lemma NextPageAt(f: nat)
    requires f < 0xf_ffff
    ensures Wrap(0x1000 * f + PAGE_SIZE) == 0x1000 * (f + 1)
  {
  }

  lemma SlotOf(ident: nat, f: nat)
    requires ident <= f / 1024
    ensures 1024 * (f / 1024 - ident) + f % 1024 == f - 1024 * ident
  {
  }

  lemma NextBlockEntered(m: seq<Word>, t: Tables, lo: nat, f: nat, cur: nat, entry: Word, table: Word)
    requires IsMemory(m) && Placed(t) && lo <= f <= 0x4_0000 && cur < 255
    requires KernelState(m, t, lo, f, cur, entry, table)
    ensures Wrap(entry + PAGE_SIZE) == Entry(t.base + cur + 1 - lo / 1024)
    ensures KernelState(EnterBlock(m, t, lo / 1024, cur + 1), t, lo, f, cur + 1,
                        Wrap(entry + PAGE_SIZE), Wrap(table + PAGE_SIZE))
  {
    EnterNext(m, t, KernelSlots(lo / 1024, lo, f), lo / 1024, cur);
  }

  lemma PageEntered(m: seq<Word>, t: Tables, lo: nat, f: nat, entry: Word, table: Word)
    requires IsMemory(m) && Placed(t) && lo <= f < 0x4_0000
    requires KernelState(m, t, lo, f, f / 1024, entry, table)
    ensures KernelState(Set(m, Frame(table), f % 1024, Entry(f)), t, lo, f + 1, f / 1024, entry, table)
  {
    var ident := lo / 1024;
    var c := KernelSlots(ident, lo, f);
    PageAt(t.base + f / 1024 - ident);
    WriteSlot(m, t, c, f / 1024 - ident, f % 1024, f);
    SlotOf(ident, f);
    assert c[f - 1024 * ident := f] == KernelSlots(ident, lo, f + 1);
  }

  /** Enters the next block, at the bottom and in the high half, with the next table. */
  method EnterNextBlock(memory: array<Word>, pageDir: Word, ident: nat, cur: nat, entry0: Word, table0: Word,
                        ghost t: Tables, ghost lo: nat, ghost f: nat)
    returns (entry: Word, table: Word)
    requires memory.Length == MEMORY_WORDS && Placed(t)
    requires pageDir == 0x1000 * t.dir && ident == lo / 1024 && lo <= f <= 0x4_0000 && 0 < cur < 256
    requires KernelState(memory[..], t, lo, f, cur - 1, entry0, table0)
    modifies memory
    ensures KernelState(memory[..], t, lo, f, cur, entry, table)
  {
    NextBlockEntered(memory[..], t, lo, f, cur - 1, entry0, table0);
    entry := Wrap(entry0 + PAGE_SIZE);
    table := Wrap(table0 + PAGE_SIZE);
    EnterPde(memory, pageDir, cur, entry);
    EnterPde(memory, pageDir, HIGH_INDEX + ident + cur - ident, entry);
  }

  /** One turn of the kernel loop: a new block is entered at a 4 MiB boundary, and the page
      is mapped in the current table. */
  method MapKernelPage(memory: array<Word>, pageDir: Word, ident: nat, kernelPage: Word,
                       cur0: nat, entry0: Word, table0: Word,
                       ghost t: Tables, ghost lo: nat, ghost f: nat)
    returns (cur: nat, entry: Word, table: Word)
    requires memory.Length == MEMORY_WORDS && Placed(t)
    requires pageDir == 0x1000 * t.dir && kernelPage == 0x1000 * f && ident == lo / 1024
    requires lo <= f < 0x4_0000 && KernelMapped(memory[..], t, lo, f, cur0, entry0, table0)
    modifies memory
    ensures KernelMapped(memory[..], t, lo, f + 1, cur, entry, table)
  {
    cur, entry, table := cur0, entry0, table0;
    BlockAdvances(lo, f);
    var newIdentPdIndex := PdIndex(kernelPage);
    PageAt(f);
    if newIdentPdIndex > cur {
      entry, table := EnterNextBlock(memory, pageDir, ident, newIdentPdIndex, entry, table, t, lo, f);
      cur := newIdentPdIndex;
    }
    PageEntered(memory[..], t, lo, f, entry, table);
    MapPage(memory, kernelPage, kernelPage, table);
  }

  /** The state before the kernel loop. */
  lemma KernelLoopStarts(m: seq<Word>, t: Tables, lo: nat, table: Word)
    requires IsMemory(m) && Placed(t) && lo < 0x4_0000 && AllZero(m, t) && table == 0x1000 * t.base
    ensures KernelMapped(EnterBlock(m, t, lo / 1024, lo / 1024), t, lo, lo, lo / 1024, Entry(t.base), table)
  {
    EnterFirst(m, t, lo / 1024);
    assert KernelSlots(lo / 1024, lo, lo) == map[];
  }

  /** The page loops: f is the page reached, counting up from that of `addr` while the
      page starts below `end`. */
  ghost predicate Counting(addr: nat, end: nat, f: nat) {
    addr / 0x1000 <= f && (f == addr / 0x1000 || 0x1000 * (f - 1) < end)
  }

  lemma CountingDone(addr: nat, end: nat, f: nat)
    requires addr <= end <= 0x1000 * f && Counting(addr, end, f)
    ensures f == PageAbove(end)
  {
  }

  lemma CountingBelow(addr: nat, end: nat, f: nat, limit: nat)
    requires addr <= end <= 0x1000 * limit && Counting(addr, end, f)
    ensures f <= limit
    ensures 0x1000 * f < end ==> f < limit && Counting(addr, end, f + 1)
  {
  }

  /** The block of the kernel's first page, at the bottom and in the high half, with table 0. */
  method EnterFirstBlock(memory: array<Word>, pageDir: Word, pageTables: Word, start: Word, ghost t: Tables)
    returns (ident: nat, entry: Word)
    requires memory.Length == MEMORY_WORDS && Placed(t) && AllZero(memory[..], t)
    requires pageDir == 0x1000 * t.dir && pageTables == 0x1000 * t.base && start < 0x4000_0000
    modifies memory
    ensures var lo := start / 0x1000;
            ident == lo / 1024 && KernelMapped(memory[..], t, lo, lo, ident, entry, pageTables)
  {
    ghost var lo := start / 0x1000;
    entry := SetPresent(pageTables);
    EntryOf(pageTables);
    ident := PdIndex(start);
    assert ident == lo / 1024 < 256;
    KernelLoopStarts(memory[..], t, lo, pageTables);
    EnterPde(memory, pageDir, ident, entry);
    EnterPde(memory, pageDir, HIGH_INDEX + ident, entry);
  }

  /** The kernel pages of setup_paging, from the first block on. All addresses physical. */
  method MapKernel(memory: array<Word>, pageDir: Word, pageTables: Word, start: Word, end: Word, ghost t: Tables)
    requires memory.Length == MEMORY_WORDS && Placed(t) && AllZero(memory[..], t)
    requires pageDir == 0x1000 * t.dir && pageTables == 0x1000 * t.base
    requires start <= end < 0x4000_0000
    modifies memory
    ensures var lo := start / 0x1000;
            var hi := PageAbove(end);
            && lo <= hi <= 0x4_0000 && CurrentBlock(lo, hi) < 256
            && DirectoryIs(memory[..], t, lo / 1024, CurrentBlock(lo, hi))
            && TablesAre(memory[..], t, KernelSlots(lo / 1024, lo, hi))
  {
    ghost var lo := start / 0x1000;
    var identPdIndex, kernelPdEntry := EnterFirstBlock(memory, pageDir, pageTables, start, t);
    var kernelPage := PageMask(start);
    var curPPageTable := pageTables;
    var curIdentPdIndex := identPdIndex;
    ghost var f := lo;
    while kernelPage < end
      invariant kernelPage == 0x1000 * f && Counting(start, end, f) && f <= 0x4_0000
      invariant KernelMapped(memory[..], t, lo, f, curIdentPdIndex, kernelPdEntry, curPPageTable)
      decreases 0x4_0000 - f
    {
      CountingBelow(start, end, f, 0x4_0000);
      NextPageAt(f);
      curIdentPdIndex, kernelPdEntry, curPPageTable :=
        MapKernelPage(memory, pageDir, identPdIndex, kernelPage, curIdentPdIndex, kernelPdEntry, curPPageTable,
                      t, lo, f);
      kernelPage := Wrap(kernelPage + PAGE_SIZE);
      f := f + 1;
    }
    CountingDone(start, end, f);
  }

  /** One page of a buffer. */
  method MapBufferPage(memory: array<Word>, pageTables: Word, page: Word,
                       ghost t: Tables, ghost c: Slots, ghost last: nat, ghost lo: nat, ghost f: nat)
    requires memory.Length == MEMORY_WORDS && Placed(t) && FramesValid(c) && last < 256 && lo <= f < NUM_PAGES
    requires pageTables == 0x1000 * t.base && page == 0x1000 * f
    requires DirectoryIs(memory[..], t, 0, last) && TablesAre(memory[..], t, BufferSlots(c, lo, f))
    modifies memory
    ensures DirectoryIs(memory[..], t, 0, last) && TablesAre(memory[..], t, BufferSlots(c, lo, f + 1))
  {
    BufferSlot(page);
    PageAt(f);
    PageAt(t.base);
    BufferPageEntered(memory[..], t, c, last, lo, f);
    MapPage(memory, Wrap(KERNEL_BASE + page), page, pageTables);
  }

  /** Maps the pages of a boot loader buffer into the high half through table 0, wherever
      they are. `end` keeps clear of 4 GiB, or the 32-bit loop would not stop. */
  method MapBuffer(memory: array<Word>, pageTables: Word, addr: Word, end: Word,
                   ghost t: Tables, ghost c: Slots, ghost last: nat)
    requires memory.Length == MEMORY_WORDS && Placed(t) && FramesValid(c) && last < 256
    requires pageTables == 0x1000 * t.base && addr <= end <= 0xffff_f000
    requires DirectoryIs(memory[..], t, 0, last) && TablesAre(memory[..], t, c)
    modifies memory
    ensures DirectoryIs(memory[..], t, 0, last)
    ensures PageAbove(end) <= NUM_PAGES
    ensures TablesAre(memory[..], t, BufferSlots(c, addr / 0x1000, PageAbove(end)))
  {
    var page := PageMask(addr);
    ghost var lo := addr / 0x1000;
    ghost var f := lo;
    while page < end
      invariant page == 0x1000 * f && Counting(addr, end, f) && f <= 0xf_ffff
      invariant DirectoryIs(memory[..], t, 0, last)
      invariant TablesAre(memory[..], t, BufferSlots(c, lo, f))
      decreases 0xf_ffff - f
    {
      CountingBelow(addr, end, f, 0xf_ffff);
      NextPageAt(f);
      MapBufferPage(memory, pageTables, page, t, c, last, lo, f);
      page := Wrap(page + PAGE_SIZE);
      f := f + 1;
    }
    CountingDone(addr, end, f);
  }

  lemma BufferSlot(page: Word)
    requires page % 0x1000 == 0
    ensures PtIndex(Wrap(KERNEL_BASE + page)) == page / 0x1000 % 1024
  {
  }

  lemma BufferPageEntered(m: seq<Word>, t: Tables, c: Slots, last: nat, lo: nat, f: nat)
    requires IsMemory(m) && Placed(t) && FramesValid(c) && last < 256 && lo <= f < NUM_PAGES
    requires DirectoryIs(m, t, 0, last) && TablesAre(m, t, BufferSlots(c, lo, f))
    ensures var m' := Set(m, t.base, f % 1024, Entry(f));
            DirectoryIs(m', t, 0, last) && TablesAre(m', t, BufferSlots(c, lo, f + 1))
  {
    WriteSlot(m, t, BufferSlots(c, lo, f), 0, f % 1024, f);
  }

  lemma NoWrap(addr: Word, len: nat)
    requires addr + len <= 0xffff_f000
    ensures Wrap(addr + len) == addr + len
  {
  }

  lemma BuffersChecked(b: Boot, info: Word, mmapAddr: Word, mmapLength: Word)
    requires info < BLOCK_SIZE && mmapAddr < BLOCK_SIZE && mmapAddr + mmapLength <= 0xffff_f000
    requires b.infoLo == info / 0x1000 && b.infoHi == PageAbove(info + INFO_BYTES)
    requires b.mmapLo == mmapAddr / 0x1000 && b.mmapHi == PageAbove(mmapAddr + mmapLength)
    requires b.kernelLo < 1024 && b.kernelLo <= b.kernelHi <= 0x4_0000
    ensures Checked(b)
  {
  }

  lemma BuffersMapped(m: seq<Word>, t: Tables, b: Boot)
    requires IsMemory(m) && Placed(t) && Checked(b)
    requires CurrentBlock(b.kernelLo, b.kernelHi) < 256 && DirectoryIs(m, t, 0, CurrentBlock(b.kernelLo, b.kernelHi))
    requires TablesAre(m, t, BootSlots(b))
    ensures Booted(m, t, b)
  {
  }

  /** One of the boot loader's buffers, if it starts in the first 4 MiB. */
  method MapBootBuffer(memory: array<Word>, pageTables: Word, addr: Word, length: Word,
                       ghost t: Tables, ghost c: Slots, ghost last: nat)
    returns (ok: bool)
    requires memory.Length == MEMORY_WORDS && Placed(t) && FramesValid(c) && last < 256
    requires pageTables == 0x1000 * t.base && (addr < BLOCK_SIZE ==> addr + length <= 0xffff_f000)
    requires DirectoryIs(memory[..], t, 0, last) && TablesAre(memory[..], t, c)
    modifies memory
    ensures ok <==> addr < BLOCK_SIZE
    ensures ok ==> PageAbove(addr + length) <= NUM_PAGES && DirectoryIs(memory[..], t, 0, last)
    ensures ok ==> TablesAre(memory[..], t, BufferSlots(c, addr / 0x1000, PageAbove(addr + length)))
  {
    var multibootPdIndex := PdIndex(Wrap(KERNEL_BASE + addr));
    HighBlock(addr);
    if multibootPdIndex != HIGH_INDEX {
      return false;
    }
    NoWrap(addr, length);
    MapBuffer(memory, pageTables, addr, Wrap(addr + length), t, c, last);
    return true;
  }

  /** The VGA page. */
  method MapVga(memory: array<Word>, pageTables: Word, ghost t: Tables, ghost c: Slots, ghost last: nat)
    requires memory.Length == MEMORY_WORDS && Placed(t) && FramesValid(c) && last < 256
    requires pageTables == 0x1000 * t.base
    requires DirectoryIs(memory[..], t, 0, last) && TablesAre(memory[..], t, c)
    modifies memory
    ensures DirectoryIs(memory[..], t, 0, last) && TablesAre(memory[..], t, c[VGA_FRAME := VGA_FRAME])
  {
    BufferSlot(TERM_BUFFER);
    PageAt(t.base);
    WriteSlot(memory[..], t, c, 0, VGA_FRAME, VGA_FRAME);
    MapPage(memory, Wrap(TERM_BUFFER + KERNEL_BASE), TERM_BUFFER, pageTables);
  }

  /** The VGA page and the boot loader's two buffers, once the kernel is mapped. */
  method MapBuffers(memory: array<Word>, pageTables: Word, info: Word, mmapAddr: Word, mmapLength: Word,
                    ghost t: Tables, ghost b: Boot)
    returns (ok: bool)
    requires memory.Length == MEMORY_WORDS && Placed(t) && pageTables == 0x1000 * t.base
    requires mmapAddr + mmapLength <= 0xffff_f000
    requires b.infoLo == info / 0x1000 && b.infoHi == PageAbove(info + INFO_BYTES)
    requires b.mmapLo == mmapAddr / 0x1000 && b.mmapHi == PageAbove(mmapAddr + mmapLength)
    requires b.kernelLo < 1024 && b.kernelLo <= b.kernelHi <= 0x4_0000 && CurrentBlock(b.kernelLo, b.kernelHi) < 256
    requires DirectoryIs(memory[..], t, 0, CurrentBlock(b.kernelLo, b.kernelHi))
    requires TablesAre(memory[..], t, KernelSlots(0, b.kernelLo, b.kernelHi))
    modifies memory
    ensures ok <==> info < BLOCK_SIZE && mmapAddr < BLOCK_SIZE
    ensures ok ==> Checked(b) && Booted(memory[..], t, b)
  {
    ghost var c := KernelSlots(0, b.kernelLo, b.kernelHi)[VGA_FRAME := VGA_FRAME];
    ghost var last := CurrentBlock(b.kernelLo, b.kernelHi);
    MapVga(memory, pageTables, t, KernelSlots(0, b.kernelLo, b.kernelHi), last);
    ok := MapBootBuffer(memory, pageTables, info, INFO_BYTES, t, c, last);
    if !ok {
      return;
    }
    c := BufferSlots(c, b.infoLo, b.infoHi);
    ok := MapBootBuffer(memory, pageTables, mmapAddr, mmapLength, t, c, last);
    if !ok {
      return;
    }
    BuffersChecked(b, info, mmapAddr, mmapLength);
    BuffersMapped(memory[..], t, b);
  }

  // ---- setup_paging ----

  /** Link-time addresses, all virtual. */
  datatype Image = Image(kernelStart: Word, kernelEnd: Word, initPageDir: Word, initPageTables: Word)

  ghost function TablesOf(image: Image): Tables {
    Tables(VirtToPhys(image.initPageDir) / 0x1000, VirtToPhys(image.initPageTables) / 0x1000)
  }

  /** The image as kernel.ld lays it out: the directory and the 1024 tables are in .bss,
      between _kernel_start and _kernel_end. */
  ghost predicate ValidImage(image: Image) {
    && KERNEL_BASE <= image.kernelStart <= image.kernelEnd
    && image.kernelStart <= image.initPageDir && image.initPageDir + 0x1000 <= image.kernelEnd
    && image.kernelStart <= image.initPageTables && image.initPageTables + 0x40_0000 <= image.kernelEnd
    && VirtToPhys(image.initPageDir) % 0x1000 == 0 && VirtToPhys(image.initPageTables) % 0x1000 == 0
    && Placed(TablesOf(image))
  }

  /** The kernel's addresses, physically: below 1 GiB, so nothing wraps. */
  lemma KernelExtent(image: Image)
    requires ValidImage(image)
    ensures
      var start, end := VirtToPhys(image.kernelStart), VirtToPhys(image.kernelEnd);
      && start <= end < 0x4000_0000
      && PdIndex(image.kernelStart) == HIGH_INDEX + start / 0x40_0000
  {
  }

  ghost function BootOf(image: Image, info: Word, mmapAddr: Word, mmapLength: Word): Boot {
    Boot(VirtToPhys(image.kernelStart) / 0x1000, PageAbove(VirtToPhys(image.kernelEnd)),
         info / 0x1000, PageAbove(info + INFO_BYTES),
         mmapAddr / 0x1000, PageAbove(mmapAddr + mmapLength))
  }

  /** With 4 MiB of page tables in it, the kernel ends beyond the first 4 MiB. */
  lemma ImageExtent(image: Image)
    requires ValidImage(image)
    ensures
      var t := TablesOf(image);
      var start, end := VirtToPhys(image.kernelStart), VirtToPhys(image.kernelEnd);
      && start <= 0x1000 * t.dir && 0x1000 * t.dir + 0x1000 <= end
      && start <= 0x1000 * t.base && 0x1000 * t.base + 0x40_0000 <= end
      && 1024 < PageAbove(end) <= 0x4_0000
  {
    KernelExtent(image);
    assert VirtToPhys(image.initPageDir) == image.initPageDir - KERNEL_BASE;
    assert VirtToPhys(image.initPageTables) == image.initPageTables - KERNEL_BASE;
  }

  /** So clear_ident_map, whichever entry it clears, always leaves part of the kernel mapped
      below KERNEL_BASE: every page from 4 MiB up to its end. */
  lemma IdentityRemains(m: seq<Word>, image: Image, info: Word, mmapAddr: Word, mmapLength: Word)
    requires IsMemory(m) && ValidImage(image) && ChecksPass(image, info, mmapAddr)
    requires Checked(BootOf(image, info, mmapAddr, mmapLength))
    requires Booted(m, TablesOf(image), BootOf(image, info, mmapAddr, mmapLength))
    ensures
      var t := TablesOf(image);
      var cleared := Clear(m, t, PdIndex(VirtToPhys(image.kernelStart)));
      var hi := PageAbove(VirtToPhys(image.kernelEnd));
      1024 < hi && forall p :: 1024 <= p < hi ==> Walk(cleared, t.dir, p) == Some(p)
  {
    ImageExtent(image);
    VgaCheck(image);
    IdentityLeft(m, TablesOf(image), BootOf(image, info, mmapAddr, mmapLength));
  }

  lemma VgaCheck(image: Image)
    requires ValidImage(image)
    ensures PdIndex(Wrap(TERM_BUFFER + KERNEL_BASE)) == HIGH_INDEX
    ensures PdIndex(image.kernelStart) == HIGH_INDEX <==> VirtToPhys(image.kernelStart) < BLOCK_SIZE
    ensures VirtToPhys(image.kernelStart) < BLOCK_SIZE ==> VirtToPhys(image.kernelStart) / 0x1000 / 1024 == 0
  {
    KernelExtent(image);
  }

  /** What the checks of setup_paging compare. */
  predicate ChecksPass(image: Image, info: Word, mmapAddr: Word) {
    VirtToPhys(image.kernelStart) < BLOCK_SIZE && info < BLOCK_SIZE && mmapAddr < BLOCK_SIZE
  }

  /** KERNEL_BASE + addr is in the first high-half block only for addr below 4 MiB. */
  lemma HighBlock(addr: Word)
    ensures PdIndex(Wrap(KERNEL_BASE + addr)) == HIGH_INDEX <==> addr < BLOCK_SIZE
  {
  }

  /** Sets up the identity and the high-half mapping. The checks of the source halt the
      machine; `ok` says that none of them failed. */
  method SetupPaging(memory: array<Word>, image: Image, info: Word, mmapAddr: Word, mmapLength: Word) returns (ok: bool)
    requires memory.Length == MEMORY_WORDS && ValidImage(image)
    requires AllZero(memory[..], TablesOf(image))
    requires mmapAddr + mmapLength <= 0xffff_f000
    modifies memory
    ensures ok <==> ChecksPass(image, info, mmapAddr)
    ensures ok ==> Checked(BootOf(image, info, mmapAddr, mmapLength))
    ensures ok ==> Booted(memory[..], TablesOf(image), BootOf(image, info, mmapAddr, mmapLength))
  {
    KernelExtent(image);
    ghost var t := TablesOf(image);
    var pInitPageDir := VirtToPhys(image.initPageDir);
    var pInitPageTables := VirtToPhys(image.initPageTables);
    MapKernel(memory, pInitPageDir, pInitPageTables, VirtToPhys(image.kernelStart), VirtToPhys(image.kernelEnd), t);
    var highhalfPdIndex := PdIndex(image.kernelStart);

    VgaCheck(image);
    var vgaPdIndex := PdIndex(Wrap(TERM_BUFFER + KERNEL_BASE));
    if vgaPdIndex != highhalfPdIndex {
      return false;
    }
    ghost var b := BootOf(image, info, mmapAddr, mmapLength);
    ok := MapBuffers(memory, pInitPageTables, info, mmapAddr, mmapLength, t, b);
  }
}
