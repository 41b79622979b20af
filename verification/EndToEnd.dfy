/** Boot to malloc: the page tables, the page bitmap and the heap put together, as
    bootstrap.s and kernel_early_main do, and what every later sequence of allocations may
    count on in physical memory. */
module EndToEnd {
  import opened Kernel
  import opened Multiboot
  import opened Paging
  import opened PreKernel
  import opened BootPaging
  import opened HeapSpec
  import opened HeapPages
  import opened PhysSpec
  import opened PhysTheorems
  import opened AddressSpace
  import opened BlockList
  import PM = PhysMem
  import VM = VirtMem
  import HA = HeapAllocators

  /** The frames of the directory and of all the tables are marked. */
  ghost predicate TablesMarked(t: Tables, marked: set<nat>) {
    t.dir in marked && forall f :: t.base <= f < t.base + 1024 ==> f in marked
  }

  /** A heap set up: its geometry, its chunks, and the page tables that map them. marked0
      are the pages marked before the heap took any, the tables' own among them. */
  ghost predicate HeapReady(m: seq<Word>, t: Tables, g: Geometry, marked0: set<nat>, marked: set<nat>,
                            chunks: seq<nat>)
  {
    && DirectoryInvariant(m, t) && TablesMarked(t, marked0)
    && Laid(g) && g == HA.HeapShape(g.heap, g.header) && g.heap % 0x40_0000 == 0
    && HIGH_PAGE <= g.heap / 0x1000 && g.heap + 0x40_0000 <= WORD_LIMIT
    && |chunks| == 32 && ChunksTaken(marked0, marked, chunks)
    && MapsTo(m, t, g.heap / 0x1000, ChunkFrames(chunks))
    && Loaded(m, t, g.heap / 0x1000 / 1024) && Unshared(m, t, g.heap / 0x1000 / 1024)
  }

  /** The heap page that holds address a. */
  lemma HeapPageOf(heap: nat, a: Word)
    requires heap % 0x40_0000 == 0 && heap <= a < heap + 0x40_0000
    ensures heap / 0x1000 <= a / 0x1000 < heap / 0x1000 + 1024
  {
    assert heap == 0x40_0000 * (heap / 0x40_0000);
    assert heap / 0x1000 == 1024 * (heap / 0x40_0000);
  }

  /** A byte of the heap translates to its place in its chunk, on a page that was unmarked. */
  lemma HeapByte(m: seq<Word>, t: Tables, g: Geometry, marked0: set<nat>, marked: set<nat>, chunks: seq<nat>, a: Word)
    requires HeapReady(m, t, g, marked0, marked, chunks)
    requires g.heap <= a < g.heap + 0x40_0000
    ensures
      var q := a / 0x1000 - g.heap / 0x1000;
      && 0 <= q < 1024
      && Translate(m, t.dir, a) == Some(0x1000 * ChunkFrames(chunks)[q] + a % 0x1000)
      && ChunkFrames(chunks)[q] !in marked0
  {
    HeapPageOf(g.heap, a);
    var q := a / 0x1000 - g.heap / 0x1000;
    FrameInChunk(marked0, marked, chunks, q);
    assert g.heap / 0x1000 + q == a / 0x1000;
    assert Walk(m, t.dir, g.heap / 0x1000 + q) == Some(ChunkFrames(chunks)[q]);
  }

  /** Different heap bytes are different physical bytes. */
  lemma HeapBytesDiffer(m: seq<Word>, t: Tables, g: Geometry, marked0: set<nat>, marked: set<nat>, chunks: seq<nat>,
                        a: Word, b: Word)
    requires HeapReady(m, t, g, marked0, marked, chunks)
    requires g.heap <= a < g.heap + 0x40_0000 && g.heap <= b < g.heap + 0x40_0000 && a != b
    ensures Translate(m, t.dir, a) != Translate(m, t.dir, b)
  {
    HeapByte(m, t, g, marked0, marked, chunks, a);
    HeapByte(m, t, g, marked0, marked, chunks, b);
    var q, r := a / 0x1000 - g.heap / 0x1000, b / 0x1000 - g.heap / 0x1000;
    if q < r {
      FramesDistinct(marked0, marked, chunks, q, r);
    } else if r < q {
      FramesDistinct(marked0, marked, chunks, r, q);
    }
  }

  /** Every byte malloc gives out, in any run, is backed by memory that nothing had marked:
      not the kernel image, not the VGA buffer, not unavailable memory. */
  lemma MallocIsBacked(m: seq<Word>, t: Tables, g: Geometry, marked0: set<nat>, marked: set<nat>, chunks: seq<nat>,
                       sizes: seq<nat>, i: nat, a: Word)
    requires HeapReady(m, t, g, marked0, marked, chunks)
    requires i < |sizes| && Given(g, UNUSED, sizes, i, a)
    ensures Translate(m, t.dir, a).Some? && Translate(m, t.dir, a).value / 0x1000 !in marked0
  {
    RunInside(g, UNUSED, sizes, i, a);
    HeapByte(m, t, g, marked0, marked, chunks, a);
  }

  /** And no physical byte is given out twice. */
  lemma MallocIsDisjoint(m: seq<Word>, t: Tables, g: Geometry, marked0: set<nat>, marked: set<nat>, chunks: seq<nat>,
                         sizes: seq<nat>, i: nat, j: nat, a: Word, b: Word)
    requires HeapReady(m, t, g, marked0, marked, chunks)
    requires i < j < |sizes|
    requires Given(g, UNUSED, sizes, i, a) && Given(g, UNUSED, sizes, j, b)
    ensures Translate(m, t.dir, a) != Translate(m, t.dir, b)
  {
    RunInside(g, UNUSED, sizes, i, a);
    RunInside(g, UNUSED, sizes, j, b);
    if a == b {
      RunDisjoint(g, UNUSED, sizes, i, j, a);
    }
    HeapBytesDiffer(m, t, g, marked0, marked, chunks, a, b);
  }

  /** A store to the heap never reaches the page tables: it goes to a frame that was not
      marked, and theirs were. So it changes no translation. */
  lemma HeapStoreKeepsTranslation(m: seq<Word>, t: Tables, g: Geometry, marked0: set<nat>, marked: set<nat>,
                                  chunks: seq<nat>, a: Word, w: Word)
    requires HeapReady(m, t, g, marked0, marked, chunks)
    requires g.heap <= a < g.heap + 0x40_0000 && a % 4 == 0
    ensures
      var pa := Translate(m, t.dir, a);
      && pa.Some?
      && (forall p :: 0 <= p < NUM_PAGES ==> Walk(m[pa.value / 4 := w], t.dir, p) == Walk(m, t.dir, p))
      && HeapReady(m[pa.value / 4 := w], t, g, marked0, marked, chunks)
  {
    var f, j := HeapWord(m, t, g, marked0, marked, chunks, a);
    assert m[Translate(m, t.dir, a).value / 4 := w] == Set(m, f, j, w);
    StoreElsewhere(m, t, g, marked0, marked, chunks, f, j, w);
  }

  /** The physical word behind a heap address. */
  lemma HeapWord(m: seq<Word>, t: Tables, g: Geometry, marked0: set<nat>, marked: set<nat>, chunks: seq<nat>, a: Word)
    returns (f: nat, j: nat)
    requires HeapReady(m, t, g, marked0, marked, chunks)
    requires g.heap <= a < g.heap + 0x40_0000 && a % 4 == 0
    ensures f < NUM_PAGES && j < 1024 && f !in marked0
    ensures Translate(m, t.dir, a).Some? && Translate(m, t.dir, a).value / 4 == 1024 * f + j
  {
    HeapByte(m, t, g, marked0, marked, chunks, a);
    f, j := ChunkFrames(chunks)[a / 0x1000 - g.heap / 0x1000], a % 0x1000 / 4;
    FrameInChunk(marked0, marked, chunks, a / 0x1000 - g.heap / 0x1000);
    WordIndex(f, a);
  }

  /** A store to any frame that was not marked. */
  lemma StoreElsewhere(m: seq<Word>, t: Tables, g: Geometry, marked0: set<nat>, marked: set<nat>, chunks: seq<nat>,
                       f: nat, j: nat, w: Word)
    requires HeapReady(m, t, g, marked0, marked, chunks)
    requires f < NUM_PAGES && j < 1024 && f !in marked0
    ensures
      var m' := Set(m, f, j, w);
      && (forall p :: 0 <= p < NUM_PAGES ==> Walk(m', t.dir, p) == Walk(m, t.dir, p))
      && HeapReady(m', t, g, marked0, marked, chunks)
  {
    ForeignWrite(m, t, f, j, w);
    SameHeap(m, Set(m, f, j, w), t, g, marked0, marked, chunks);
  }

  lemma WordIndex(f: nat, a: Word)
    requires a % 4 == 0
    ensures (0x1000 * f + a % 0x1000) / 4 == 1024 * f + a % 0x1000 / 4
  {
  }

  /** The heap depends on the directory and the translation of its pages alone. */
  lemma SameHeap(m: seq<Word>, m': seq<Word>, t: Tables, g: Geometry, marked0: set<nat>, marked: set<nat>,
                 chunks: seq<nat>)
    requires HeapReady(m, t, g, marked0, marked, chunks) && DirectoryInvariant(m', t)
    requires forall i :: 0 <= i < 1024 ==> Pde(m', t, i) == Pde(m, t, i)
    requires forall p :: HIGH_PAGE <= p < NUM_PAGES ==> Walk(m', t.dir, p) == Walk(m, t.dir, p)
    ensures HeapReady(m', t, g, marked0, marked, chunks)
  {
    var hp := g.heap / 0x1000;
    var i := hp / 1024;
    assert Pde(m', t, i) == Pde(m, t, i);
    forall e | 0 <= e < HIGH_INDEX ensures !Shares(m', t, e, i) {
      assert Pde(m', t, e) == Pde(m, t, e) && !Shares(m, t, e, i);
    }
    forall q | 0 <= q < 1024 ensures Walk(m', t.dir, hp + q) == Some(ChunkFrames(chunks)[q]) {
      assert Walk(m, t.dir, hp + q) == Some(ChunkFrames(chunks)[q]);
    }
  }

  /** The bootloader's memory map, as the kernel finds it: bytes readable by virtual address,
      well formed wherever setup_paging lets the kernel look for it. */
  ghost predicate MapReadable(bytes: seq<Byte>, mmapAddr: Word, mmapLength: Word) {
    && mmapAddr + mmapLength <= 0xffff_f000
    && (mmapAddr < BLOCK_SIZE ==>
          && KERNEL_BASE + mmapAddr + mmapLength < WORD_LIMIT
          && WellFormed(bytes, KERNEL_BASE + mmapAddr, KERNEL_BASE + mmapAddr + mmapLength))
  }

  /** The pages that may never be handed out. */
  ghost predicate Reserved(bytes: seq<Byte>, mmapAddr: Word, mmapLength: Word, image: Image, n: nat)
    requires ValidImage(image) && MapReadable(bytes, mmapAddr, mmapLength) && mmapAddr < BLOCK_SIZE
  {
    var at := KERNEL_BASE + mmapAddr;
    PM.Unavailable(Entries(bytes, at, at + mmapLength), image.kernelStart, image.kernelEnd, n)
  }

  ghost function ReservedPages(bytes: seq<Byte>, mmapAddr: Word, mmapLength: Word, image: Image): (pages: set<nat>)
    requires ValidImage(image) && MapReadable(bytes, mmapAddr, mmapLength) && mmapAddr < BLOCK_SIZE
    ensures forall n: nat :: n in pages <==> n < NUM_PAGES && Reserved(bytes, mmapAddr, mmapLength, image, n)
  {
    var ids := Upto(NUM_PAGES);
    set n | n in ids && Reserved(bytes, mmapAddr, mmapLength, image, n)
  }

  lemma MarkedIsReserved(bytes: seq<Byte>, mmapAddr: Word, mmapLength: Word, image: Image, marked: set<nat>)
    requires ValidImage(image) && MapReadable(bytes, mmapAddr, mmapLength) && mmapAddr < BLOCK_SIZE
    requires forall n: nat :: n in marked <==> n < NUM_PAGES && Reserved(bytes, mmapAddr, mmapLength, image, n)
    ensures marked == ReservedPages(bytes, mmapAddr, mmapLength, image)
  {
  }

  /** The directory and the page tables are part of the kernel image, so all their frames
      are reserved. */
  lemma TablesReserved(bytes: seq<Byte>, mmapAddr: Word, mmapLength: Word, image: Image)
    requires ValidImage(image) && MapReadable(bytes, mmapAddr, mmapLength) && mmapAddr < BLOCK_SIZE
    ensures TablesMarked(TablesOf(image), ReservedPages(bytes, mmapAddr, mmapLength, image))
  {
    ImageExtent(image);
    var t := TablesOf(image);
    FrameReserved(bytes, mmapAddr, mmapLength, image, t.dir);
    forall f | t.base <= f < t.base + 1024 ensures f in ReservedPages(bytes, mmapAddr, mmapLength, image) {
      FrameReserved(bytes, mmapAddr, mmapLength, image, f);
    }
  }

  lemma FrameReserved(bytes: seq<Byte>, mmapAddr: Word, mmapLength: Word, image: Image, f: nat)
    requires ValidImage(image) && MapReadable(bytes, mmapAddr, mmapLength) && mmapAddr < BLOCK_SIZE
    requires f < NUM_PAGES && VirtToPhys(image.kernelStart) <= 0x1000 * f < VirtToPhys(image.kernelEnd)
    ensures f in ReservedPages(bytes, mmapAddr, mmapLength, image)
  {
    KernelExtent(image);
    assert Covers(PM.KernelEntry(image.kernelStart, image.kernelEnd), f);
  }

  /** What boot needs: a memory map, the boot loader's structures where setup_paging accepts
      them, a kernel that does not fill the high half to its last page, and 32 groups of 32
      free pages for the heap. */
  ghost predicate CanBoot(bytes: seq<Byte>, image: Image, info: Word, hasMemMap: bool, mmapAddr: Word, mmapLength: Word)
    requires ValidImage(image) && MapReadable(bytes, mmapAddr, mmapLength)
  {
    && hasMemMap && ChecksPass(image, info, mmapAddr)
    && PageAbove(VirtToPhys(image.kernelEnd)) < 0x4_0000
    && 32 <= ChunkCount(ReservedPages(bytes, mmapAddr, mmapLength, image))
  }

  /** Where the map is once paging is on. */
  lemma MapAddress(bytes: seq<Byte>, mmapAddr: Word, mmapLength: Word)
    requires MapReadable(bytes, mmapAddr, mmapLength) && mmapAddr < BLOCK_SIZE
    ensures Wrap(mmapAddr + KERNEL_BASE) == KERNEL_BASE + mmapAddr
  {
  }

  /** init_paging in bootstrap.s. */
  method BuildTables(virt: VM.VirtMemAllocator, image: Image, info: Word, mmapAddr: Word, mmapLength: Word)
    returns (ok: bool)
    requires virt.memory.Length == MEMORY_WORDS && mmapAddr + mmapLength <= 0xffff_f000
    requires ValidImage(image) && AllZero(virt.memory[..], TablesOf(image))
    modifies virt.memory
    ensures ok <==> ChecksPass(image, info, mmapAddr)
    ensures ok ==> Checked(BootOf(image, info, mmapAddr, mmapLength))
    ensures ok ==> Booted(virt.memory[..], TablesOf(image), BootOf(image, info, mmapAddr, mmapLength))
    ensures ok ==> DirectoryInvariant(virt.memory[..], TablesOf(image))
  {
    ok := SetupPaging(virt.memory, image, info, mmapAddr, mmapLength);
    if ok {
      BootInvariant(virt.memory[..], TablesOf(image), BootOf(image, info, mmapAddr, mmapLength));
    }
  }

  /** init_paging in bootstrap.s, then kernel_early_main up to the heap. `ok` is false when
      the machine halts or the boot loader gave no memory map. */
  method EarlyMemory(phys: PM.PhysMemAllocator, virt: VM.VirtMemAllocator, image: Image,
                     bytes: seq<Byte>, info: Word, hasMemMap: bool, mmapAddr: Word, mmapLength: Word)
    returns (ok: bool)
    requires phys.Valid() && virt.memory.Length == MEMORY_WORDS && virt.kernelStart == image.kernelStart
    requires ValidImage(image) && AllZero(virt.memory[..], TablesOf(image))
    requires MapReadable(bytes, mmapAddr, mmapLength)
    modifies phys.memBitmap, virt, virt.memory
    ensures phys.Valid()
    ensures ok <==> hasMemMap && ChecksPass(image, info, mmapAddr)
    ensures ok ==> virt.Consistent() && virt.Layout() == TablesOf(image)
    ensures ok ==> Checked(BootOf(image, info, mmapAddr, mmapLength))
    ensures ok ==> Booted(virt.memory[..], TablesOf(image), BootOf(image, info, mmapAddr, mmapLength))
    ensures ok ==> phys.View().marked == ReservedPages(bytes, mmapAddr, mmapLength, image)
  {
    ok := BuildTables(virt, image, info, mmapAddr, mmapLength);
    if !ok || !hasMemMap {
      return false;
    }
    ghost var m := virt.memory[..];
    MapAddress(bytes, mmapAddr, mmapLength);
    phys.InitMmap(bytes, mmapLength, Wrap(mmapAddr + KERNEL_BASE), image.kernelStart, image.kernelEnd);
    MarkedIsReserved(bytes, mmapAddr, mmapLength, image, phys.View().marked);
    virt.InitPageDir(image.initPageDir, image.initPageTables);
    assert virt.memory[..] == m;
  }

  /** The heap finds a block unless the kernel's own blocks fill the high half; and even
      then there is a free page, unless its pages do. */
  lemma RoomForHeap(m: seq<Word>, t: Tables, b: Boot)
    requires IsMemory(m) && Placed(t) && Checked(b) && Booted(m, t, b) && 1024 < b.kernelHi
    ensures HA.NoAbsentBlock(m, t, HIGH_PAGE + b.kernelLo) <==> LastBlock(b) == 255
    ensures VM.AllMapped(m, t, HIGH_PAGE + b.kernelLo, NUM_PAGES) <==> b.kernelHi == 0x4_0000
  {
    forall k | VM.FirstBlock(HIGH_PAGE + b.kernelLo) <= k < 1024
      ensures Loaded(m, t, k) <==> k <= HIGH_INDEX + LastBlock(b)
    {
      assert Pde(m, t, k) == BootEntry(t, 0, LastBlock(b), k);
    }
    if LastBlock(b) < 255 {
      assert !Loaded(m, t, 1023);
    }
    AllMappedIff(m, t, b);
  }

  /** And the block it finds is the one after the kernel's last. */
  lemma BlockFound(m: seq<Word>, t: Tables, b: Boot, i: nat)
    requires IsMemory(m) && Placed(t) && Checked(b) && Booted(m, t, b) && 1024 < b.kernelHi
    requires HA.FirstAbsent(m, t, HIGH_PAGE + b.kernelLo, i)
    ensures i == HIGH_INDEX + LastBlock(b) + 1
  {
    var last := HIGH_INDEX + LastBlock(b);
    assert Pde(m, t, i) == BootEntry(t, 0, LastBlock(b), i);
    if last + 1 < 1024 {
      assert Pde(m, t, last + 1) == BootEntry(t, 0, LastBlock(b), last + 1);
      assert !Loaded(m, t, last + 1);
    }
  }

  lemma HeapIsReady(m0: seq<Word>, m: seq<Word>, t: Tables, g: Geometry, marked0: set<nat>, marked: set<nat>,
                    chunks: seq<nat>)
    requires Laid(g) && g == HA.HeapShape(g.heap, g.header) && g.heap % 0x40_0000 == 0 && g.heap < WORD_LIMIT
    requires |chunks| == 32 && ChunksTaken(marked0, marked, chunks) && TablesMarked(t, marked0)
    requires HeapMapped(m0, m, t, g.heap / 0x1000, ChunkFrames(chunks))
    ensures HeapReady(m, t, g, marked0, marked, chunks)
  {
    HA.BlockFits(g.heap);
  }

  /** kernel_early_main from the heap on. */
  method HeapStage(phys: PM.PhysMemAllocator, virt: VM.VirtMemAllocator, heap: HA.HeapAllocator)
    returns (ok: bool, ghost chunks: seq<nat>)
    requires phys.Valid() && virt.Consistent() && TablesMarked(virt.Layout(), phys.View().marked)
    requires heap.Sized() && heap.SlabsHold(0, 0, 0) && heap.physHeapChunks != virt.memory
    modifies phys`lastAlloc, phys.memBitmap, virt.memory, heap, heap.physHeapChunks
    ensures heap.heap % 0x40_0000 == 0
    ensures heap.heap == 0 <==> HA.NoAbsentBlock(old(virt.memory[..]), virt.Layout(), virt.FirstPage())
    ensures heap.heap != 0 ==>
              HA.FirstAbsent(old(virt.memory[..]), virt.Layout(), virt.FirstPage(), heap.heap / 0x40_0000)
    ensures ok <==> 32 <= ChunkCount(old(phys.View().marked))
                    && !heap.NowhereToMap(virt, old(virt.memory[..]))
    ensures ok && heap.heap != 0 ==>
              && phys.Valid() && heap.Unused()
              && HeapReady(virt.memory[..], virt.Layout(), heap.Shape(), old(phys.View().marked), phys.View().marked,
                           chunks)
  {
    ghost var m, marked0 := virt.memory[..], phys.View().marked;
    ok, chunks := heap.InitHeapPages(phys, virt);
    if ok && heap.heap != 0 {
      HeapIsReady(m, virt.memory[..], virt.Layout(), heap.Shape(), marked0, phys.View().marked, chunks);
    }
  }

  /** The first page the kernel may map, from its image. */
  lemma FirstPageOf(image: Image)
    requires ValidImage(image)
    ensures image.kernelStart / 0x1000 == HIGH_PAGE + VirtToPhys(image.kernelStart) / 0x1000
  {
  }

  /** The first multiple of 4 MiB from the kernel's end on, or null if that is 4 GiB. */
  function FirstBlockAfter(kernelEnd: Word): Word {
    Wrap((kernelEnd + 0x3f_ffff) / 0x40_0000 * 0x40_0000)
  }

  /** Where the heap is put, and when there is not even a free page for it. */
  lemma PlaceOfHeap(m: seq<Word>, image: Image, info: Word, mmapAddr: Word, mmapLength: Word, heap: Word)
    requires IsMemory(m) && ValidImage(image) && Checked(BootOf(image, info, mmapAddr, mmapLength))
    requires Booted(m, TablesOf(image), BootOf(image, info, mmapAddr, mmapLength)) && heap % 0x40_0000 == 0
    requires image.kernelStart / 0x1000 == HIGH_PAGE + VirtToPhys(image.kernelStart) / 0x1000
    requires heap == 0 <==> HA.NoAbsentBlock(m, TablesOf(image), image.kernelStart / 0x1000)
    requires heap != 0 ==> HA.FirstAbsent(m, TablesOf(image), image.kernelStart / 0x1000, heap / 0x40_0000)
    ensures heap == FirstBlockAfter(image.kernelEnd)
    ensures heap == 0 && VM.AllMapped(m, TablesOf(image), image.kernelStart / 0x1000, NUM_PAGES) <==>
            PageAbove(VirtToPhys(image.kernelEnd)) == 0x4_0000
  {
    var b := BootOf(image, info, mmapAddr, mmapLength);
    ImageExtent(image);
    RoomForHeap(m, TablesOf(image), b);
    if heap != 0 {
      BlockFound(m, TablesOf(image), b, heap / 0x40_0000);
    }
    BlockAfterKernel(image, heap, LastBlock(b));
  }

  lemma BlockAfterKernel(image: Image, heap: Word, last: nat)
    requires ValidImage(image) && heap % 0x40_0000 == 0 && last == (PageAbove(VirtToPhys(image.kernelEnd)) - 1) / 1024
    requires if heap == 0 then last == 255 else heap / 0x40_0000 == HIGH_INDEX + last + 1
    ensures heap == FirstBlockAfter(image.kernelEnd)
  {
    ImageExtent(image);
    var end := VirtToPhys(image.kernelEnd);
    BlockAbove(end);
    HighBlockAbove(image.kernelEnd, end);
    assert heap == Wrap(0x40_0000 * (768 + last + 1));
  }

  lemma HighBlockAbove(kernelEnd: Word, end: nat)
    requires kernelEnd == 0xc000_0000 + end
    ensures (kernelEnd + 0x3f_ffff) / 0x40_0000 == 768 + (end + 0x3f_ffff) / 0x40_0000
  {
  }

  lemma BlockAbove(end: nat)
    requires end > 0
    ensures (end + 0x3f_ffff) / 0x40_0000 == (PageAbove(end) - 1) / 1024 + 1
  {
    assert PageAbove(end) - 1 == (end - 1) / 0x1000;
    assert (end + 0x3f_ffff) / 0x40_0000 == (end - 1) / 0x40_0000 + 1;
    assert (end - 1) / 0x1000 / 1024 == (end - 1) / 0x40_0000;
  }

  /** All of early boot: the page tables, the bitmap, the heap. `ok` is false when the
      machine halts or an assertion fails. Once boot is done the heap is ready, if it found a
      block, and the pages marked before it took any are the reserved ones. */
  method Boot(phys: PM.PhysMemAllocator, virt: VM.VirtMemAllocator, heap: HA.HeapAllocator, image: Image,
              bytes: seq<Byte>, info: Word, hasMemMap: bool, mmapAddr: Word, mmapLength: Word)
    returns (ok: bool, ghost chunks: seq<nat>)
    requires phys.Valid() && virt.memory.Length == MEMORY_WORDS && virt.kernelStart == image.kernelStart
    requires heap.Sized() && heap.SlabsHold(0, 0, 0) && heap.physHeapChunks != virt.memory
    requires ValidImage(image) && AllZero(virt.memory[..], TablesOf(image))
    requires MapReadable(bytes, mmapAddr, mmapLength)
    modifies phys`lastAlloc, phys.memBitmap, virt, virt.memory, heap, heap.physHeapChunks
    ensures ok <==> CanBoot(bytes, image, info, hasMemMap, mmapAddr, mmapLength)
    ensures ok ==> heap.heap == FirstBlockAfter(image.kernelEnd)
    ensures ok && heap.heap != 0 ==>
              && phys.Valid() && heap.Unused() && virt.Valid() && virt.Layout() == TablesOf(image)
              && HeapReady(virt.memory[..], TablesOf(image), heap.Shape(),
                           ReservedPages(bytes, mmapAddr, mmapLength, image), phys.View().marked, chunks)
  {
    chunks := [];
    ok := EarlyMemory(phys, virt, image, bytes, info, hasMemMap, mmapAddr, mmapLength);
    if ok {
      TablesReserved(bytes, mmapAddr, mmapLength, image);
      FirstPageOf(image);
      ghost var m := virt.memory[..];
      ok, chunks := HeapStage(phys, virt, heap);
      PlaceOfHeap(m, image, info, mmapAddr, mmapLength, heap.heap);
      ImageExtent(image);
    }
  }
}
