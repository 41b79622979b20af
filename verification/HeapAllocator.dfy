/** heap_allocator.cpp: three bitmap slabs and a first-fit list of in-place headers. */
module HeapAllocators {
  import opened Kernel
  import opened Bitmap
  import opened HeapSpec
  import opened BlockList
  import opened HeapPages
  import opened PhysTheorems
  import PhysSpec
  import Paging
  import opened AddressSpace
  import PM = PhysMem
  import VM = VirtMem

  /** A slab bitmap in which exactly the first n cells are taken. */
  ghost predicate Prefix(bm: seq<bv8>, n: nat) {
    n <= 8 * |bm| && forall k :: 0 <= k < 8 * |bm| ==> (Marked(bm, k) <==> k < n)
  }

  /** Page n from a page-aligned address, while it stays below 4 GiB. */
  lemma PageFrom(addr: Word, n: nat)
    requires addr % 0x1000 == 0 && addr + 0x1000 * n < WORD_LIMIT
    ensures Wrap(addr + n * PAGE_SIZE) == 0x1000 * (addr / 0x1000 + n)
    ensures Wrap(addr + n * PAGE_SIZE) % 0x1000 == 0
    ensures Wrap(addr + n * PAGE_SIZE) / 0x1000 == addr / 0x1000 + n < NUM_PAGES
  {
    assert addr == 0x1000 * (addr / 0x1000);
  }

  /** The heap's geometry: an arena of 29 pages at the start of the block, and the slabs in
      its last three chunks. */
  function HeapShape(heap: nat, header: nat): Geometry {
    Geometry(heap, 0x1_d000, heap + 29 * CHUNK_BYTES, heap + 30 * CHUNK_BYTES, heap + 31 * CHUNK_BYTES, header)
  }

  lemma ShapeLaid(heap: Word, header: nat)
    requires heap % 0x40_0000 == 0 && 0 < header <= BLOCK_ALIGN
    ensures heap != 0 ==> Laid(HeapShape(heap, header))
    ensures Wrap(heap + (CHUNK_PAGES * 29 + 0) * PAGE_SIZE) == heap + 29 * CHUNK_BYTES
    ensures Wrap(heap + (CHUNK_PAGES * 30 + 0) * PAGE_SIZE) == heap + 30 * CHUNK_BYTES
    ensures Wrap(heap + (CHUNK_PAGES * 31 + 0) * PAGE_SIZE) == heap + 31 * CHUNK_BYTES
  {
    BlockFits(heap);
  }

  /** reserve_block has nothing to give. */
  ghost predicate NoAbsentBlock(m: seq<Word>, t: Paging.Tables, first: nat)
    requires Paging.IsMemory(m) && Paging.Placed(t) && Paging.HIGH_PAGE <= first < NUM_PAGES
  {
    forall k :: VM.FirstBlock(first) <= k < 1024 ==> Paging.Loaded(m, t, k)
  }

  /** Block i is the first that is absent. */
  ghost predicate FirstAbsent(m: seq<Word>, t: Paging.Tables, first: nat, i: nat)
    requires Paging.IsMemory(m) && Paging.Placed(t) && Paging.HIGH_PAGE <= first < NUM_PAGES
  {
    VM.FirstBlock(first) <= i < 1024 && !Paging.Loaded(m, t, i)
    && forall k :: VM.FirstBlock(first) <= k < i ==> Paging.Loaded(m, t, k)
  }

  lemma ReservedBlock(m0: seq<Word>, m: seq<Word>, t: Paging.Tables, first: nat, page: Word)
    requires Paging.DirectoryInvariant(m0, t) && Paging.HIGH_PAGE <= first < NUM_PAGES
    requires VM.ReserveResult(m0, m, t, VM.FirstBlock(first), page)
    ensures page % 0x40_0000 == 0 && (page == 0 <==> NoAbsentBlock(m0, t, first))
    ensures page != 0 ==> HeapMapped(m0, m, t, page / 0x1000, []) && FirstAbsent(m0, t, first, page / 0x40_0000)
  {
    if page != 0 {
      BlockReserved(m0, m, t, first, page);
    }
  }

  /** A heap of 4 MiB, aligned to its size, ends by 4 GiB. */
  lemma BlockFits(heap: Word)
    requires heap % 0x40_0000 == 0
    ensures heap % 0x1000 == 0 && heap + 0x40_0000 <= WORD_LIMIT
  {
  }

  /** Where page n of the heap and page j of a chunk are. */
  lemma HeapPageAt(heap: Word, n: nat, chunk: Word, j: nat)
    requires heap % 0x40_0000 == 0 && n < 1024 && j < 32
    requires chunk % 0x1000 == 0 && chunk + 0x2_0000 <= WORD_LIMIT
    ensures Wrap(heap + n * PAGE_SIZE) == 0x1000 * (heap / 0x1000 + n) && Wrap(heap + n * PAGE_SIZE) % 0x1000 == 0
    ensures Wrap(chunk + j * PAGE_SIZE) % 0x1000 == 0
    ensures Wrap(chunk + j * PAGE_SIZE) / 0x1000 == chunk / 0x1000 + j < NUM_PAGES
  {
    BlockFits(heap);
    PageFrom(heap, n);
    PageFrom(chunk, j);
  }

  /** What one call of map_page does for the heap. */
  lemma HeapPageMapped(m0: seq<Word>, m: seq<Word>, m': seq<Word>, t: Paging.Tables, first: nat, heap: Word,
                       frames: seq<nat>, f: nat, virtPage: Word, res: Word)
    requires Paging.DirectoryInvariant(m, t) && Paging.HIGH_PAGE <= first < NUM_PAGES && f < NUM_PAGES
    requires heap % 0x40_0000 == 0 && |frames| < 1024 && virtPage == 0x1000 * (heap / 0x1000 + |frames|)
    requires heap != 0 ==> HeapMapped(m0, m, t, heap / 0x1000, frames)
    requires VM.MapResult(m, m', t, first, virtPage, f, res)
    ensures heap != 0 ==> HeapMapped(m0, m', t, heap / 0x1000, frames + [f])
    ensures res == 0 <==> |frames| == 0 && heap == 0 && VM.AllMapped(m, t, first, NUM_PAGES)
  {
    MapPageNull(m, m', t, first, virtPage, f, res);
    if heap != 0 {
      NextPageMapped(m0, m, m', t, first, heap / 0x1000, frames, f, virtPage, res);
    }
  }

  /** The arithmetic of one first-fit test on a free node of `free` bytes: it fits exactly
      when its cost does, and rounding the rest down leaves the cost. */
  lemma Leftover(g: Geometry, free: Word, size: Word)
    requires 0 < g.header <= BLOCK_ALIGN && 0 < free && free % BLOCK_ALIGN == 0
    ensures Wrap(free - g.header) == free - g.header
    ensures free - g.header >= size <==> Cost(g, size) <= free
    ensures free - g.header >= size ==>
              var rest := Wrap(Wrap(free - g.header) - size);
              rest - rest % BLOCK_ALIGN == free - Cost(g, size)
  {
    RoundedUp(g.header + size, free / BLOCK_ALIGN);
    assert free == BLOCK_ALIGN * (free / BLOCK_ALIGN);
    if free - g.header >= size {
      assert Wrap(Wrap(free - g.header) - size) == free - (g.header + size);
    }
  }

  /** Rounding up to the alignment, compared with and taken from k times it. */
  lemma RoundedUp(d: nat, k: nat)
    ensures d <= 64 * k <==> (d + 63) / 64 <= k
    ensures d <= 64 * k ==> (64 * k - d) - (64 * k - d) % 64 == 64 * k - (d + 63) / 64 * 64
  {
  }

  /** The test of block_malloc at node i of the list: it holds at the last node, and there
      exactly when the cost still fits in the arena. */
  lemma FirstFitStep(g: Geometry, headers: Headers, ends: seq<nat>, i: nat, size: Word)
    requires Laid(g) && Tiled(headers, g.heap, g.arena, ends) && i + 1 < |ends|
    ensures g.heap + ends[i] in headers
    ensures
      var node := headers[g.heap + ends[i]];
      && node.next == (if i + 2 < |ends| then g.heap + ends[i + 1] else 0)
      && (!node.taken && Wrap(node.size - g.header) >= size <==>
            i + 2 == |ends| && Used(headers, g.heap, g.arena, ends) + Cost(g, size) <= g.arena)
      && (i + 2 == |ends| && !node.taken ==> Used(headers, g.heap, g.arena, ends) == Last(ends))
  {
    assert NodeIs(headers, g.heap, ends, i);
    var node := headers[g.heap + ends[i]];
    if !node.taken {
      assert i + 2 == |ends| && ends[i + 1] == g.arena;
      Leftover(g, node.size, size);
    }
  }

  /** The arithmetic of handing out the last node: where its data starts, and what is left. */
  lemma CarveStep(g: Geometry, headers: Headers, ends: seq<nat>, size: Word)
    requires Laid(g) && Tiled(headers, g.heap, g.arena, ends)
    requires Cost(g, size) <= g.arena - Last(ends)
    ensures g.heap + Last(ends) in headers
    ensures Wrap(g.heap + Last(ends) + g.header) == g.heap + Last(ends) + g.header
    ensures
      var node := headers[g.heap + Last(ends)];
      var rest := Wrap(Wrap(node.size - g.header) - size);
      && node.size == g.arena - Last(ends) && node.next == 0
      && g.heap + Last(ends) + node.size < WORD_LIMIT
      && rest - rest % BLOCK_ALIGN == g.arena - Last(ends) - Cost(g, size)
  {
    assert NodeIs(headers, g.heap, ends, |ends| - 2);
    Leftover(g, headers[g.heap + Last(ends)].size, size);
  }

  lemma CellBit(bm: seq<bv8>, i: nat, j: nat)
    requires i < |bm| && j < 8
    ensures Marked(bm, 8 * i + j) <==> Bit(bm[i], j)
  {
  }

  /** The first clear bit of a prefix is the bit after it. */
  lemma PrefixEnds(bm: seq<bv8>, n: nat, i: nat, j: nat)
    requires Prefix(bm, n) && i < |bm| && j < 8 && !Bit(bm[i], j)
    requires forall k :: 0 <= k < i ==> bm[k] == 0xff
    requires forall k :: 0 <= k < j ==> Bit(bm[i], k)
    ensures n == 8 * i + j < 8 * |bm|
  {
    CellBit(bm, i, j);
    if n < 8 * i + j {
      if n / 8 < i {
        FullByte(bm[n / 8]);
      }
      CellBit(bm, n / 8, n % 8);
    }
  }

  /** Setting it gives the next prefix. */
  lemma PrefixGrows(bm: seq<bv8>, i: nat, j: nat)
    requires i < |bm| && j < 8 && Prefix(bm, 8 * i + j)
    ensures Prefix(bm[i := bm[i] | Mask(j)], 8 * i + j + 1)
  {
    var n := 8 * i + j;
    var bm' := bm[i := bm[i] | Mask(j)];
    assert bm' == Mark(bm, n);
    forall k | 0 <= k < 8 * |bm| ensures Marked(bm', k) <==> k < n + 1 {
      MarkSets(bm, n, k);
    }
  }

  lemma NoneTaken(bm: seq<bv8>)
    requires forall k :: 0 <= k < |bm| ==> bm[k] == 0
    ensures Prefix(bm, 0)
  {
    forall k | 0 <= k < 8 * |bm| ensures !Marked(bm, k) {
      EmptyByte(bm[k / 8]);
    }
  }

  /** All bytes full: all cells taken. */
  lemma PrefixFull(bm: seq<bv8>, n: nat)
    requires Prefix(bm, n) && forall k :: 0 <= k < |bm| ==> bm[k] == 0xff
    ensures n == 8 * |bm|
  {
    if n < 8 * |bm| {
      FullByte(bm[n / 8]);
      assert Marked(bm, n);
    }
  }

  ghost predicate Holds(bitmap: array<bv8>, n: nat)
    reads bitmap
  {
    Prefix(bitmap[..], n)
  }

  /** The scan common to slab8_malloc, slab16_malloc and slab32_malloc, which differ only in
      bitmap and cell: the first cell not yet taken, if there is one. */
  method TakeCell(bitmap: array<bv8>, ghost n: nat) returns (found: bool, cell: nat)
    requires Holds(bitmap, n)
    modifies bitmap
    ensures found <==> n < 8 * bitmap.Length
    ensures found ==> cell == n && Holds(bitmap, n + 1)
    ensures !found ==> Holds(bitmap, n)
  {
    var i := 0;
    while i < bitmap.Length
      invariant i <= bitmap.Length && bitmap[..] == old(bitmap[..])
      invariant forall k :: 0 <= k < i ==> bitmap[k] == 0xff
    {
      var byte := bitmap[i];
      if byte != 0xff {
        var j := LowestClearBit(byte);
        PrefixEnds(bitmap[..], n, i, j);
        PrefixGrows(bitmap[..], i, j);
        ghost var before := bitmap[..];
        bitmap[i] := bitmap[i] | Mask(j);
        assert bitmap[..] == before[i := before[i] | Mask(j)];
        return true, 8 * i + j;
      }
      i := i + 1;
    }
    PrefixFull(bitmap[..], n);
    return false, 0;
  }

  class HeapAllocator {
    /** sizeof(HeapBlock) */
    const headerSize: Word
    const physHeapChunks: array<Word>
    const slab8Bitmap: array<bv8>
    const slab16Bitmap: array<bv8>
    const slab32Bitmap: array<bv8>
    var heap: Word
    var slab8: Word
    var slab16: Word
    var slab32: Word
    /** The block headers, by virtual address. */
    var headers: Headers

    ghost var arena: nat
    ghost var ends: seq<nat>
    ghost var n8: nat
    ghost var n16: nat
    ghost var n32: nat

    /** A heap with no pages yet, its bitmaps zero. */
    constructor (headerSize: Word)
      requires 0 < headerSize <= BLOCK_ALIGN
      ensures this.headerSize == headerSize && Sized() && SlabsHold(0, 0, 0)
      ensures fresh(physHeapChunks) && fresh(slab8Bitmap) && fresh(slab16Bitmap) && fresh(slab32Bitmap)
    {
      this.headerSize := headerSize;
      physHeapChunks := new Word[HEAP_PAGES / CHUNK_PAGES](_ => 0);
      slab8Bitmap := new bv8[CELLS8 / 8](_ => 0);
      slab16Bitmap := new bv8[CELLS16 / 8](_ => 0);
      slab32Bitmap := new bv8[CELLS32 / 8](_ => 0);
      heap, slab8, slab16, slab32, headers := 0, 0, 0, 0, map[];
      new;
      NoneTaken(slab8Bitmap[..]);
      NoneTaken(slab16Bitmap[..]);
      NoneTaken(slab32Bitmap[..]);
    }

    ghost function Shape(): Geometry
      reads this`heap, this`arena, this`slab8, this`slab16, this`slab32
    {
      Geometry(heap, arena, slab8, slab16, slab32, headerSize)
    }

    /** The fields that never change size. */
    ghost predicate Sized() {
      && 0 < headerSize <= BLOCK_ALIGN
      && physHeapChunks.Length == HEAP_PAGES / CHUNK_PAGES
      && 8 * slab8Bitmap.Length == CELLS8 && 8 * slab16Bitmap.Length == CELLS16 && 8 * slab32Bitmap.Length == CELLS32
      && slab8Bitmap != slab16Bitmap && slab8Bitmap != slab32Bitmap && slab16Bitmap != slab32Bitmap
    }

    ghost predicate SlabsHold(m8: nat, m16: nat, m32: nat)
      reads slab8Bitmap, slab16Bitmap, slab32Bitmap
    {
      Holds(slab8Bitmap, m8) && Holds(slab16Bitmap, m16) && Holds(slab32Bitmap, m32)
    }

    ghost predicate Ready()
      reads this`heap, this`arena, this`slab8, this`slab16, this`slab32
    {
      Sized() && Laid(Shape())
    }

    ghost predicate Valid()
      reads this, slab8Bitmap, slab16Bitmap, slab32Bitmap
    {
      Ready() && SlabsHold(n8, n16, n32) && Tiled(headers, heap, arena, ends)
    }

    /** Bytes of the arena handed out. */
    ghost function ArenaUsed(): nat
      requires Tiled(headers, heap, arena, ends)
      reads this`headers, this`heap, this`arena, this`ends
    {
      Used(headers, heap, arena, ends)
    }

    /** The counters the whole state amounts to. */
    ghost function View(): (c: Counters)
      requires Valid()
      reads this, slab8Bitmap, slab16Bitmap, slab32Bitmap
      ensures InBounds(Shape(), c)
    {
      Counters(n8, n16, n32, ArenaUsed())
    }

    /** The heap as init_heap_pages leaves it: nothing handed out, one free node. */
    ghost predicate Unused()
      reads this, slab8Bitmap, slab16Bitmap, slab32Bitmap
    {
      && Valid() && View() == UNUSED && ends == [0, arena]
      && Shape() == HeapShape(heap, headerSize)
    }

    /** Where page j of chunk i of the heap is, virtually. */
    function HeapPageAddr(i: nat, j: nat): Word
      reads this`heap
    {
      Wrap(heap + (CHUNK_PAGES * i + j) * PAGE_SIZE)
    }

    /** The heap found no block, and there is no free page either for map_page to take when
        it is asked for page 0. */
    ghost predicate NowhereToMap(virt: VM.VirtMemAllocator, m: seq<Word>)
      requires virt.Valid() && Paging.IsMemory(m)
      reads this`heap, virt
    {
      heap == 0 && VM.AllMapped(m, virt.Layout(), virt.FirstPage(), NUM_PAGES)
    }

    /** The call of map_page for page j of chunk i. */
    method MapHeapPage(virt: VM.VirtMemAllocator, i: nat, j: nat, chunk: Word) returns (res: Word)
      requires virt.Consistent() && i < 32 && j < 32 && heap % 0x40_0000 == 0
      requires chunk % 0x1000 == 0 && chunk + 0x2_0000 <= WORD_LIMIT
      modifies virt.memory
      ensures virt.Consistent() && chunk / 0x1000 + j < NUM_PAGES
      ensures VM.MapResult(old(virt.memory[..]), virt.memory[..], virt.Layout(), virt.FirstPage(),
                           0x1000 * (heap / 0x1000 + 32 * i + j), chunk / 0x1000 + j, res)
    {
      var heapPage := Wrap(chunk + j * PAGE_SIZE);
      var virtPage := HeapPageAddr(i, j);
      HeapPageAt(heap, CHUNK_PAGES * i + j, chunk, j);
      res := virt.MapPage(virtPage, heapPage);
    }

    /** The same, seen on the heap: one more page is mapped. The result is null only for the
        first page, and only when there is nowhere to map it. */
    method MapNextPage(virt: VM.VirtMemAllocator, i: nat, j: nat, chunk: Word,
                       ghost m0: seq<Word>, ghost frames: seq<nat>)
      returns (res: Word)
      requires PagesMapped(virt, m0, frames)
      requires i < 32 && j < 32 && |frames| == 32 * i + j && heap % 0x40_0000 == 0
      requires chunk % 0x1000 == 0 && chunk + 0x2_0000 <= WORD_LIMIT
      modifies virt.memory
      ensures PagesMapped(virt, m0, frames + [chunk / 0x1000 + j])
      ensures res == 0 <==> i == 0 && j == 0 && NowhereToMap(virt, old(virt.memory[..]))
    {
      ghost var m := virt.memory[..];
      res := MapHeapPage(virt, i, j, chunk);
      HeapPageMapped(m0, m, virt.memory[..], virt.Layout(), virt.FirstPage(), heap, frames, chunk / 0x1000 + j,
                     0x1000 * (heap / 0x1000 + |frames|), res);
    }

    /** The slabs among the first n chunks have been noted. */
    ghost predicate SlabsNoted(n: nat)
      reads this`heap, this`slab8, this`slab16, this`slab32
    {
      && (n > 29 ==> slab8 == HeapPageAddr(29, 0))
      && (n > 30 ==> slab16 == HeapPageAddr(30, 0))
      && (n > 31 ==> slab32 == HeapPageAddr(31, 0))
    }

    /** The inner loop of init_heap_pages: maps one chunk, and notes the start of the last
        three as the slabs. `ok` is false when the assertion on map_page's result fails. */
    method MapChunk(virt: VM.VirtMemAllocator, i: nat, chunk: Word,
                    ghost m0: seq<Word>, ghost frames: seq<nat>, ghost frames': seq<nat>)
      returns (ok: bool)
      requires frames' == frames + ChunkPart(chunk / 0x1000, 32)
      requires i < 32 && |frames| == 32 * i && heap % 0x40_0000 == 0
      requires chunk % 0x1000 == 0 && chunk + 0x2_0000 <= WORD_LIMIT
      requires PagesMapped(virt, m0, frames) && SlabsNoted(i)
      modifies virt.memory, this`slab8, this`slab16, this`slab32
      ensures virt.Consistent()
      ensures ok <==> !(i == 0 && NowhereToMap(virt, old(virt.memory[..])))
      ensures ok ==> PagesMapped(virt, m0, frames')
      ensures ok ==> SlabsNoted(i + 1)
    {
      ghost var c := chunk / 0x1000;
      var j := 0;
      assert frames + ChunkPart(c, 0) == frames;
      while j < CHUNK_PAGES
        invariant j <= CHUNK_PAGES && PagesMapped(virt, m0, frames + ChunkPart(c, j))
        invariant j == 0 ==> virt.memory[..] == old(virt.memory[..])
        invariant j > 0 ==> !(i == 0 && NowhereToMap(virt, old(virt.memory[..])))
        invariant SlabsNoted(if j == 0 then i else i + 1)
      {
        var res := MapNextPage(virt, i, j, chunk, m0, frames + ChunkPart(c, j));
        ChunkPartStep(frames, c, j);
        if res == 0 {
          return false;
        }
        if j == 0 {
          if i == HEAP_PAGES / CHUNK_PAGES - 3 {
            slab8 := HeapPageAddr(i, j);
          } else if i == HEAP_PAGES / CHUNK_PAGES - 2 {
            slab16 := HeapPageAddr(i, j);
          } else if i == HEAP_PAGES / CHUNK_PAGES - 1 {
            slab32 := HeapPageAddr(i, j);
          }
        }
        j := j + 1;
      }
      return true;
    }

    /** The chunks allocated so far, as frames, and where they are noted. */
    ghost predicate ChunksHeld(phys: PM.PhysMemAllocator, marked0: set<nat>, chunks: seq<nat>)
      reads physHeapChunks, phys, phys.memBitmap
    {
      phys.Valid() && ChunksNoted(physHeapChunks[..], marked0, phys.View().marked, chunks)
    }

    /** The pages mapped so far, if the heap has a block to map them in. */
    ghost predicate PagesMapped(virt: VM.VirtMemAllocator, m0: seq<Word>, frames: seq<nat>)
      reads this`heap, virt, virt.memory
    {
      virt.Consistent() && (heap != 0 ==> HeapMapped(m0, virt.memory[..], virt.Layout(), heap / 0x1000, frames))
    }

    /** Allocates and notes chunk i, unless none is left. */
    method AllocChunk(phys: PM.PhysMemAllocator, i: nat, ghost marked0: set<nat>, ghost chunks: seq<nat>)
      returns (chunk: Word, ghost chunks': seq<nat>)
      requires Sized() && i < 32 && |chunks| == i && ChunksHeld(phys, marked0, chunks)
      modifies physHeapChunks, phys`lastAlloc, phys.memBitmap
      ensures phys.Valid()
      ensures chunk == 0 <==> i == ChunkCount(marked0)
      ensures chunk != 0 ==>
                && chunk % 0x1000 == 0 && chunk + 0x2_0000 <= WORD_LIMIT
                && chunks' == chunks + [chunk / 0x1000] && ChunksHeld(phys, marked0, chunks')
    {
      ghost var s := phys.View();
      chunk := phys.Alloc32();
      physHeapChunks[i] := chunk;
      ChunkTaken(marked0, s, chunks);
      ghost var c := PhysSpec.Alloc(s, PhysSpec.ThirtyTwo).page;
      assert chunk == 0x1000 * c && chunk / 0x1000 == c;
      if chunk != 0 {
        assert c + 32 <= NUM_PAGES;
        assert chunk + 0x2_0000 <= WORD_LIMIT;
      }
      chunks' := chunks + [c];
    }

    /** One turn of the outer loop of init_heap_pages. */
    method InitChunk(phys: PM.PhysMemAllocator, virt: VM.VirtMemAllocator, i: nat,
                     ghost m0: seq<Word>, ghost marked0: set<nat>, ghost chunks: seq<nat>)
      returns (ok: bool, ghost chunks': seq<nat>)
      requires Sized() && physHeapChunks != virt.memory && i < 32 && heap % 0x40_0000 == 0
      requires |chunks| == i && ChunksHeld(phys, marked0, chunks) && PagesMapped(virt, m0, ChunkFrames(chunks))
      requires SlabsNoted(i)
      modifies physHeapChunks, virt.memory, phys`lastAlloc, phys.memBitmap, this`slab8, this`slab16, this`slab32
      ensures phys.Valid() && virt.Consistent()
      ensures ok <==> i < ChunkCount(marked0) && !(i == 0 && NowhereToMap(virt, old(virt.memory[..])))
      ensures ok ==> |chunks'| == i + 1 && ChunksHeld(phys, marked0, chunks')
      ensures ok ==> PagesMapped(virt, m0, ChunkFrames(chunks'))
      ensures ok ==> SlabsNoted(i + 1)
    {
      var chunk;
      chunk, chunks' := AllocChunk(phys, i, marked0, chunks);
      if chunk == 0 {
        return false, chunks;
      }
      MoreFrames(chunks, chunk / 0x1000);
      ok := MapTakenChunk(phys, virt, i, chunk, m0, marked0, chunks', ChunkFrames(chunks));
    }

    /** Mapping a chunk, which leaves the physical allocator alone. */
    method MapTakenChunk(phys: PM.PhysMemAllocator, virt: VM.VirtMemAllocator, i: nat, chunk: Word,
                         ghost m0: seq<Word>, ghost marked0: set<nat>, ghost chunks: seq<nat>,
                         ghost frames: seq<nat>)
      returns (ok: bool)
      requires physHeapChunks != virt.memory && i < 32 && |frames| == 32 * i && heap % 0x40_0000 == 0
      requires chunk % 0x1000 == 0 && chunk + 0x2_0000 <= WORD_LIMIT
      requires ChunkFrames(chunks) == frames + ChunkPart(chunk / 0x1000, 32)
      requires ChunksHeld(phys, marked0, chunks) && PagesMapped(virt, m0, frames) && SlabsNoted(i)
      modifies virt.memory, this`slab8, this`slab16, this`slab32
      ensures virt.Consistent() && ChunksHeld(phys, marked0, chunks)
      ensures ok <==> !(i == 0 && NowhereToMap(virt, old(virt.memory[..])))
      ensures ok ==> PagesMapped(virt, m0, ChunkFrames(chunks)) && SlabsNoted(i + 1)
    {
      ok := MapChunk(virt, i, chunk, m0, frames, ChunkFrames(chunks));
    }

    /** The outer loop of init_heap_pages. */
    method InitChunks(phys: PM.PhysMemAllocator, virt: VM.VirtMemAllocator, ghost m0: seq<Word>)
      returns (ok: bool, ghost chunks: seq<nat>)
      requires Sized() && physHeapChunks != virt.memory && heap % 0x40_0000 == 0
      requires phys.Valid() && PagesMapped(virt, m0, [])
      modifies physHeapChunks, virt.memory, phys`lastAlloc, phys.memBitmap, this`slab8, this`slab16, this`slab32
      ensures phys.Valid() && virt.Consistent()
      ensures ok <==> 32 <= ChunkCount(old(phys.View().marked)) && !NowhereToMap(virt, old(virt.memory[..]))
      ensures ok ==> |chunks| == 32 && ChunksHeld(phys, old(phys.View().marked), chunks)
      ensures ok ==> PagesMapped(virt, m0, ChunkFrames(chunks))
      ensures ok ==> SlabsNoted(32)
    {
      ghost var marked0 := phys.View().marked;
      chunks := [];
      var i := 0;
      while i < HEAP_PAGES / CHUNK_PAGES
        invariant i <= 32 && |chunks| == i
        invariant ChunksHeld(phys, marked0, chunks) && PagesMapped(virt, m0, ChunkFrames(chunks))
        invariant i == 0 ==> virt.memory[..] == old(virt.memory[..])
        invariant i > 0 ==> !NowhereToMap(virt, old(virt.memory[..]))
        invariant SlabsNoted(i)
      {
        ok, chunks := InitChunk(phys, virt, i, m0, marked0, chunks);
        if !ok {
          return;
        }
        i := i + 1;
      }
      ok := true;
    }

    /** The one free node the block list starts with. */
    method InitFirstNode()
      requires Sized() && SlabsHold(0, 0, 0) && heap % 0x40_0000 == 0
      requires SlabsNoted(32)
      modifies this`headers, this`arena, this`ends, this`n8, this`n16, this`n32
      ensures heap != 0 ==> Unused()
    {
      headers := headers[heap := HeapBlock(0, (CHUNK_PAGES - 3) * PAGE_SIZE, false)];
      arena := (CHUNK_PAGES - 3) * PAGE_SIZE;
      ends := [0, arena];
      n8, n16, n32 := 0, 0, 0;
      ShapeLaid(heap, headerSize);
      FirstNodeTiles(headers, heap, arena);
      assert Shape() == HeapShape(heap, headerSize);
    }

    /** The block of virtual memory for the heap, if there is one. */
    method ReserveHeap(virt: VM.VirtMemAllocator)
      requires virt.Consistent()
      modifies this`heap, virt.memory
      ensures heap % 0x40_0000 == 0 && PagesMapped(virt, old(virt.memory[..]), [])
      ensures heap == 0 <==> NoAbsentBlock(old(virt.memory[..]), virt.Layout(), virt.FirstPage())
      ensures heap != 0 ==>
                FirstAbsent(old(virt.memory[..]), virt.Layout(), virt.FirstPage(), heap / 0x40_0000)
      ensures heap == 0 ==> virt.memory[..] == old(virt.memory[..])
    {
      ghost var m := virt.memory[..];
      heap := virt.ReserveBlock();
      ReservedBlock(m, virt.memory[..], virt.Layout(), virt.FirstPage(), heap);
    }

    /** Reserves a block of virtual memory, maps the heap's pages in it chunk by chunk, and
        makes the first 29 pages one free node. `ok` is false when an assertion of the
        source fails: fewer than 32 chunks can be allocated, or there was no block to reserve
        and map_page, asked for page 0 instead, finds no free page either. */
    method InitHeapPages(phys: PM.PhysMemAllocator, virt: VM.VirtMemAllocator)
      returns (ok: bool, ghost chunks: seq<nat>)
      requires Sized() && SlabsHold(0, 0, 0) && physHeapChunks != virt.memory
      requires phys.Valid() && virt.Consistent()
      modifies this, physHeapChunks, virt.memory, phys`lastAlloc, phys.memBitmap
      ensures phys.Valid() && virt.Consistent()
      ensures heap % 0x40_0000 == 0
      ensures heap == 0 <==> NoAbsentBlock(old(virt.memory[..]), virt.Layout(), virt.FirstPage())
      ensures heap != 0 ==>
                FirstAbsent(old(virt.memory[..]), virt.Layout(), virt.FirstPage(), heap / 0x40_0000)
      ensures ok <==> 32 <= ChunkCount(old(phys.View().marked)) && !NowhereToMap(virt, old(virt.memory[..]))
      ensures ok && heap != 0 ==> Unused()
      ensures ok ==> |chunks| == 32 && ChunksHeld(phys, old(phys.View().marked), chunks)
      ensures ok ==> PagesMapped(virt, old(virt.memory[..]), ChunkFrames(chunks))
    {
      ghost var m := virt.memory[..];
      ReserveHeap(virt);
      ok, chunks := InitChunks(phys, virt, m);
      if ok {
        InitFirstNode();
      }
    }

    /** Cuts `leftover` bytes off the end of a node into a new, free node after it. */
    method SplitNode(node: Word, leftover: Word)
      requires node in headers && 0 < leftover < headers[node].size && node + headers[node].size < WORD_LIMIT
      modifies this`headers
      ensures var block := old(headers)[node];
              var kept := block.size - leftover;
              headers == old(headers)[node := block.(size := kept, next := node + kept)]
                                     [node + kept := HeapBlock(block.next, leftover, false)]
    {
      headers := headers[node := headers[node].(size := Wrap(headers[node].size - leftover))];
      var next := Wrap(node + headers[node].size);
      assert next == node + headers[node].size != node;
      headers := headers[next := HeapBlock(headers[node].next, leftover, false)];
      headers := headers[node := headers[node].(next := next)];
    }

    /** Hands out a free node that fits, splitting off what is left if that is anything. */
    method CarveNode(node: Word, size: Word) returns (ptr: Word)
      requires Ready() && Tiled(headers, heap, arena, ends)
      requires node == heap + Last(ends) && node in headers && !headers[node].taken
      requires Cost(Shape(), size) <= arena - Last(ends)
      modifies this`headers
      ensures headers == Carved(old(headers), heap, arena, ends, Cost(Shape(), size))
      ensures ptr == node + headerSize
    {
      CarveStep(Shape(), headers, ends, size);
      headers := headers[node := headers[node].(taken := true)];
      var leftover := Wrap(Wrap(headers[node].size - headerSize) - size);
      leftover := leftover - leftover % BLOCK_ALIGN;
      if leftover > 0 {
        SplitNode(node, leftover);
      }
      return Wrap(node + headerSize);
    }

    /** The same, on the list as a whole. */
    method TakeNode(node: Word, size: Word) returns (ptr: Word)
      requires Ready() && Tiled(headers, heap, arena, ends)
      requires node == heap + Last(ends) && node in headers && !headers[node].taken
      requires Cost(Shape(), size) <= arena - Last(ends)
      modifies this`headers, this`ends
      ensures Tiled(headers, heap, arena, ends) && ArenaUsed() == old(Last(ends)) + Cost(Shape(), size)
      ensures ends == NextEnds(arena, old(ends), old(Last(ends)), ArenaUsed())
      ensures ptr == node + headerSize
    {
      CarvedIsTiled(headers, heap, arena, ends, Cost(Shape(), size));
      ptr := CarveNode(node, size);
      ends := NextEnds(arena, ends, Last(ends), Last(ends) + Cost(Shape(), size));
    }

    /** First fit over the list. In every reachable state only the last node can fit, so
        this is a bump pointer. */
    method BlockMalloc(size: Word) returns (ptr: Word)
      requires Ready() && Tiled(headers, heap, arena, ends)
      modifies this`headers, this`ends
      ensures Tiled(headers, heap, arena, ends)
      ensures var cost := Cost(Shape(), size);
              if old(ArenaUsed()) + cost <= arena
              then ArenaUsed() == old(ArenaUsed()) + cost && ptr == heap + old(ArenaUsed()) + headerSize
              else ptr == 0 && headers == old(headers) && ends == old(ends)
      ensures ends == NextEnds(arena, old(ends), old(ArenaUsed()), ArenaUsed())
    {
      var node := heap;
      ghost var i := 0;
      while node != 0
        invariant ends == old(ends) && headers == old(headers)
        invariant 0 <= i < |ends| && node == if i < |ends| - 1 then heap + ends[i] else 0
        invariant i == |ends| - 1 ==> ArenaUsed() + Cost(Shape(), size) > arena
        decreases |ends| - i
      {
        FirstFitStep(Shape(), headers, ends, i, size);
        if !headers[node].taken && Wrap(headers[node].size - headerSize) >= size {
          ptr := TakeNode(node, size);
          return;
        }
        node := headers[node].next;
        i := i + 1;
      }
      return 0;
    }

    method Slab8Malloc() returns (ptr: Word)
      requires Ready() && Holds(slab8Bitmap, n8)
      modifies this`n8, slab8Bitmap
      ensures Holds(slab8Bitmap, n8)
      ensures if old(n8) < CELLS8 then n8 == old(n8) + 1 && ptr == slab8 + 8 * old(n8)
              else n8 == old(n8) && ptr == 0
    {
      var found, cell := TakeCell(slab8Bitmap, n8);
      if !found {
        return 0;
      }
      n8 := n8 + 1;
      return Wrap(slab8 + 8 * cell);
    }

    method Slab16Malloc() returns (ptr: Word)
      requires Ready() && Holds(slab16Bitmap, n16)
      modifies this`n16, slab16Bitmap
      ensures Holds(slab16Bitmap, n16)
      ensures if old(n16) < CELLS16 then n16 == old(n16) + 1 && ptr == slab16 + 16 * old(n16)
              else n16 == old(n16) && ptr == 0
    {
      var found, cell := TakeCell(slab16Bitmap, n16);
      if !found {
        return 0;
      }
      n16 := n16 + 1;
      return Wrap(slab16 + 16 * cell);
    }

    method Slab32Malloc() returns (ptr: Word)
      requires Ready() && Holds(slab32Bitmap, n32)
      modifies this`n32, slab32Bitmap
      ensures Holds(slab32Bitmap, n32)
      ensures if old(n32) < CELLS32 then n32 == old(n32) + 1 && ptr == slab32 + 32 * old(n32)
              else n32 == old(n32) && ptr == 0
    {
      var found, cell := TakeCell(slab32Bitmap, n32);
      if !found {
        return 0;
      }
      n32 := n32 + 1;
      return Wrap(slab32 + 32 * cell);
    }

    /** The slabs first, smallest fitting cell first, falling through when one is full; then
        the block list. The four counters say all there is to say about the result. */
    method Malloc(size: Word) returns (ptr: Word)
      requires Valid()
      modifies this`headers, this`ends, this`n8, this`n16, this`n32, slab8Bitmap, slab16Bitmap, slab32Bitmap
      ensures Valid() && Shape() == old(Shape())
      ensures Grant(View(), ptr) == HeapSpec.Malloc(Shape(), old(View()), size)
      ensures ends == NextEnds(arena, old(ends), old(View()).used, View().used)
    {
      if size > HEAP_PAGES * PAGE_SIZE {
        return 0;
      }
      if size <= 8 {
        ptr := Slab8Malloc();
        if ptr != 0 {
          return;
        }
      }
      ptr := MallocFrom16(size);
    }

    /** malloc from its second test on. */
    method MallocFrom16(size: Word) returns (ptr: Word)
      requires Valid()
      modifies this`headers, this`ends, this`n16, this`n32, slab16Bitmap, slab32Bitmap
      ensures Valid() && Shape() == old(Shape())
      ensures Grant(View(), ptr) == From16(Shape(), old(View()), size)
      ensures ends == NextEnds(arena, old(ends), old(View()).used, View().used)
    {
      if size <= 16 {
        ptr := Slab16Malloc();
        if ptr != 0 {
          return;
        }
      }
      ptr := MallocFrom32(size);
    }

    /** malloc from its third test on. */
    method MallocFrom32(size: Word) returns (ptr: Word)
      requires Valid()
      modifies this`headers, this`ends, this`n32, slab32Bitmap
      ensures Valid() && Shape() == old(Shape())
      ensures Grant(View(), ptr) == From32(Shape(), old(View()), size)
      ensures ends == NextEnds(arena, old(ends), old(View()).used, View().used)
    {
      if size <= 32 {
        ptr := Slab32Malloc();
        if ptr != 0 {
          return;
        }
      }
      ptr := BlockMalloc(size);
    }
  }
}