/** The heap after boot: whatever the kernel does with its physical and virtual memory, in
    any order, the heap's pages stay where they are, nobody else is given them, and what
    malloc handed out stays backed by memory of its own. */
module Lifetime {
  import opened Kernel
  import opened Paging
  import opened AddressSpace
  import opened PhysSpec
  import opened PhysTheorems
  import opened HeapSpec
  import opened HeapPages
  import opened EndToEnd
  import opened PreKernel
  import opened BlockList
  import opened HeapRuns
  import opened Multiboot
  import PM = PhysMem
  import VM = VirtMem
  import HA = HeapAllocators
  import BootPaging

  /** A physical allocation or a reset of its hint; an operation on the page tables; a word
      stored at a heap address. malloc itself touches neither kind of memory map. */
  datatype Event = Phys(call: Call) | Virt(op: Op) | Store(a: Word, w: Word)

  /** Anything but mapping a page by address inside the heap's own block. */
  ghost predicate Permitted(e: Event, g: Geometry) {
    match e
    case Phys(call) => call.SetHint? ==> call.hint < NUM_PAGES
    case Virt(op) => Legal(op) && (op.MapAt? ==> op.p / 1024 != g.heap / 0x1000 / 1024)
    case Store(a, w) => g.heap <= a < g.heap + 0x40_0000 && a % 4 == 0
  }

  /** Physical memory and the state of the physical allocator. */
  datatype Machine = Machine(memory: seq<Word>, pages: State)

  /** One event, and the address it returned (0 if it returns none). */
  ghost predicate Happens(before: Machine, after: Machine, t: Tables, first: nat, ident: nat, e: Event, result: Word)
    requires IsMemory(before.memory) && Placed(t) && ident < HIGH_INDEX && HIGH_PAGE <= first < NUM_PAGES
    requires PhysSpec.Valid(before.pages)
    requires e.Virt? ==> Legal(e.op)
  {
    match e
    case Phys(Request(grain)) =>
      var a := Alloc(before.pages, grain);
      after == before.(pages := a.state) && result == VM.PageAddr(a.page)
    case Phys(SetHint(hint)) =>
      after == before.(pages := before.pages.(hint := hint)) && result == 0
    case Virt(op) =>
      after.pages == before.pages && Step(before.memory, after.memory, t, first, ident, op, result)
    case Store(a, w) =>
      var pa := Translate(before.memory, t.dir, a);
      && pa.Some? && result == 0
      && after == before.(memory := before.memory[pa.value / 4 := w])
  }

  /** The heap is ready, and the physical allocator's state is sound. */
  ghost predicate HeapLives(s: Machine, t: Tables, g: Geometry, marked0: set<nat>, chunks: seq<nat>) {
    PhysSpec.Valid(s.pages) && HeapReady(s.memory, t, g, marked0, s.pages.marked, chunks)
  }

  // ---- the heap, seen on the space ----

  /** A block wholly mapped, whose table no entry below KERNEL_BASE names. */
  ghost predicate BlockHeld(s: Space, hp: nat, frames: seq<nat>) {
    && hp / 1024 in s.loaded
    && (forall p :: hp <= p < hp + |frames| ==> p in s.frames && s.frames[p] == frames[p - hp])
    && (forall e: nat :: (e, hp / 1024) !in s.shared)
  }

  lemma MappedIsHeld(m: seq<Word>, t: Tables, hp: nat, frames: seq<nat>)
    requires IsMemory(m) && Placed(t) && HIGH_PAGE <= hp && hp % 1024 == 0 && hp + 1024 <= NUM_PAGES
    requires |frames| == 1024 && MapsTo(m, t, hp, frames) && Loaded(m, t, hp / 1024) && Unshared(m, t, hp / 1024)
    ensures BlockHeld(SpaceOf(m, t), hp, frames)
  {
    var s := SpaceOf(m, t);
    forall p | hp <= p < hp + 1024 ensures p in s.frames && s.frames[p] == frames[p - hp] {
      assert Walk(m, t.dir, hp + (p - hp)) == Some(frames[p - hp]);
    }
  }

  lemma HeldIsMapped(m: seq<Word>, t: Tables, hp: nat, frames: seq<nat>)
    requires IsMemory(m) && Placed(t) && HIGH_PAGE <= hp && hp % 1024 == 0 && hp + 1024 <= NUM_PAGES
    requires |frames| == 1024 && BlockHeld(SpaceOf(m, t), hp, frames)
    ensures MapsTo(m, t, hp, frames) && Loaded(m, t, hp / 1024) && Unshared(m, t, hp / 1024)
  {
    var s := SpaceOf(m, t);
    forall q | 0 <= q < 1024 ensures Walk(m, t.dir, hp + q) == Some(frames[q]) {
      assert hp + q in s.frames;
    }
    forall e | 0 <= e < HIGH_INDEX ensures !Shares(m, t, e, hp / 1024) {
      assert (e, hp / 1024) !in s.shared;
    }
  }

  /** No permitted operation takes a page of the block away: map_page(null) finds none free
      in it, and no page below KERNEL_BASE is an alias of one. */
  lemma BlockStaysHeld(s: Space, first: nat, ident: nat, op: Op, hp: nat, frames: seq<nat>)
    requires BlockHeld(s, hp, frames) && |frames| == 1024 && hp % 1024 == 0
    requires HIGH_PAGE <= first < NUM_PAGES && Legal(op) && (op.MapAt? ==> op.p / 1024 != hp / 1024)
    ensures BlockHeld(Apply(s, first, ident, op).0, hp, frames)
  {
    var s' := Apply(s, first, ident, op).0;
    forall p | hp <= p < hp + 1024 ensures p in s'.frames && s'.frames[p] == frames[p - hp] {
      assert p in s.frames && p / 1024 == hp / 1024;
    }
  }

  lemma OperationKeepsHeap(m: seq<Word>, m': seq<Word>, t: Tables, first: nat, ident: nat, op: Op, page: Word,
                           g: Geometry, marked0: set<nat>, marked: set<nat>, chunks: seq<nat>)
    requires HeapReady(m, t, g, marked0, marked, chunks)
    requires ident < HIGH_INDEX && HIGH_PAGE <= first < NUM_PAGES && Permitted(Virt(op), g)
    requires Step(m, m', t, first, ident, op, page)
    ensures HeapReady(m', t, g, marked0, marked, chunks)
  {
    var hp, frames := g.heap / 0x1000, ChunkFrames(chunks);
    assert hp % 1024 == 0;
    StepRefines(m, m', t, first, ident, op, page);
    MappedIsHeld(m, t, hp, frames);
    BlockStaysHeld(SpaceOf(m, t), first, ident, op, hp, frames);
    HeldIsMapped(m', t, hp, frames);
  }

  /** More marks do not disturb the chunks. */
  lemma MarksKeepHeap(m: seq<Word>, t: Tables, g: Geometry, marked0: set<nat>, marked: set<nat>, marked': set<nat>,
                      chunks: seq<nat>)
    requires HeapReady(m, t, g, marked0, marked, chunks) && marked <= marked'
    ensures HeapReady(m, t, g, marked0, marked', chunks)
  {
  }

  /** One event keeps the heap. */
  lemma EventKeepsHeap(before: Machine, after: Machine, t: Tables, first: nat, ident: nat, e: Event, result: Word,
                       g: Geometry, marked0: set<nat>, chunks: seq<nat>)
    requires HeapLives(before, t, g, marked0, chunks)
    requires ident < HIGH_INDEX && HIGH_PAGE <= first < NUM_PAGES && Permitted(e, g)
    requires Happens(before, after, t, first, ident, e, result)
    ensures HeapLives(after, t, g, marked0, chunks)
  {
    match e
    case Phys(Request(grain)) =>
      CallSafe(before.pages, grain);
      MarksKeepHeap(before.memory, t, g, marked0, before.pages.marked, after.pages.marked, chunks);
    case Phys(SetHint(hint)) =>
    case Virt(op) =>
      OperationKeepsHeap(before.memory, after.memory, t, first, ident, op, result,
                         g, marked0, before.pages.marked, chunks);
    case Store(a, w) =>
      HeapStoreKeepsTranslation(before.memory, t, g, marked0, before.pages.marked, chunks, a, w);
  }

  // ---- whole histories ----

  /** A history: the machine before each event and at the end, and what each event returned. */
  ghost predicate History(states: seq<Machine>, t: Tables, first: nat, ident: nat, g: Geometry,
                          events: seq<Event>, results: seq<Word>)
    requires Placed(t) && ident < HIGH_INDEX && HIGH_PAGE <= first < NUM_PAGES
  {
    && |states| == |events| + 1 && |results| == |events|
    && (forall i :: 0 <= i < |states| ==> IsMemory(states[i].memory) && PhysSpec.Valid(states[i].pages))
    && (forall i :: 0 <= i < |events| ==> Permitted(events[i], g))
    && (forall i :: 0 <= i < |events| ==>
          Happens(states[i], states[i + 1], t, first, ident, events[i], results[i]))
  }

  /** Whatever happens, in whatever order, a heap that is ready stays ready: so what holds of
      malloc's results at boot holds at any later time. */
  lemma {:induction false} HeapSurvives(states: seq<Machine>, t: Tables, first: nat, ident: nat, g: Geometry,
                                        events: seq<Event>, results: seq<Word>,
                                        marked0: set<nat>, chunks: seq<nat>, n: nat)
    requires Placed(t) && ident < HIGH_INDEX && HIGH_PAGE <= first < NUM_PAGES
    requires History(states, t, first, ident, g, events, results) && n <= |events|
    requires HeapLives(states[0], t, g, marked0, chunks)
    ensures HeapLives(states[n], t, g, marked0, chunks)
  {
    if n > 0 {
      HeapSurvives(states, t, first, ident, g, events, results, marked0, chunks, n - 1);
      EventKeepsHeap(states[n - 1], states[n], t, first, ident, events[n - 1], results[n - 1], g, marked0, chunks);
    }
  }

  /** One physical allocation is given nothing of the chunks. */
  lemma GrantAvoidsChunks(s: State, grain: Grain, marked0: set<nat>, chunks: seq<nat>, q: nat)
    requires PhysSpec.Valid(s) && ChunksTaken(marked0, s.marked, chunks) && q < 32 * |chunks|
    ensures
      var page := Alloc(s, grain).page;
      var f := ChunkFrames(chunks)[q];
      page < NUM_PAGES && (page != 0 ==> !(page <= f < page + Size(grain)))
  {
    CallSafe(s, grain);
    FrameInChunk(marked0, s.marked, chunks, q);
    var page, f := Alloc(s, grain).page, ChunkFrames(chunks)[q];
    if page != 0 {
      assert f in s.marked && f !in Group(grain, page);
    }
  }

  lemma PageOfAddr(page: nat)
    requires page < NUM_PAGES
    ensures VM.PageAddr(page) / 0x1000 == page
  {
  }

  /** No later physical allocation is given a frame of the heap. */
  lemma GrantsAvoidHeap(states: seq<Machine>, t: Tables, first: nat, ident: nat, g: Geometry,
                        events: seq<Event>, results: seq<Word>,
                        marked0: set<nat>, chunks: seq<nat>, n: nat, grain: Grain, q: nat)
    requires Placed(t) && ident < HIGH_INDEX && HIGH_PAGE <= first < NUM_PAGES
    requires History(states, t, first, ident, g, events, results) && n < |events|
    requires HeapLives(states[0], t, g, marked0, chunks)
    requires events[n] == Phys(Request(grain)) && results[n] != 0 && q < 1024
    ensures var f := ChunkFrames(chunks)[q];
            !(results[n] / 0x1000 <= f < results[n] / 0x1000 + Size(grain))
  {
    HeapSurvives(states, t, first, ident, g, events, results, marked0, chunks, n);
    GrantAvoidsChunks(states[n].pages, grain, marked0, chunks, q);
    PageOfAddr(Alloc(states[n].pages, grain).page);
    assert Happens(states[n], states[n + 1], t, first, ident, events[n], results[n]);
  }

  // ---- what malloc handed out ----

  /** Byte a lies in grant i. */
  predicate Within(ptrs: seq<Word>, sizes: seq<Word>, i: nat, a: Word)
    requires i < |ptrs| == |sizes|
  {
    ptrs[i] != 0 && ptrs[i] <= a && a - ptrs[i] < sizes[i]
  }

  /** The bytes of each grant are mapped, to pages outside `reserved`. */
  ghost predicate Backed(m: seq<Word>, t: Tables, ptrs: seq<Word>, sizes: seq<Word>, reserved: set<nat>)
    requires IsMemory(m) && Placed(t) && |ptrs| == |sizes|
  {
    forall i, a: Word :: 0 <= i < |ptrs| && Within(ptrs, sizes, i, a) ==>
      Translate(m, t.dir, a).Some? && Translate(m, t.dir, a).value / 0x1000 !in reserved
  }

  /** No physical byte belongs to two grants. */
  ghost predicate Separated(m: seq<Word>, t: Tables, ptrs: seq<Word>, sizes: seq<Word>)
    requires IsMemory(m) && Placed(t) && |ptrs| == |sizes|
  {
    forall i, j, a: Word, b: Word ::
      0 <= i < j < |ptrs| && Within(ptrs, sizes, i, a) && Within(ptrs, sizes, j, b) ==>
        Translate(m, t.dir, a) != Translate(m, t.dir, b)
  }

  lemma GrantsHold(m: seq<Word>, t: Tables, g: Geometry, marked0: set<nat>, marked: set<nat>, chunks: seq<nat>,
                   ptrs: seq<Word>, sizes: seq<Word>)
    requires HeapReady(m, t, g, marked0, marked, chunks) && |ptrs| == |sizes| && PointersOf(ptrs, g, sizes)
    ensures Backed(m, t, ptrs, sizes, marked0) && Separated(m, t, ptrs, sizes)
  {
    forall i, a: Word | 0 <= i < |ptrs| && Within(ptrs, sizes, i, a)
      ensures Translate(m, t.dir, a).Some? && Translate(m, t.dir, a).value / 0x1000 !in marked0
    {
      MallocIsBacked(m, t, g, marked0, marked, chunks, sizes, i, a);
    }
    forall i, j, a: Word, b: Word | 0 <= i < j < |ptrs| && Within(ptrs, sizes, i, a) && Within(ptrs, sizes, j, b)
      ensures Translate(m, t.dir, a) != Translate(m, t.dir, b)
    {
      MallocIsDisjoint(m, t, g, marked0, marked, chunks, sizes, i, j, a, b);
    }
  }

  /** What malloc handed out is still backed and still separate, whatever has happened. */
  lemma GrantsHoldLater(states: seq<Machine>, t: Tables, first: nat, ident: nat, g: Geometry,
                        events: seq<Event>, results: seq<Word>,
                        marked0: set<nat>, chunks: seq<nat>, n: nat, ptrs: seq<Word>, sizes: seq<Word>)
    requires Placed(t) && ident < HIGH_INDEX && HIGH_PAGE <= first < NUM_PAGES
    requires History(states, t, first, ident, g, events, results) && n <= |events|
    requires HeapLives(states[0], t, g, marked0, chunks)
    requires |ptrs| == |sizes| && PointersOf(ptrs, g, sizes)
    ensures Backed(states[n].memory, t, ptrs, sizes, marked0) && Separated(states[n].memory, t, ptrs, sizes)
  {
    HeapSurvives(states, t, first, ident, g, events, results, marked0, chunks, n);
    GrantsHold(states[n].memory, t, g, marked0, states[n].pages.marked, chunks, ptrs, sizes);
  }

  /** Whatever is allocated from an unused heap, one request after another. */
  method Allocate(heap: HA.HeapAllocator, sizes: seq<Word>) returns (ptrs: seq<Word>)
    requires heap.Unused()
    modifies heap`headers, heap`ends, heap`n8, heap`n16, heap`n32
    modifies heap.slab8Bitmap, heap.slab16Bitmap, heap.slab32Bitmap
    ensures heap.Valid() && heap.Shape() == old(heap.Shape())
    ensures |ptrs| == |sizes| && PointersOf(ptrs, heap.Shape(), sizes)
    ensures heap.View() == After(heap.Shape(), UNUSED, sizes, |sizes|)
    ensures heap.ends == EndsAfter(heap.Shape(), sizes, |sizes|)
  {
    ptrs := [];
    ghost var g := heap.Shape();
    while |ptrs| < |sizes|
      invariant heap.Valid() && heap.Shape() == g
      invariant PointersOf(ptrs, g, sizes)
      invariant heap.View() == After(g, UNUSED, sizes, |ptrs|)
      invariant heap.ends == EndsAfter(g, sizes, |ptrs|)
      decreases |sizes| - |ptrs|
    {
      var ptr := heap.Malloc(sizes[|ptrs|]);
      ptrs := ptrs + [ptr];
    }
  }

  /** kernel_main clears the identity map first. */
  method ForgetIdentity(virt: VM.VirtMemAllocator, ghost g: Geometry, ghost marked0: set<nat>, ghost marked: set<nat>,
                        ghost chunks: seq<nat>)
    requires virt.Valid() && VirtToPhys(virt.kernelStart) < BLOCK_SIZE
    requires HeapReady(virt.memory[..], virt.Layout(), g, marked0, marked, chunks)
    modifies virt.memory
    ensures HeapReady(virt.memory[..], virt.Layout(), g, marked0, marked, chunks)
  {
    ghost var m, ident := virt.memory[..], PdIndex(VirtToPhys(virt.kernelStart));
    virt.ClearIdentMap();
    OperationKeepsHeap(m, virt.memory[..], virt.Layout(), HIGH_PAGE, ident, ClearIdent, 0, g, marked0, marked, chunks);
  }

  lemma BlockLeft(kernelEnd: Word)
    requires 0 < kernelEnd
    ensures FirstBlockAfter(kernelEnd) == 0 <==> kernelEnd > 0xffc0_0000
  {
  }

  /** Boot, and kernel_main up to the first allocation. */
  method BootToMain(phys: PM.PhysMemAllocator, virt: VM.VirtMemAllocator, heap: HA.HeapAllocator, image: Image,
                    bytes: seq<Byte>, info: Word, hasMemMap: bool, mmapAddr: Word, mmapLength: Word)
    returns (ok: bool, ghost chunks: seq<nat>)
    requires phys.Valid() && virt.memory.Length == MEMORY_WORDS && virt.kernelStart == image.kernelStart
    requires heap.Sized() && heap.SlabsHold(0, 0, 0) && heap.physHeapChunks != virt.memory
    requires ValidImage(image) && BootPaging.AllZero(virt.memory[..], TablesOf(image))
    requires MapReadable(bytes, mmapAddr, mmapLength)
    modifies phys`lastAlloc, phys.memBitmap, virt, virt.memory, heap, heap.physHeapChunks
    ensures ok <==> && CanBoot(bytes, image, info, hasMemMap, mmapAddr, mmapLength)
                    && image.kernelEnd <= 0xffc0_0000
    ensures ok ==>
              && phys.Valid() && heap.Unused() && heap.heap == FirstBlockAfter(image.kernelEnd)
              && HeapReady(virt.memory[..], TablesOf(image), heap.Shape(),
                           ReservedPages(bytes, mmapAddr, mmapLength, image), phys.View().marked, chunks)
  {
    ok, chunks := EndToEnd.Boot(phys, virt, heap, image, bytes, info, hasMemMap, mmapAddr, mmapLength);
    BlockLeft(image.kernelEnd);
    if !ok || heap.heap == 0 {
      return false, chunks;
    }
    ghost var reserved := ReservedPages(bytes, mmapAddr, mmapLength, image);
    VgaCheck(image);
    ForgetIdentity(virt, heap.Shape(), reserved, phys.View().marked, chunks);
  }

  /** Boot, then kernel_main: the identity map is cleared and memory is allocated. Every
      byte handed out is backed by memory that is not reserved, none is handed out twice, and
      the block list is untouched by what is written there (DataAvoidsHeaders). */
  method BootAndAllocate(phys: PM.PhysMemAllocator, virt: VM.VirtMemAllocator, heap: HA.HeapAllocator, image: Image,
                         bytes: seq<Byte>, info: Word, hasMemMap: bool, mmapAddr: Word, mmapLength: Word,
                         sizes: seq<Word>)
    returns (ok: bool, ptrs: seq<Word>, ghost chunks: seq<nat>)
    requires phys.Valid() && virt.memory.Length == MEMORY_WORDS && virt.kernelStart == image.kernelStart
    requires heap.Sized() && heap.SlabsHold(0, 0, 0) && heap.physHeapChunks != virt.memory
    requires ValidImage(image) && BootPaging.AllZero(virt.memory[..], TablesOf(image))
    requires MapReadable(bytes, mmapAddr, mmapLength)
    modifies phys`lastAlloc, phys.memBitmap, virt, virt.memory, heap, heap.physHeapChunks
    modifies heap.slab8Bitmap, heap.slab16Bitmap, heap.slab32Bitmap
    ensures ok <==> && CanBoot(bytes, image, info, hasMemMap, mmapAddr, mmapLength)
                    && image.kernelEnd <= 0xffc0_0000
    ensures ok ==>
              && heap.heap == FirstBlockAfter(image.kernelEnd)
              && phys.Valid() && AsExpected(heap.heap, heap.headerSize, ptrs, sizes)
              && HeapReady(virt.memory[..], TablesOf(image), heap.Shape(),
                           ReservedPages(bytes, mmapAddr, mmapLength, image), phys.View().marked, chunks)
              && Backed(virt.memory[..], TablesOf(image), ptrs, sizes,
                        ReservedPages(bytes, mmapAddr, mmapLength, image))
              && Separated(virt.memory[..], TablesOf(image), ptrs, sizes)
              && heap.Valid() && heap.ends == EndsAfter(heap.Shape(), sizes, |sizes|)
  {
    ptrs := [];
    ok, chunks := BootToMain(phys, virt, heap, image, bytes, info, hasMemMap, mmapAddr, mmapLength);
    if !ok {
      return;
    }
    ghost var reserved := ReservedPages(bytes, mmapAddr, mmapLength, image);
    ptrs := Allocate(heap, sizes);
    RunAsExpected(heap.Shape(), ptrs, sizes);
    GrantsHold(virt.memory[..], TablesOf(image), heap.Shape(), reserved, phys.View().marked, chunks, ptrs, sizes);
  }
}
