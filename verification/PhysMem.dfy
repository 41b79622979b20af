/** phys_mem_allocator.cpp: the bitmap of physical pages as the kernel keeps it, a fixed
    array of bytes updated in place, and the three allocation scans over it. */
module PhysMem {
  import opened Kernel
  import opened Bitmap
  import opened PhysSpec
  import opened PhysScan
  import opened PhysBits
  import opened Multiboot
  import Cstring

  // ---- the memory map ----

  function KernelEntry(kernelStart: Word, kernelEnd: Word): (e: MmapEntry)
    requires KERNEL_BASE <= kernelStart <= kernelEnd
    ensures Below4GiB(e)
  {
    MmapEntry(0, VirtToPhys(kernelStart), kernelEnd - kernelStart, MEMORY_RESERVED)
  }

  function VgaEntry(): (e: MmapEntry)
    ensures Below4GiB(e)
  {
    MmapEntry(0, TERM_BUFFER, TERM_BUFFER_LEN, MEMORY_RESERVED)
  }

  ghost predicate CoveredBy(entries: seq<MmapEntry>, n: nat) {
    exists i :: 0 <= i < |entries| && Covers(entries[i], n)
  }

  lemma CoveredBySnoc(entries: seq<MmapEntry>, e: MmapEntry, n: nat)
    ensures CoveredBy(entries + [e], n) <==> CoveredBy(entries, n) || Covers(e, n)
  {
    if Covers(e, n) {
      assert (entries + [e])[|entries|] == e;
    }
    if i :| 0 <= i < |entries| && Covers(entries[i], n) {
      assert (entries + [e])[i] == entries[i];
    }
  }

  lemma OneMoreEntry(all: seq<MmapEntry>, done: nat)
    requires done < |all|
    ensures forall n :: CoveredBy(all[..done + 1], n) <==> CoveredBy(all[..done], n) || Covers(all[done], n)
  {
    assert all[..done + 1] == all[..done] + [all[done]];
    forall n ensures CoveredBy(all[..done + 1], n) <==> CoveredBy(all[..done], n) || Covers(all[done], n) {
      CoveredBySnoc(all[..done], all[done], n);
    }
  }

  /** The pages no allocation may ever return. */
  ghost predicate Unavailable(entries: seq<MmapEntry>, kernelStart: Word, kernelEnd: Word, n: nat)
    requires KERNEL_BASE <= kernelStart <= kernelEnd
  {
    CoveredBy(entries, n) || Covers(KernelEntry(kernelStart, kernelEnd), n) || Covers(VgaEntry(), n)
  }

  /** Marks the pages of one memory map entry, if it is not available memory. */
  method MarkUnavailPages(mmap: MmapEntry, memBitmap: array<bv8>)
    requires memBitmap.Length == NUM_BYTES && Below4GiB(mmap)
    modifies memBitmap
    ensures forall n :: 0 <= n < NUM_PAGES ==>
              (Marked(memBitmap[..], n) <==> Marked(old(memBitmap[..]), n) || Covers(mmap, n))
  {
    if Available(mmap) {
      return;
    }
    var addr := mmap.addr - mmap.addr % 0x1000;
    ghost var first := addr / 0x1000;
    ghost var next := first;
    while addr < mmap.addr + mmap.len
      invariant addr == 0x1000 * next && first <= next
      invariant first < next ==> 0x1000 * (next - 1) < mmap.addr + mmap.len
      invariant forall n :: 0 <= n < NUM_PAGES ==>
                  (Marked(memBitmap[..], n) <==> Marked(old(memBitmap[..]), n) || first <= n < next)
      decreases mmap.addr + mmap.len - addr
    {
      var i := addr / 0x1000;
      ghost var before := memBitmap[..];
      memBitmap[i / 8] := memBitmap[i / 8] | Mask(i % 8);
      assert memBitmap[..] == Mark(before, i);
      forall n | 0 <= n < NUM_PAGES ensures Marked(memBitmap[..], n) <==> Marked(before, n) || n == i {
        MarkSets(before, i, n);
      }
      addr := addr + 0x1000;
      next := next + 1;
    }
    assert forall n: nat :: Covers(mmap, n) <==> first <= n < next;
  }

  class PhysMemAllocator {
    const memBitmap: array<bv8>
    var lastAlloc: nat

    constructor ()
      ensures fresh(memBitmap) && memBitmap.Length == NUM_BYTES && lastAlloc == 0
    {
      memBitmap := new bv8[NUM_BYTES];
      lastAlloc := 0;
    }

    ghost predicate Valid()
      reads this
    {
      memBitmap.Length == NUM_BYTES && lastAlloc < NUM_PAGES
    }

    /** The abstract state: marked pages and hint. */
    ghost function View(): (s: State)
      requires Valid()
      reads this, memBitmap
      ensures PhysSpec.Valid(s)
    {
      StateOf(memBitmap[..], lastAlloc)
    }

    /** Rebuilds the bitmap from the boot loader's memory map, then marks the kernel image
        and the video text buffer. The hint is left alone. */
    method InitMmap(mem: seq<Byte>, mmapLength: Word, mmapAddr: Word, kernelStart: Word, kernelEnd: Word)
      requires Valid()
      requires mmapAddr + mmapLength < WORD_LIMIT && WellFormed(mem, mmapAddr, mmapAddr + mmapLength)
      requires KERNEL_BASE <= kernelStart <= kernelEnd
      modifies memBitmap
      ensures Valid()
      ensures var entries := Entries(mem, mmapAddr, mmapAddr + mmapLength);
              forall n: nat :: n in View().marked <==> n < NUM_PAGES && Unavailable(entries, kernelStart, kernelEnd, n)
    {
      Cstring.Memset(memBitmap, 0);
      forall n | 0 <= n < NUM_PAGES ensures !Marked(memBitmap[..], n) {
        EmptyByte(memBitmap[n / 8]);
      }
      MarkEntries(mem, mmapLength, mmapAddr);
      MarkUnavailPages(KernelEntry(kernelStart, kernelEnd), memBitmap);
      MarkUnavailPages(VgaEntry(), memBitmap);
    }

    /** The walk over the boot loader's entries. */
    method MarkEntries(mem: seq<Byte>, mmapLength: Word, mmapAddr: Word)
      requires Valid()
      requires mmapAddr + mmapLength < WORD_LIMIT && WellFormed(mem, mmapAddr, mmapAddr + mmapLength)
      requires forall n :: 0 <= n < NUM_PAGES ==> !Marked(memBitmap[..], n)
      modifies memBitmap
      ensures forall n :: 0 <= n < NUM_PAGES ==>
                (Marked(memBitmap[..], n) <==> CoveredBy(Entries(mem, mmapAddr, mmapAddr + mmapLength), n))
    {
      ghost var end := mmapAddr + mmapLength;
      ghost var all := Entries(mem, mmapAddr, end);
      ghost var done := 0;
      var mmap := mmapAddr;
      while mmap < mmapAddr + mmapLength
        invariant WellFormed(mem, mmap, end)
        invariant done <= |all| && all[done..] == Entries(mem, mmap, end)
        invariant forall n :: 0 <= n < NUM_PAGES ==>
                    (Marked(memBitmap[..], n) <==> CoveredBy(all[..done], n))
        decreases end - mmap
      {
        var entry := EntryAt(mem, mmap);
        assert all[done] == entry;
        MarkUnavailPages(entry, memBitmap);
        OneMoreEntry(all, done);
        done := done + 1;
        mmap := mmap + entry.size + 4;
      }
      assert all[..done] == all;
    }

    method TryAlloc1(i: nat) returns (out: Word)
      requires Valid() && i < NUM_BYTES
      modifies this`lastAlloc, memBitmap
      ensures Valid()
      ensures Probed(old(View()), View(), One, 8 * i, out)
    {
      ghost var before := memBitmap[..];
      var bitmap := memBitmap[i];
      if bitmap < 0xff {
        var j := LowestClearBit(bitmap);
        memBitmap[i] := memBitmap[i] | Mask(j);
        lastAlloc := 8 * i + j;
        out := PageAddr(8 * i + j);
        assert memBitmap[..] == before[i := before[i] | Mask(j)];
        ProbeOneTaken(before, old(lastAlloc), i, j);
      } else {
        out := 0;
        ProbeOneFull(before, old(lastAlloc), i);
      }
    }

    method TryAlloc8(i: nat) returns (out: Word)
      requires Valid() && i < NUM_BYTES
      modifies this`lastAlloc, memBitmap
      ensures Valid()
      ensures Probed(old(View()), View(), Eight, 8 * i, out)
    {
      ghost var before := memBitmap[..];
      var bitmap := memBitmap[i];
      if bitmap == 0 {
        memBitmap[i] := 0xff;
        lastAlloc := 8 * i;
        out := PageAddr(8 * i);
        assert memBitmap[..] == before[i := 0xff];
        ProbeEightTaken(before, old(lastAlloc), i);
      } else {
        out := 0;
        ProbeEightRefused(before, old(lastAlloc), i);
      }
    }

    /** ((uint32_t*)mem_bitmap)[i / 4] = 0xffffffff */
    method StoreFullWord(i: nat)
      requires Valid() && i < NUM_BYTES && i % 4 == 0
      modifies memBitmap
      ensures memBitmap[..] == StoreWord(old(memBitmap[..]), i / 4, 0xffff_ffff)
    {
      FillWord(memBitmap[..], i / 4);
      memBitmap[i], memBitmap[i + 1], memBitmap[i + 2], memBitmap[i + 3] := 0xff, 0xff, 0xff, 0xff;
      assert memBitmap[..] == WithBytesFilled(old(memBitmap[..]), i / 4);
    }

    method TryAlloc32(i: nat) returns (out: Word)
      requires Valid() && i < NUM_BYTES && i % 4 == 0
      modifies this`lastAlloc, memBitmap
      ensures Valid()
      ensures Probed(old(View()), View(), ThirtyTwo, 8 * i, out)
    {
      ghost var before := memBitmap[..];
      ghost var k := i / 4;
      var bitmap := WordAt(memBitmap[..], i / 4);
      if bitmap == 0 {
        StoreFullWord(i);
        lastAlloc := 8 * i;
        out := PageAddr(8 * i);
        ProbeThirtyTwoTaken(before, old(lastAlloc), k);
      } else {
        out := 0;
        ProbeThirtyTwoRefused(before, old(lastAlloc), k);
      }
    }

    /** The next free page from the hint on, wrapping round. */
    method Alloc1() returns (out: Word)
      requires Valid()
      modifies this`lastAlloc, memBitmap
      ensures Valid()
      ensures Returns(old(View()), View(), One, out)
    {
      ghost var s0 := View();
      var i := lastAlloc / 8;
      while i < NUM_BYTES
        invariant Valid() && i <= NUM_BYTES
        invariant FirstLoop(s0, View(), One, 8 * i)
      {
        ghost var s := View();
        out := TryAlloc1(i);
        FirstLoopStep(s0, s, View(), One, 8 * i, out);
        if out != 0 {
          return;
        }
        i := i + 1;
      }
      FirstLoopWraps(s0, View(), One);
      i := 0;
      while i < lastAlloc / 8
        invariant Valid()
        invariant Wrapped(s0, View(), One, 8 * i)
        decreases NUM_BYTES - i
      {
        ghost var s := View();
        out := TryAlloc1(i);
        WrappedStep(s0, s, View(), One, 8 * i, out);
        if out != 0 {
          return;
        }
        i := i + 1;
      }
      WrappedDone(s0, View(), One, 8 * i);
      return 0;
    }

    /** The next wholly free byte, eight pages. */
    method Alloc8() returns (out: Word)
      requires Valid()
      modifies this`lastAlloc, memBitmap
      ensures Valid()
      ensures Returns(old(View()), View(), Eight, out)
    {
      ghost var s0 := View();
      var i := lastAlloc / 8;
      while i < NUM_BYTES
        invariant Valid() && i <= NUM_BYTES
        invariant FirstLoop(s0, View(), Eight, 8 * i)
      {
        ghost var s := View();
        out := TryAlloc8(i);
        FirstLoopStep(s0, s, View(), Eight, 8 * i, out);
        if out != 0 {
          return;
        }
        i := i + 1;
      }
      FirstLoopWraps(s0, View(), Eight);
      i := 0;
      while i < lastAlloc / 8
        invariant Valid()
        invariant Wrapped(s0, View(), Eight, 8 * i)
        decreases NUM_BYTES - i
      {
        ghost var s := View();
        out := TryAlloc8(i);
        WrappedStep(s0, s, View(), Eight, 8 * i, out);
        if out != 0 {
          return;
        }
        i := i + 1;
      }
      WrappedDone(s0, View(), Eight, 8 * i);
      return 0;
    }

    /** The next wholly free word, thirty-two pages. The bound of the second loop is fixed
        before the first. */
    method Alloc32() returns (out: Word)
      requires Valid()
      modifies this`lastAlloc, memBitmap
      ensures Valid()
      ensures Returns(old(View()), View(), ThirtyTwo, out)
    {
      ghost var s0 := View();
      var lastAllocB32 := lastAlloc / 8 - lastAlloc / 8 % 4;
      WordStart(lastAlloc);
      var i := lastAllocB32;
      while i < NUM_BYTES
        invariant Valid() && i <= NUM_BYTES && i % 4 == 0
        invariant FirstLoop(s0, View(), ThirtyTwo, 8 * i)
      {
        ghost var s := View();
        NextWord(i, NUM_BYTES);
        out := TryAlloc32(i);
        FirstLoopStep(s0, s, View(), ThirtyTwo, 8 * i, out);
        if out != 0 {
          return;
        }
        i := i + 4;
      }
      FirstLoopWraps(s0, View(), ThirtyTwo);
      out := Rescan32(lastAllocB32, s0);
    }

    /** The second loop of Alloc32. */
    method Rescan32(lastAllocB32: nat, ghost s0: State) returns (out: Word)
      requires Valid() && PhysSpec.Valid(s0) && Wrapped(s0, View(), ThirtyTwo, 0)
      requires 8 * lastAllocB32 == Start(ThirtyTwo, s0.hint) && lastAllocB32 % 4 == 0
      modifies this`lastAlloc, memBitmap
      ensures Valid()
      ensures Returns(s0, View(), ThirtyTwo, out)
    {
      var i := 0;
      while i < lastAllocB32
        invariant Valid() && i % 4 == 0
        invariant Wrapped(s0, View(), ThirtyTwo, 8 * i)
      {
        ghost var s := View();
        NextWord(i, lastAllocB32);
        out := TryAlloc32(i);
        WrappedStep(s0, s, View(), ThirtyTwo, 8 * i, out);
        if out != 0 {
          return;
        }
        i := i + 4;
      }
      WrappedDone(s0, View(), ThirtyTwo, 8 * i);
      return 0;
    }
  }
}
