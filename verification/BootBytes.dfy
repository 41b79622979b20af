/** Boot in the machine's own terms, bytes and addresses: what is reserved, what is mapped
    where, and when boot succeeds. */
module BootBytes {
  import opened Kernel
  import opened Multiboot
  import opened MemoryMap
  import opened Paging
  import opened PreKernel
  import opened BootPaging
  import opened HeapPages
  import opened PhysSpec
  import opened PhysTheorems
  import opened EndToEnd
  import PM = PhysMem

  /** The page of byte x is one of those that [start, end) reaches into, start rounded down. */
  predicate PageHolds(x: nat, start: nat, end: nat) {
    start / 4096 * 4096 <= x / 4096 * 4096 < end
  }

  lemma PageHoldsFrame(x: nat, start: nat, end: nat)
    ensures PageHolds(x, start, end) <==> start / 0x1000 <= x / 0x1000 < PageAbove(end)
  {
  }

  /** The translation of every address after setup_paging, when the boot loader's buffers lie
      in the first 4 MiB. Byte x of the kernel image, of the text buffer, of the 120 bytes of
      the information structure and of the memory map is at x and at 0xc0000000 + x, with the
      rest of its page; no other page is mapped. */
  lemma BootTranslates(m: seq<Word>, image: Image, info: Word, mmapAddr: Word, mmapLength: Word, a: Word)
    requires IsMemory(m) && ValidImage(image) && image.kernelStart < 0xc040_0000
    requires info + 120 <= 0x40_0000 && mmapAddr < 0x40_0000 && mmapAddr + mmapLength <= 0x40_0000
    requires Checked(BootOf(image, info, mmapAddr, mmapLength))
    requires Booted(m, TablesOf(image), BootOf(image, info, mmapAddr, mmapLength))
    ensures
      var x := if a < 0xc000_0000 then a else a - 0xc000_0000;
      Translate(m, TablesOf(image).dir, a) ==
      if || PageHolds(x, image.kernelStart - 0xc000_0000, image.kernelEnd - 0xc000_0000)
         || PageHolds(x, 0xb_8000, 0xb_9000)
         || PageHolds(x, info, info + 120)
         || PageHolds(x, mmapAddr, mmapAddr + mmapLength)
      then Some(x) else None
  {
    var b := BootOf(image, info, mmapAddr, mmapLength);
    var x := if a < 0xc000_0000 then a else a - 0xc000_0000;
    PageBound(info + 120);
    PageBound(mmapAddr + mmapLength);
    FittingIsExact(m, TablesOf(image), b);
    StraightByte(a);
    WantedByte(image, info, mmapAddr, mmapLength, x);
    assert Walk(m, TablesOf(image).dir, a / 0x1000) == if Wanted(b, x / 0x1000) then Some(x / 0x1000) else None;
  }

  lemma WantedByte(image: Image, info: Word, mmapAddr: Word, mmapLength: Word, x: nat)
    requires ValidImage(image)
    ensures Wanted(BootOf(image, info, mmapAddr, mmapLength), x / 0x1000) <==>
            || PageHolds(x, image.kernelStart - 0xc000_0000, image.kernelEnd - 0xc000_0000)
            || PageHolds(x, 0xb_8000, 0xb_9000)
            || PageHolds(x, info, info + 120)
            || PageHolds(x, mmapAddr, mmapAddr + mmapLength)
  {
    LastPageFree(image);
    PageHoldsFrame(x, image.kernelStart - 0xc000_0000, image.kernelEnd - 0xc000_0000);
    PageHoldsFrame(x, 0xb_8000, 0xb_9000);
    PageHoldsFrame(x, info, info + 120);
    PageHoldsFrame(x, mmapAddr, mmapAddr + mmapLength);
  }

  lemma PageBound(end: nat)
    requires end <= 0x40_0000
    ensures PageAbove(end) <= 1024
  {
  }

  lemma StraightByte(a: Word)
    ensures
      var x := if a < 0xc000_0000 then a else a - 0xc000_0000;
      a / 0x1000 < NUM_PAGES && Straight(a / 0x1000) == x / 0x1000 && x == 0x1000 * (x / 0x1000) + a % 0x1000
  {
  }

  /** The pages no allocation may return, for a memory map written at 0xc0000000 + mmapAddr:
      those of regions not of type 1 or 3, of the kernel image, and of the text buffer. */
  lemma ReservedExactly(bytes: seq<Byte>, mmapAddr: Word, mmapLength: Word, image: Image, regions: seq<Region>, n: nat)
    requires ValidImage(image) && mmapAddr < 0x40_0000 && mmapLength == |MapBytes(regions)|
    requires forall i :: 0 <= i < |regions| ==> Markable(regions[i])
    requires LiesAt(bytes, 0xc000_0000 + mmapAddr, MapBytes(regions)) && mmapAddr + mmapLength < 0x4000_0000
    ensures MapReadable(bytes, mmapAddr, mmapLength)
    ensures n in ReservedPages(bytes, mmapAddr, mmapLength, image) <==>
            n < 0x10_0000 && Taken(regions, image.kernelStart, image.kernelEnd, n)
  {
    MarkedForMap(bytes, 0xc000_0000 + mmapAddr, regions, image.kernelStart, image.kernelEnd, n);
  }

  /** 32 pages, the first a multiple of 32 and not page 0, all of them free. */
  ghost predicate FreeChunk(reserved: set<nat>, p: nat) {
    0 < p < 0x10_0000 && p % 32 == 0 && forall k :: p <= k < p + 32 ==> k !in reserved
  }

  /** When boot succeeds: there is a memory map, the kernel and both structures start in their
      first 4 MiB, the kernel ends at least a page below 4 GiB, and the pages that are not
      reserved contain 32 chunks. */
  lemma CanBootExactly(bytes: seq<Byte>, image: Image, info: Word, hasMemMap: bool, mmapAddr: Word, mmapLength: Word,
                       chunks: set<nat>)
    requires ValidImage(image) && MapReadable(bytes, mmapAddr, mmapLength)
    requires mmapAddr < 0x40_0000 ==>
               forall p: nat :: p in chunks <==> FreeChunk(ReservedPages(bytes, mmapAddr, mmapLength, image), p)
    ensures CanBoot(bytes, image, info, hasMemMap, mmapAddr, mmapLength) <==>
            && hasMemMap && image.kernelStart < 0xc040_0000 && info < 0x40_0000 && mmapAddr < 0x40_0000
            && image.kernelEnd <= 0xffff_f000 && |chunks| >= 32
  {
    KernelExtent(image);
    LastPageFree(image);
    if mmapAddr < 0x40_0000 {
      var reserved := ReservedPages(bytes, mmapAddr, mmapLength, image);
      assert OpenGroups(reserved, ThirtyTwo) == chunks by {
        forall p: nat ensures p in OpenGroups(reserved, ThirtyTwo) <==> p in chunks {
          assert Open(reserved, ThirtyTwo, p) <==> p % 32 == 0 && forall k :: p <= k < p + 32 ==> k !in reserved;
        }
      }
    }
  }

  lemma LastPageFree(image: Image)
    requires ValidImage(image)
    ensures VirtToPhys(image.kernelStart) == image.kernelStart - 0xc000_0000
    ensures VirtToPhys(image.kernelEnd) == image.kernelEnd - 0xc000_0000
    ensures PageAbove(VirtToPhys(image.kernelEnd)) < 0x4_0000 <==> image.kernelEnd <= 0xffff_f000
  {
  }
}
