/** The Multiboot memory map: variable-size entries laid out one after another in a
    buffer of bytes (section 3.3 of the Multiboot Specification, version 0.6.96). */
module Multiboot {
  import opened Kernel

  type Byte = x: int | 0 <= x < 256

  const MEMORY_AVAILABLE := 1
  const MEMORY_RESERVED := 2
  const MEMORY_ACPI_RECLAIMABLE := 3

  /** sizeof(multiboot_memory_map_t), packed, and sizeof(multiboot_info_t). */
  const ENTRY_BYTES := 24
  const INFO_BYTES := 120

  datatype MmapEntry = MmapEntry(size: nat, addr: nat, len: nat, kind: nat)

  function ReadU32(mem: seq<Byte>, p: nat): (w: nat)
    requires p + 4 <= |mem|
    ensures w < 0x1_0000_0000
  {
    var b0: int, b1: int, b2: int, b3: int := mem[p], mem[p + 1], mem[p + 2], mem[p + 3];
    b0 + 0x100 * b1 + 0x1_0000 * b2 + 0x100_0000 * b3
  }

  function ReadU64(mem: seq<Byte>, p: nat): nat
    requires p + 8 <= |mem|
  {
    ReadU32(mem, p) + 0x1_0000_0000 * ReadU32(mem, p + 4)
  }

  /** *(multiboot_memory_map_t*) p */
  function EntryAt(mem: seq<Byte>, p: nat): MmapEntry
    requires p + ENTRY_BYTES <= |mem|
  {
    MmapEntry(ReadU32(mem, p), ReadU64(mem, p + 4), ReadU64(mem, p + 12), ReadU32(mem, p + 20))
  }

  predicate Available(e: MmapEntry) {
    e.kind == MEMORY_AVAILABLE || e.kind == MEMORY_ACPI_RECLAIMABLE
  }

  /** The bitmap ends at 4 GiB, so what it is asked to mark must too. */
  predicate Below4GiB(e: MmapEntry) {
    Available(e) || e.addr + e.len <= 0x1_0000_0000
  }

  /** Page n is unavailable on account of e. */
  predicate Covers(e: MmapEntry, n: nat) {
    !Available(e) && e.addr - e.addr % 0x1000 <= 0x1000 * n < e.addr + e.len
  }

  /** A buffer the walk can read: entries from p up to end, none of them running past the
      readable bytes or past 4 GiB. `size` does not count its own four bytes. */
  predicate WellFormed(mem: seq<Byte>, p: nat, end: nat)
    decreases end - p
  {
    p < end ==>
      && p + ENTRY_BYTES <= |mem|
      && Below4GiB(EntryAt(mem, p))
      && p + EntryAt(mem, p).size + 4 < 0x1_0000_0000
      && WellFormed(mem, p + EntryAt(mem, p).size + 4, end)
  }

  function Entries(mem: seq<Byte>, p: nat, end: nat): seq<MmapEntry>
    requires WellFormed(mem, p, end)
    decreases end - p
  {
    if p >= end then []
    else [EntryAt(mem, p)] + Entries(mem, p + EntryAt(mem, p).size + 4, end)
  }
}
