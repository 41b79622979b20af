/** The memory map as a boot loader writes it, byte by byte, read back by the kernel; and the
    pages that the kernel marks on its account. */
module MemoryMap {
  import opened Kernel
  import opened Multiboot
  import PM = PhysMem

  /** One entry as written: its fields, and the bytes that follow them if `size` says there
      are any. */
  datatype Region = Region(addr: nat, len: nat, kind: nat, extra: seq<Byte>)

  predicate ValidRegion(r: Region) {
    && r.addr < 0x1_0000_0000_0000_0000 && r.len < 0x1_0000_0000_0000_0000 && r.kind < 0x1_0000_0000
    && 20 + |r.extra| < 0x1_0000_0000
  }

  /** w as n bytes, lowest first. */
  function LittleEndian(w: nat, n: nat): (bytes: seq<Byte>)
    ensures |bytes| == n
  {
    if n == 0 then [] else [w % 256] + LittleEndian(w / 256, n - 1)
  }

  /** Four bytes for the size of what follows them, eight for the address, eight for the
      length, four for the type. */
  function RegionBytes(r: Region): (bytes: seq<Byte>)
    ensures |bytes| == 24 + |r.extra|
  {
    LittleEndian(20 + |r.extra|, 4) + LittleEndian(r.addr, 8) + LittleEndian(r.len, 8) + LittleEndian(r.kind, 4)
    + r.extra
  }

  function MapBytes(regions: seq<Region>): seq<Byte> {
    if regions == [] then [] else RegionBytes(regions[0]) + MapBytes(regions[1..])
  }

  /** The bytes of the map lie in memory from p on. */
  predicate LiesAt(mem: seq<Byte>, p: nat, bytes: seq<Byte>) {
    p + |bytes| <= |mem| && mem[p..p + |bytes|] == bytes
  }

  // ---- reading numbers ----

  /** A part of what lies at p. */
  lemma Within(mem: seq<Byte>, p: nat, before: seq<Byte>, bytes: seq<Byte>, after: seq<Byte>)
    requires LiesAt(mem, p, before + bytes + after)
    ensures LiesAt(mem, p + |before|, bytes)
  {
    var all := before + bytes + after;
    var q := p + |before|;
    forall k | 0 <= k < |bytes| ensures mem[q..q + |bytes|][k] == bytes[k] {
      assert mem[p..p + |all|][|before| + k] == all[|before| + k] == bytes[k];
    }
  }

  function FromBytes(b: seq<Byte>): nat {
    if b == [] then 0 else b[0] + 256 * FromBytes(b[1..])
  }

  function Power256(n: nat): nat {
    if n == 0 then 1 else 256 * Power256(n - 1)
  }

  lemma {:induction false} BytesReadBack(w: nat, n: nat)
    requires w < Power256(n)
    ensures FromBytes(LittleEndian(w, n)) == w
  {
    if n > 0 {
      BytesReadBack(w / 256, n - 1);
      assert LittleEndian(w, n)[1..] == LittleEndian(w / 256, n - 1);
    }
  }

  lemma Powers()
    ensures Power256(4) == 0x1_0000_0000 && Power256(8) == 0x1_0000_0000_0000_0000
  {
  }

  lemma FourBytes(b: seq<Byte>)
    requires |b| >= 4
    ensures FromBytes(b) == b[0] + 256 * (b[1] + 256 * (b[2] + 256 * (b[3] + 256 * FromBytes(b[4..]))))
  {
    assert b[1..][1..] == b[2..] && b[2..][1..] == b[3..] && b[3..][1..] == b[4..];
  }

  lemma FourAt(mem: seq<Byte>, p: nat, b: seq<Byte>)
    requires LiesAt(mem, p, b) && |b| >= 4
    ensures mem[p] == b[0] && mem[p + 1] == b[1] && mem[p + 2] == b[2] && mem[p + 3] == b[3]
  {
    var s := mem[p..p + |b|];
    assert s[0] == mem[p] && s[1] == mem[p + 1] && s[2] == mem[p + 2] && s[3] == mem[p + 3];
  }

  lemma Read32(mem: seq<Byte>, p: nat, w: nat)
    requires w < 0x1_0000_0000 && LiesAt(mem, p, LittleEndian(w, 4))
    ensures ReadU32(mem, p) == w
  {
    var b := LittleEndian(w, 4);
    Powers();
    BytesReadBack(w, 4);
    FourBytes(b);
    FourAt(mem, p, b);
  }

  lemma Read64(mem: seq<Byte>, p: nat, w: nat)
    requires w < 0x1_0000_0000_0000_0000 && LiesAt(mem, p, LittleEndian(w, 8))
    ensures ReadU64(mem, p) == w
  {
    var b := LittleEndian(w, 8);
    Powers();
    BytesReadBack(w, 8);
    FourBytes(b);
    FourBytes(b[4..]);
    assert b[4..][4..] == [];
    FourAt(mem, p, b);
    assert b == b[..4] + b[4..] + [];
    Within(mem, p, b[..4], b[4..], []);
    FourAt(mem, p + 4, b[4..]);
  }

  // ---- reading entries ----

  /** Reading an entry where it was written gives its fields. */
  lemma EntryReadBack(mem: seq<Byte>, p: nat, r: Region)
    requires ValidRegion(r) && LiesAt(mem, p, RegionBytes(r))
    ensures EntryAt(mem, p) == MmapEntry(20 + |r.extra|, r.addr, r.len, r.kind)
  {
    var size, addr := LittleEndian(20 + |r.extra|, 4), LittleEndian(r.addr, 8);
    var len, kind := LittleEndian(r.len, 8), LittleEndian(r.kind, 4);
    var all := RegionBytes(r);
    assert all == [] + size + (addr + len + kind + r.extra);
    Within(mem, p, [], size, addr + len + kind + r.extra);
    assert all == size + addr + (len + kind + r.extra);
    Within(mem, p, size, addr, len + kind + r.extra);
    assert all == (size + addr) + len + (kind + r.extra);
    Within(mem, p, size + addr, len, kind + r.extra);
    assert all == (size + addr + len) + kind + r.extra;
    Within(mem, p, size + addr + len, kind, r.extra);
    Read32(mem, p, 20 + |r.extra|);
    Read64(mem, p + 4, r.addr);
    Read64(mem, p + 12, r.len);
    Read32(mem, p + 20, r.kind);
  }

  /** What the kernel makes of a list of regions. */
  function AsEntries(regions: seq<Region>): (entries: seq<MmapEntry>)
    ensures |entries| == |regions|
    ensures forall i :: 0 <= i < |regions| ==>
              entries[i] == MmapEntry(20 + |regions[i].extra|, regions[i].addr, regions[i].len, regions[i].kind)
  {
    seq(|regions|, i requires 0 <= i < |regions| =>
      MmapEntry(20 + |regions[i].extra|, regions[i].addr, regions[i].len, regions[i].kind))
  }

  /** What the kernel can be asked to mark: all of it below 4 GiB, unless it is not marked. */
  predicate Markable(r: Region) {
    ValidRegion(r) && (r.kind == 1 || r.kind == 3 || r.addr + r.len <= 0x1_0000_0000)
  }

  /** Wherever the map lies below 4 GiB, the kernel's walk over it ends, and finds the regions
      in order. */
  lemma {:induction false} MapReadBack(mem: seq<Byte>, p: nat, end: nat, regions: seq<Region>)
    requires forall i :: 0 <= i < |regions| ==> Markable(regions[i])
    requires LiesAt(mem, p, MapBytes(regions)) && end == p + |MapBytes(regions)| < 0x1_0000_0000
    ensures WellFormed(mem, p, end) && Entries(mem, p, end) == AsEntries(regions)
    decreases |regions|
  {
    if regions != [] {
      var r, rest := regions[0], regions[1..];
      var next := p + |RegionBytes(r)|;
      FirstRegion(mem, p, regions);
      EntryReadBack(mem, p, r);
      assert next == p + EntryAt(mem, p).size + 4;
      MapReadBack(mem, next, end, rest);
      WalkStep(mem, p, next, end);
      FirstEntry(regions);
    }
  }

  lemma FirstRegion(mem: seq<Byte>, p: nat, regions: seq<Region>)
    requires regions != [] && LiesAt(mem, p, MapBytes(regions))
    ensures
      var first, rest := RegionBytes(regions[0]), MapBytes(regions[1..]);
      && LiesAt(mem, p, first) && LiesAt(mem, p + |first|, rest)
      && |MapBytes(regions)| == |first| + |rest|
  {
    var first, rest := RegionBytes(regions[0]), MapBytes(regions[1..]);
    assert MapBytes(regions) == [] + first + rest && MapBytes(regions) == first + rest + [];
    Within(mem, p, [], first, rest);
    Within(mem, p, first, rest, []);
  }

  lemma FirstEntry(regions: seq<Region>)
    requires regions != []
    ensures var r := regions[0];
            AsEntries(regions) == [MmapEntry(20 + |r.extra|, r.addr, r.len, r.kind)] + AsEntries(regions[1..])
  {
  }

  /** One step of the kernel's walk. */
  lemma WalkStep(mem: seq<Byte>, p: nat, next: nat, end: nat)
    requires p < end && p + 24 <= |mem| && Below4GiB(EntryAt(mem, p))
    requires next == p + EntryAt(mem, p).size + 4 < 0x1_0000_0000 && WellFormed(mem, next, end)
    ensures WellFormed(mem, p, end)
    ensures Entries(mem, p, end) == [EntryAt(mem, p)] + Entries(mem, next, end)
  {
  }

  // ---- marking ----

  /** A region makes page n unavailable: it is not of type 1 (available) or 3 (ACPI tables,
      reclaimed), and has a byte in it, counted from the start of its first page. */
  ghost predicate Blocks(r: Region, n: nat) {
    r.kind != 1 && r.kind != 3 && r.addr / 4096 * 4096 <= 4096 * n < r.addr + r.len
  }

  /** The pages that are marked: those a region blocks, those of the kernel image, counted
      from the start of its first page, and page 0xb8, the text buffer at 0xb8000. */
  ghost predicate Taken(regions: seq<Region>, kernelStart: Word, kernelEnd: Word, n: nat) {
    || (exists i :: 0 <= i < |regions| && Blocks(regions[i], n))
    || (kernelStart - 0xc000_0000) / 4096 * 4096 <= 4096 * n < kernelEnd - 0xc000_0000
    || n == 0xb8
  }

  /** What the kernel takes to be unavailable, for such a map. */
  lemma MarkedForMap(mem: seq<Byte>, p: nat, regions: seq<Region>, kernelStart: Word, kernelEnd: Word, n: nat)
    requires forall i :: 0 <= i < |regions| ==> Markable(regions[i])
    requires LiesAt(mem, p, MapBytes(regions)) && p + |MapBytes(regions)| < 0x1_0000_0000
    requires 0xc000_0000 <= kernelStart <= kernelEnd
    ensures WellFormed(mem, p, p + |MapBytes(regions)|)
    ensures PM.Unavailable(Entries(mem, p, p + |MapBytes(regions)|), kernelStart, kernelEnd, n) <==>
            Taken(regions, kernelStart, kernelEnd, n)
  {
    MapReadBack(mem, p, p + |MapBytes(regions)|, regions);
    MarkedForRegions(regions, kernelStart, kernelEnd, n);
  }

  lemma MarkedForRegions(regions: seq<Region>, kernelStart: Word, kernelEnd: Word, n: nat)
    requires 0xc000_0000 <= kernelStart <= kernelEnd
    ensures PM.Unavailable(AsEntries(regions), kernelStart, kernelEnd, n) <==>
            Taken(regions, kernelStart, kernelEnd, n)
  {
    RegionsBlock(regions, n);
    KernelBlocks(kernelStart, kernelEnd, n);
    VgaBlocks(n);
  }

  lemma RegionsBlock(regions: seq<Region>, n: nat)
    ensures PM.CoveredBy(AsEntries(regions), n) <==> exists i :: 0 <= i < |regions| && Blocks(regions[i], n)
  {
    var entries := AsEntries(regions);
    forall i | 0 <= i < |regions| ensures Covers(entries[i], n) <==> Blocks(regions[i], n) {
      PageStart(regions[i].addr);
    }
    if i :| 0 <= i < |regions| && Blocks(regions[i], n) {
      assert Covers(entries[i], n);
    }
  }

  lemma PageStart(addr: nat)
    ensures addr - addr % 0x1000 == addr / 4096 * 4096
  {
  }

  lemma VgaBlocks(n: nat)
    ensures Covers(PM.VgaEntry(), n) <==> n == 0xb8
  {
  }

  lemma KernelBlocks(kernelStart: Word, kernelEnd: Word, n: nat)
    requires 0xc000_0000 <= kernelStart <= kernelEnd
    ensures Covers(PM.KernelEntry(kernelStart, kernelEnd), n) <==>
            (kernelStart - 0xc000_0000) / 4096 * 4096 <= 4096 * n < kernelEnd - 0xc000_0000
  {
    PageStart(kernelStart - 0xc000_0000);
  }
}
