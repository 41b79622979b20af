/** What early boot leaves in the page tables, and the translation that results: the lemmas
    behind setup_paging in pre_kernel.cpp. */
module BootPaging {
  import opened Kernel
  import opened Paging

  /** A slot is an entry of the 1024 kernel tables taken as one long array: slot
      1024 * k + j is entry j of table k. What is in the tables is a map from slots to
      frames; slots outside it are 0. */
  type Slots = map<nat, nat>

  ghost predicate FramesValid(c: Slots) {
    forall s :: s in c ==> c[s] < NUM_PAGES
  }

  ghost predicate TablesAre(m: seq<Word>, t: Tables, c: Slots)
    requires IsMemory(m) && Placed(t) && FramesValid(c)
  {
    forall f, j :: t.base <= f < t.base + 1024 && 0 <= j < 1024 ==>
      At(m, f, j) == var s := 1024 * (f - t.base) + j; if s in c then Entry(c[s]) else 0
  }

  /** The directory once blocks ident .. last have been entered, at the bottom and again in
      the high half, with consecutive tables. */
  ghost predicate DirectoryIs(m: seq<Word>, t: Tables, ident: nat, last: nat)
    requires IsMemory(m) && Placed(t) && ident <= last < 256
  {
    forall i :: 0 <= i < 1024 ==> Pde(m, t, i) == BootEntry(t, ident, last, i)
  }

  function BootEntry(t: Tables, ident: nat, last: nat, i: nat): Word
    requires Placed(t) && ident <= last < 256
  {
    if ident <= i <= last then Entry(t.base + i - ident)
    else if HIGH_INDEX + ident <= i <= HIGH_INDEX + last then Entry(t.base + i - HIGH_INDEX - ident)
    else 0
  }

  /** Zeroed .bss: an empty directory and empty tables. */
  ghost predicate AllZero(m: seq<Word>, t: Tables)
    requires IsMemory(m) && Placed(t)
  {
    && (forall i :: 0 <= i < 1024 ==> Pde(m, t, i) == 0)
    && TablesAre(m, t, map[])
  }

  // ---- single writes ----

  lemma WriteSlot(m: seq<Word>, t: Tables, c: Slots, k: nat, j: nat, f: nat)
    requires IsMemory(m) && Placed(t) && FramesValid(c) && TablesAre(m, t, c)
    requires k < 1024 && j < 1024 && f < NUM_PAGES
    ensures TablesAre(Set(m, t.base + k, j, Entry(f)), t, c[1024 * k + j := f])
    ensures forall i :: 0 <= i < 1024 ==> Pde(Set(m, t.base + k, j, Entry(f)), t, i) == Pde(m, t, i)
  {
    SetOther(m, t.base + k, j, Entry(f));
  }

  lemma WriteDirectory(m: seq<Word>, t: Tables, c: Slots, i: nat, e: Word)
    requires IsMemory(m) && Placed(t) && FramesValid(c) && TablesAre(m, t, c) && i < 1024
    ensures TablesAre(Set(m, t.dir, i, e), t, c)
    ensures forall k :: 0 <= k < 1024 ==> Pde(Set(m, t.dir, i, e), t, k) == if k == i then e else Pde(m, t, k)
  {
    SetOther(m, t.dir, i, e);
  }

  /** Entering block `next` at the bottom and in the high half. */
  ghost function EnterBlock(m: seq<Word>, t: Tables, ident: nat, next: nat): (m': seq<Word>)
    requires IsMemory(m) && Placed(t) && ident <= next < 256
    ensures IsMemory(m')
  {
    var e := Entry(t.base + next - ident);
    Set(Set(m, t.dir, next, e), t.dir, HIGH_INDEX + next, e)
  }

  lemma EnterFirst(m: seq<Word>, t: Tables, ident: nat)
    requires IsMemory(m) && Placed(t) && ident < 256 && AllZero(m, t)
    ensures DirectoryIs(EnterBlock(m, t, ident, ident), t, ident, ident)
    ensures TablesAre(EnterBlock(m, t, ident, ident), t, map[])
  {
    var e := Entry(t.base);
    WriteDirectory(m, t, map[], ident, e);
    WriteDirectory(Set(m, t.dir, ident, e), t, map[], HIGH_INDEX + ident, e);
  }

  lemma EnterNext(m: seq<Word>, t: Tables, c: Slots, ident: nat, last: nat)
    requires IsMemory(m) && Placed(t) && FramesValid(c) && TablesAre(m, t, c)
    requires ident <= last < 255 && DirectoryIs(m, t, ident, last)
    ensures DirectoryIs(EnterBlock(m, t, ident, last + 1), t, ident, last + 1)
    ensures TablesAre(EnterBlock(m, t, ident, last + 1), t, c)
  {
    var e := Entry(t.base + last + 1 - ident);
    WriteDirectory(m, t, c, last + 1, e);
    WriteDirectory(Set(m, t.dir, last + 1, e), t, c, HIGH_INDEX + last + 1, e);
  }

  // ---- the contents as a whole ----

  /** Frames lo .. hi - 1, each entered in the slot of its own number, less 1024 * ident. */
  ghost function KernelSlots(ident: nat, lo: nat, hi: nat): (c: Slots)
    requires 1024 * ident <= lo && hi <= NUM_PAGES
    ensures FramesValid(c)
    ensures forall s: nat :: s in c <==> lo <= s + 1024 * ident < hi
    ensures forall s :: s in c ==> c[s] == s + 1024 * ident
    decreases hi
  {
    if hi <= lo then map[]
    else KernelSlots(ident, lo, hi - 1)[hi - 1 - 1024 * ident := hi - 1]
  }

  /** Frames lo .. hi - 1, all entered in table 0: the slot is the frame's number modulo
      1024, in the order they are written. */
  ghost function BufferSlots(c: Slots, lo: nat, hi: nat): (c': Slots)
    requires FramesValid(c) && hi <= NUM_PAGES
    ensures FramesValid(c')
    decreases hi
  {
    if hi <= lo then c else BufferSlots(c, lo, hi - 1)[(hi - 1) % 1024 := hi - 1]
  }

  /** The frames early boot maps: the kernel image, the VGA buffer, the Multiboot
      information structure and the memory map buffer, as half-open ranges. */
  datatype Boot = Boot(kernelLo: nat, kernelHi: nat, infoLo: nat, infoHi: nat, mmapLo: nat, mmapHi: nat)

  const VGA_FRAME := 0xB8

  predicate Wanted(b: Boot, f: nat) {
    || b.kernelLo <= f < b.kernelHi
    || f == VGA_FRAME
    || b.infoLo <= f < b.infoHi
    || b.mmapLo <= f < b.mmapHi
  }

  /** What the checks in setup_paging let through: everything starts in the first 4 MiB,
      the kernel ends below 1 GiB, and the information structure takes less than a page. */
  predicate Checked(b: Boot) {
    && b.kernelLo < 1024 && b.kernelLo <= b.kernelHi <= 0x4_0000
    && b.infoLo < 1024 && b.infoLo < b.infoHi <= b.infoLo + 2
    && b.mmapLo < 1024 && b.mmapLo <= b.mmapHi <= NUM_PAGES
  }

  ghost function BootSlots(b: Boot): (c: Slots)
    requires Checked(b)
    ensures FramesValid(c)
  {
    BufferSlots(BufferSlots(KernelSlots(0, b.kernelLo, b.kernelHi)[VGA_FRAME := VGA_FRAME], b.infoLo, b.infoHi),
                b.mmapLo, b.mmapHi)
  }

  /** The last block entered in the directory. */
  function LastBlock(b: Boot): (i: nat)
    requires Checked(b)
    ensures i < 256
  {
    if b.kernelLo < b.kernelHi then (b.kernelHi - 1) / 1024 else 0
  }

  /** The state setup_paging leaves. */
  ghost predicate Booted(m: seq<Word>, t: Tables, b: Boot)
    requires IsMemory(m) && Placed(t) && Checked(b)
  {
    DirectoryIs(m, t, 0, LastBlock(b)) && TablesAre(m, t, BootSlots(b))
  }

  /** The frame a page should have: itself, counted from KERNEL_BASE in the high half. */
  function Straight(p: nat): nat {
    if p < HIGH_PAGE then p else p - HIGH_PAGE
  }

  /** v and KERNEL_BASE + v both give v for every wanted page, and nothing else is mapped. */
  ghost predicate MapsExactly(m: seq<Word>, t: Tables, b: Boot)
    requires IsMemory(m) && Placed(t)
  {
    forall p :: 0 <= p < NUM_PAGES ==>
      Walk(m, t.dir, p) == if Wanted(b, Straight(p)) then Some(Straight(p)) else None
  }

  lemma BootWalk(m: seq<Word>, t: Tables, last: nat, c: Slots, p: nat)
    requires IsMemory(m) && Placed(t) && FramesValid(c) && last < 256 && p < NUM_PAGES
    requires DirectoryIs(m, t, 0, last) && TablesAre(m, t, c)
    ensures
      var q := Straight(p);
      Walk(m, t.dir, p) == if q / 1024 <= last && q in c then Some(c[q]) else None
  {
    var q := Straight(p);
    var i := p / 1024;
    assert Pde(m, t, i) == BootEntry(t, 0, last, i);
    if q / 1024 <= last {
      assert Frame(Pde(m, t, i)) == t.base + q / 1024;
      assert 1024 * (q / 1024) + p % 1024 == q;
    }
  }

  /** Inside the first 4 MiB a buffer's frames go to their own slots. */
  lemma {:induction false} BufferInside(c: Slots, lo: nat, hi: nat, s: nat)
    requires FramesValid(c) && hi <= 1024
    ensures s in BufferSlots(c, lo, hi) <==> s in c || lo <= s < hi
    ensures s in BufferSlots(c, lo, hi) ==> BufferSlots(c, lo, hi)[s] == if lo <= s < hi then s else c[s]
    decreases hi
  {
    if lo < hi {
      BufferInside(c, lo, hi - 1, s);
    }
  }

  /** Beyond it, slot 0 is left holding a frame other than 0. */
  lemma {:induction false} BufferBeyond(c: Slots, lo: nat, hi: nat)
    requires FramesValid(c) && lo < 1024 < hi <= NUM_PAGES
    ensures 0 in BufferSlots(c, lo, hi) && BufferSlots(c, lo, hi)[0] >= 1024
    decreases hi
  {
    if hi > 1025 {
      BufferBeyond(c, lo, hi - 1);
    }
  }

  /** Both buffers inside the first 4 MiB: the translation is exactly what was wanted. */
  lemma FittingIsExact(m: seq<Word>, t: Tables, b: Boot)
    requires IsMemory(m) && Placed(t) && Checked(b) && Booted(m, t, b)
    requires b.infoHi <= 1024 && b.mmapHi <= 1024
    ensures MapsExactly(m, t, b)
  {
    var c0 := KernelSlots(0, b.kernelLo, b.kernelHi)[VGA_FRAME := VGA_FRAME];
    var c1 := BufferSlots(c0, b.infoLo, b.infoHi);
    forall p | 0 <= p < NUM_PAGES
      ensures Walk(m, t.dir, p) == if Wanted(b, Straight(p)) then Some(Straight(p)) else None
    {
      var q := Straight(p);
      BootWalk(m, t, LastBlock(b), BootSlots(b), p);
      BufferInside(c0, b.infoLo, b.infoHi, q);
      BufferInside(c1, b.mmapLo, b.mmapHi, q);
    }
  }

  /** The information structure runs over into frame 1024: slot 0 then holds frame 1024,
      unless the memory map buffer, written last, puts frame 0 back. */
  lemma InfoBeyond(b: Boot, s: nat)
    requires Checked(b) && b.infoHi > 1024 && b.mmapHi <= 1024
    ensures
      var c := BootSlots(b);
      && (s in c <==> b.kernelLo <= s < b.kernelHi || s == VGA_FRAME || b.infoLo <= s < 1024 || s == 0
                      || b.mmapLo <= s < b.mmapHi)
      && (s in c ==> c[s] == if s == 0 && !(b.mmapLo <= s < b.mmapHi) then 1024 else s)
  {
    var c0 := KernelSlots(0, b.kernelLo, b.kernelHi)[VGA_FRAME := VGA_FRAME];
    assert b.infoHi == 1025;
    var c1 := BufferSlots(c0, b.infoLo, 1024);
    BufferInside(c0, b.infoLo, 1024, s);
    BufferInside(c1[0 := 1024], b.mmapLo, b.mmapHi, s);
  }

  lemma InfoBeyondExact(m: seq<Word>, t: Tables, b: Boot)
    requires IsMemory(m) && Placed(t) && Checked(b) && Booted(m, t, b)
    requires b.infoHi > 1024 && b.mmapHi <= 1024
    requires b.mmapLo == 0 < b.mmapHi && b.kernelHi > 1024
    ensures MapsExactly(m, t, b)
  {
    forall p | 0 <= p < NUM_PAGES
      ensures Walk(m, t.dir, p) == if Wanted(b, Straight(p)) then Some(Straight(p)) else None
    {
      BootWalk(m, t, LastBlock(b), BootSlots(b), p);
      InfoBeyond(b, Straight(p));
    }
  }

  lemma InfoBeyondInexact(m: seq<Word>, t: Tables, b: Boot)
    requires IsMemory(m) && Placed(t) && Checked(b) && Booted(m, t, b)
    requires b.infoHi > 1024 && b.mmapHi <= 1024
    requires !(b.mmapLo == 0 < b.mmapHi && b.kernelHi > 1024)
    ensures !MapsExactly(m, t, b)
  {
    BootWalk(m, t, LastBlock(b), BootSlots(b), 0);
    InfoBeyond(b, 0);
    BootWalk(m, t, LastBlock(b), BootSlots(b), 1024);
    InfoBeyond(b, 1024);
    if b.mmapLo == 0 < b.mmapHi {
      assert Walk(m, t.dir, 1024) != Some(1024);
      assert Wanted(b, Straight(1024));
    } else {
      assert Walk(m, t.dir, 0) == Some(1024);
    }
  }

  lemma MmapBeyondInexact(m: seq<Word>, t: Tables, b: Boot)
    requires IsMemory(m) && Placed(t) && Checked(b) && Booted(m, t, b) && b.mmapHi > 1024
    ensures !MapsExactly(m, t, b)
  {
    var c0 := KernelSlots(0, b.kernelLo, b.kernelHi)[VGA_FRAME := VGA_FRAME];
    BufferBeyond(BufferSlots(c0, b.infoLo, b.infoHi), b.mmapLo, b.mmapHi);
    BootWalk(m, t, LastBlock(b), BootSlots(b), 0);
  }

  /** The checks look only at where the buffers start. The mapping is right exactly when the
      memory map buffer also ends in the first 4 MiB, and so does the information structure
      (or the two entries it gets wrong are put right by the others). */
  lemma BootMapsExactly(m: seq<Word>, t: Tables, b: Boot)
    requires IsMemory(m) && Placed(t) && Checked(b) && Booted(m, t, b)
    ensures MapsExactly(m, t, b) <==>
            b.mmapHi <= 1024 && (b.infoHi <= 1024 || (b.mmapLo == 0 < b.mmapHi && b.kernelHi > 1024))
  {
    if b.mmapHi > 1024 {
      MmapBeyondInexact(m, t, b);
    } else if b.infoHi <= 1024 {
      FittingIsExact(m, t, b);
    } else if b.mmapLo == 0 < b.mmapHi && b.kernelHi > 1024 {
      InfoBeyondExact(m, t, b);
    } else {
      InfoBeyondInexact(m, t, b);
    }
  }

  // ---- the identity map ----

  /** The buffers' pages leave the slots of all tables but the first alone. */
  lemma {:induction false} BufferSlotsHigh(c: Slots, lo: nat, hi: nat, s: nat)
    requires FramesValid(c) && hi <= NUM_PAGES && 1024 <= s
    ensures s in BufferSlots(c, lo, hi) <==> s in c
    ensures s in c ==> BufferSlots(c, lo, hi)[s] == c[s]
    decreases hi
  {
    if lo < hi {
      BufferSlotsHigh(c, lo, hi - 1, s);
    }
  }

  lemma {:induction false} BufferSlotsKeep(c: Slots, lo: nat, hi: nat, s: nat)
    requires FramesValid(c) && hi <= NUM_PAGES && s in c
    ensures s in BufferSlots(c, lo, hi)
    decreases hi
  {
    if lo < hi {
      BufferSlotsKeep(c, lo, hi - 1, s);
    }
  }

  /** Every kernel page has its slot; and beyond the first table they are the only ones. */
  lemma KernelSlotsKept(b: Boot, s: nat)
    requires Checked(b)
    ensures b.kernelLo <= s < b.kernelHi ==> s in BootSlots(b)
    ensures 1024 <= s ==> (s in BootSlots(b) <==> b.kernelLo <= s < b.kernelHi)
    ensures 1024 <= s < b.kernelHi ==> BootSlots(b)[s] == s
  {
    var c0 := KernelSlots(0, b.kernelLo, b.kernelHi)[VGA_FRAME := VGA_FRAME];
    var c1 := BufferSlots(c0, b.infoLo, b.infoHi);
    if 1024 <= s {
      BufferSlotsHigh(c0, b.infoLo, b.infoHi, s);
      BufferSlotsHigh(c1, b.mmapLo, b.mmapHi, s);
    } else if b.kernelLo <= s < b.kernelHi {
      BufferSlotsKeep(c0, b.infoLo, b.infoHi, s);
      BufferSlotsKeep(c1, b.mmapLo, b.mmapHi, s);
    }
  }

  /** After clear_ident_map the kernel's pages from 4 MiB on are still mapped to themselves. */
  lemma IdentityLeft(m: seq<Word>, t: Tables, b: Boot)
    requires IsMemory(m) && Placed(t) && Checked(b) && Booted(m, t, b)
    ensures forall p :: 1024 <= p < b.kernelHi ==> Walk(Clear(m, t, 0), t.dir, p) == Some(p)
  {
    var m' := Clear(m, t, 0);
    SetOther(m, t.dir, 0, 0);
    forall p | 1024 <= p < b.kernelHi ensures Walk(m', t.dir, p) == Some(p) {
      KernelSlotsKept(b, p);
      BootWalk(m, t, LastBlock(b), BootSlots(b), p);
      assert Pde(m', t, p / 1024) == Pde(m, t, p / 1024) == BootEntry(t, 0, LastBlock(b), p / 1024);
      assert Frame(Pde(m, t, p / 1024)) == t.base + p / 1024 != t.dir;
    }
  }

  /** The kernel leaves no page above its start unmapped exactly when it fills the high half
      to its end. */
  lemma AllMappedIff(m: seq<Word>, t: Tables, b: Boot)
    requires IsMemory(m) && Placed(t) && Checked(b) && Booted(m, t, b) && 1024 < b.kernelHi
    ensures (forall p :: HIGH_PAGE + b.kernelLo <= p < NUM_PAGES ==> Walk(m, t.dir, p).Some?) <==>
            b.kernelHi == 0x4_0000
  {
    if b.kernelHi == 0x4_0000 {
      forall p | HIGH_PAGE + b.kernelLo <= p < NUM_PAGES ensures Walk(m, t.dir, p).Some? {
        KernelSlotsKept(b, Straight(p));
        BootWalk(m, t, LastBlock(b), BootSlots(b), p);
      }
    } else {
      KernelSlotsKept(b, b.kernelHi);
      BootWalk(m, t, LastBlock(b), BootSlots(b), HIGH_PAGE + b.kernelHi);
      assert Walk(m, t.dir, HIGH_PAGE + b.kernelHi).None?;
    }
  }

  /** clear_ident_map forgets one directory entry, so it leaves nothing mapped below
      KERNEL_BASE exactly when the kernel fits in the first 4 MiB. */
  lemma IdentityCleared(m: seq<Word>, t: Tables, b: Boot)
    requires IsMemory(m) && Placed(t) && Checked(b) && Booted(m, t, b)
    ensures (forall p :: 0 <= p < HIGH_PAGE ==> Walk(Clear(m, t, 0), t.dir, p).None?) <==> b.kernelHi <= 1024
  {
    var m' := Clear(m, t, 0);
    var last := LastBlock(b);
    SetOther(m, t.dir, 0, 0);
    forall i | 0 <= i < 1024 ensures Pde(m', t, i) == if i == 0 then 0 else BootEntry(t, 0, last, i) {
      assert Pde(m, t, i) == BootEntry(t, 0, last, i);
    }
    if b.kernelHi > 1024 {
      IdentityLeft(m, t, b);
      assert Walk(m', t.dir, 1024) == Some(1024);
    } else {
      forall p | 0 <= p < HIGH_PAGE ensures Walk(m', t.dir, p).None? {
        assert Pde(m', t, p / 1024) == 0;
      }
    }
  }

  // ---- the directory invariant holds from the start ----

  lemma SlotsBelowLast(b: Boot, s: nat)
    requires Checked(b)
    ensures s in BootSlots(b) ==> s < 1024 * (LastBlock(b) + 1)
  {
    KernelSlotsKept(b, s);
  }

  lemma BootInvariant(m: seq<Word>, t: Tables, b: Boot)
    requires IsMemory(m) && Placed(t) && Checked(b) && Booted(m, t, b)
    ensures DirectoryInvariant(m, t)
  {
    var last := LastBlock(b);
    forall i | HIGH_INDEX <= i < 1024 && !Loaded(m, t, i) ensures ZeroFrame(m, t.base + i) {
      assert Pde(m, t, i) == BootEntry(t, 0, last, i);
      var f := t.base + i;
      forall j | 0 <= j < 1024 ensures At(m, f, j) == 0 {
        SlotsBelowLast(b, 1024 * i + j);
      }
    }
    forall i | 0 <= i < 1024 && Loaded(m, t, i) ensures t.base <= Frame(Pde(m, t, i)) <= t.base + last {
      assert Pde(m, t, i) == BootEntry(t, 0, last, i);
    }
    assert TablesDistinct(m, t) by {
      forall i, j | HIGH_INDEX <= i < j < 1024 && Loaded(m, t, i) && Loaded(m, t, j)
        ensures Frame(Pde(m, t, i)) != Frame(Pde(m, t, j))
      {
        assert Pde(m, t, i) == BootEntry(t, 0, last, i);
        assert Pde(m, t, j) == BootEntry(t, 0, last, j);
      }
    }
  }
}
