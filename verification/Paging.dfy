/** Two-level 32-bit paging (Intel SDM volume 3A, section 4.3) over a physical memory of
    words. Pages and frames are numbered: page p starts at address 0x1000 * p. The page
    directory is one frame, the kernel's page tables are 1024 consecutive frames. */
module Paging {
  import opened Kernel

  /** Physical memory, word addressed: word w is at address 4 * w. */
  const MEMORY_WORDS := 0x4000_0000

  /** The first page of the kernel's half, and its first directory index. */
  const HIGH_PAGE := 0xc_0000
  const HIGH_INDEX := 768

  ghost predicate IsMemory(m: seq<Word>) {
    |m| == MEMORY_WORDS
  }

  /** Word j of frame f. */
  function At(m: seq<Word>, f: nat, j: nat): Word
    requires IsMemory(m) && f < NUM_PAGES && j < 1024
  {
    m[1024 * f + j]
  }

  function Set(m: seq<Word>, f: nat, j: nat, w: Word): (m': seq<Word>)
    requires IsMemory(m) && f < NUM_PAGES && j < 1024
    ensures IsMemory(m')
  {
    m[1024 * f + j := w]
  }

  lemma SetAt(m: seq<Word>, f: nat, j: nat, w: Word, f': nat, j': nat)
    requires IsMemory(m) && f < NUM_PAGES && j < 1024 && f' < NUM_PAGES && j' < 1024
    ensures At(Set(m, f, j, w), f', j') == if f' == f && j' == j then w else At(m, f', j')
  {
  }

  /** A write changes one word. */
  lemma SetOther(m: seq<Word>, f: nat, j: nat, w: Word)
    requires IsMemory(m) && f < NUM_PAGES && j < 1024
    ensures At(Set(m, f, j, w), f, j) == w
    ensures forall f', j' :: 0 <= f' < NUM_PAGES && 0 <= j' < 1024 && (f' != f || j' != j)
              ==> At(Set(m, f, j, w), f', j') == At(m, f', j')
  {
    forall f', j' | 0 <= f' < NUM_PAGES && 0 <= j' < 1024 && (f' != f || j' != j)
      ensures At(Set(m, f, j, w), f', j') == At(m, f', j')
    {
      SetAt(m, f, j, w, f', j');
    }
  }

  predicate Present(entry: Word) {
    entry % 2 == 1
  }

  function Frame(entry: Word): (f: nat)
    ensures f < NUM_PAGES
  {
    entry / 0x1000
  }

  /** The entry for a frame: present, and no other flag set. */
  function Entry(f: nat): (e: Word)
    requires f < NUM_PAGES
    ensures Present(e) && Frame(e) == f && e % 0x1000 == 1
  {
    assert (0x1000 * f + 1) / 2 == 0x800 * f;
    0x1000 * f + 1
  }

  /** The page walk: the frame that page p of the address space rooted at directory frame
      `dir` is mapped to. */
  ghost function Walk(m: seq<Word>, dir: nat, p: nat): (r: Option<nat>)
    requires IsMemory(m) && dir < NUM_PAGES && p < NUM_PAGES
    ensures r.Some? ==> r.value < NUM_PAGES
  {
    var pde := At(m, dir, p / 1024);
    if !Present(pde) then None
    else
      var pte := At(m, Frame(pde), p % 1024);
      if Present(pte) then Some(Frame(pte)) else None
  }

  /** The physical address of a virtual address. */
  ghost function Translate(m: seq<Word>, dir: nat, v: Word): (r: Option<Word>)
    requires IsMemory(m) && dir < NUM_PAGES
  {
    match Walk(m, dir, v / 0x1000)
    case None => None
    case Some(f) => Some(0x1000 * f + v % 0x1000)
  }

  // ---- where the kernel keeps its tables ----

  /** Frames of the directory and of table 0. They lie in the kernel image, never in
      frame 0, and do not overlap. */
  datatype Tables = Tables(dir: nat, base: nat)

  predicate Placed(t: Tables) {
    && 0 < t.dir < NUM_PAGES
    && 0 < t.base && t.base + 1024 <= NUM_PAGES
    && (t.dir < t.base || t.base + 1024 <= t.dir)
  }

  ghost function Pde(m: seq<Word>, t: Tables, i: nat): Word
    requires IsMemory(m) && Placed(t) && i < 1024
  {
    At(m, t.dir, i)
  }

  ghost predicate Loaded(m: seq<Word>, t: Tables, i: nat)
    requires IsMemory(m) && Placed(t) && i < 1024
  {
    Present(Pde(m, t, i))
  }

  ghost predicate ZeroFrame(m: seq<Word>, f: nat)
    requires IsMemory(m) && f < NUM_PAGES
  {
    forall j :: 0 <= j < 1024 ==> At(m, f, j) == 0
  }

  /** Loaded entries point to kernel tables, identity entries included. */
  ghost predicate PointToTables(m: seq<Word>, t: Tables)
    requires IsMemory(m) && Placed(t)
  {
    forall i :: 0 <= i < 1024 && Loaded(m, t, i) ==> t.base <= Frame(Pde(m, t, i)) < t.base + 1024
  }

  /** No two loaded high-half entries share a table. */
  ghost predicate TablesDistinct(m: seq<Word>, t: Tables)
    requires IsMemory(m) && Placed(t)
  {
    forall i, j :: HIGH_INDEX <= i < j < 1024 && Loaded(m, t, i) && Loaded(m, t, j)
      ==> Frame(Pde(m, t, i)) != Frame(Pde(m, t, j))
  }

  /** An absent entry is 0, and the own table of an absent high-half entry is empty and
      in nobody's use. */
  ghost predicate SparesClean(m: seq<Word>, t: Tables)
    requires IsMemory(m) && Placed(t)
  {
    && (forall i :: 0 <= i < 1024 && !Loaded(m, t, i) ==> Pde(m, t, i) == 0)
    && (forall i :: HIGH_INDEX <= i < 1024 && !Loaded(m, t, i) ==> ZeroFrame(m, t.base + i))
    && (forall i, j :: HIGH_INDEX <= i < 1024 && 0 <= j < 1024 && !Loaded(m, t, i) && Loaded(m, t, j)
          ==> Frame(Pde(m, t, j)) != t.base + i)
  }

  /** The page directory invariant. Identity entries may share tables with the high half,
      and do until the identity map is cleared. */
  ghost predicate DirectoryInvariant(m: seq<Word>, t: Tables) {
    IsMemory(m) && Placed(t) && PointToTables(m, t) && TablesDistinct(m, t) && SparesClean(m, t)
  }

  // ---- the two writes the kernel makes ----

  /** load_page_table: point directory entry i to its own table. */
  ghost function Load(m: seq<Word>, t: Tables, i: nat): (m': seq<Word>)
    requires IsMemory(m) && Placed(t) && i < 1024
    ensures IsMemory(m')
  {
    Set(m, t.dir, i, Entry(t.base + i))
  }

  /** map_page: write an entry in whatever table the directory names for page p. */
  ghost function Map(m: seq<Word>, t: Tables, p: nat, f: nat): (m': seq<Word>)
    requires IsMemory(m) && Placed(t) && p < NUM_PAGES && f < NUM_PAGES
    ensures IsMemory(m')
  {
    Set(m, Frame(Pde(m, t, p / 1024)), p % 1024, Entry(f))
  }

  /** clear_ident_map: forget one identity entry. */
  ghost function Clear(m: seq<Word>, t: Tables, i: nat): (m': seq<Word>)
    requires IsMemory(m) && Placed(t) && i < 1024
    ensures IsMemory(m')
  {
    Set(m, t.dir, i, 0)
  }

  lemma LoadEntry(m: seq<Word>, t: Tables, i: nat)
    requires IsMemory(m) && Placed(t) && i < 1024
    ensures Pde(Load(m, t, i), t, i) == Entry(t.base + i)
    ensures forall k :: 0 <= k < 1024 && k != i ==> Pde(Load(m, t, i), t, k) == Pde(m, t, k)
    ensures forall f, j :: 0 <= f < NUM_PAGES && 0 <= j < 1024 && f != t.dir ==> At(Load(m, t, i), f, j) == At(m, f, j)
  {
    SetOther(m, t.dir, i, Entry(t.base + i));
  }

  /** Loading an absent high-half table changes no translation at all. */
  lemma LoadKeepsWalk(m: seq<Word>, t: Tables, i: nat, p: nat)
    requires DirectoryInvariant(m, t) && HIGH_INDEX <= i < 1024 && !Loaded(m, t, i) && p < NUM_PAGES
    ensures Walk(Load(m, t, i), t.dir, p) == Walk(m, t.dir, p)
  {
    LoadEntry(m, t, i);
    if p / 1024 == i {
      assert At(m, t.base + i, p % 1024) == 0;
    } else if Loaded(m, t, p / 1024) {
      assert Frame(Pde(m, t, p / 1024)) != t.dir;
    }
  }

  lemma LoadKeepsInvariant(m: seq<Word>, t: Tables, i: nat)
    requires DirectoryInvariant(m, t) && HIGH_INDEX <= i < 1024 && !Loaded(m, t, i)
    ensures DirectoryInvariant(Load(m, t, i), t)
  {
    var m' := Load(m, t, i);
    LoadEntry(m, t, i);
    assert forall k :: 0 <= k < 1024 && k != i ==> (Loaded(m', t, k) <==> Loaded(m, t, k));
    assert PointToTables(m', t);
    assert TablesDistinct(m', t);
    forall k | HIGH_INDEX <= k < 1024 && !Loaded(m', t, k) ensures ZeroFrame(m', t.base + k) {
      assert ZeroFrame(m, t.base + k);
    }
  }

  /** map_page writes inside a table, never in the directory, as long as the entry it goes
      through is absent and zero, or points to a kernel table. */
  lemma MapWrites(m: seq<Word>, t: Tables, p: nat, f: nat)
    requires IsMemory(m) && Placed(t) && p < NUM_PAGES && f < NUM_PAGES
    requires Frame(Pde(m, t, p / 1024)) != t.dir
    ensures
      var m' := Map(m, t, p, f);
      var table := Frame(Pde(m, t, p / 1024));
      && At(m', table, p % 1024) == Entry(f)
      && (forall k :: 0 <= k < 1024 ==> Pde(m', t, k) == Pde(m, t, k))
      && (forall f', j' :: 0 <= f' < NUM_PAGES && 0 <= j' < 1024 && (f' != table || j' != p % 1024)
            ==> At(m', f', j') == At(m, f', j'))
  {
    SetOther(m, Frame(Pde(m, t, p / 1024)), p % 1024, Entry(f));
  }

  lemma HighIndex(p: nat)
    requires HIGH_PAGE <= p < NUM_PAGES
    ensures HIGH_INDEX <= p / 1024 < 1024
  {
  }

  /** In a loaded block, map_page(p, f) maps p to f and leaves every other high-half
      translation as it was. */
  lemma MapEffect(m: seq<Word>, t: Tables, p: nat, f: nat, q: nat)
    requires DirectoryInvariant(m, t) && f < NUM_PAGES
    requires HIGH_PAGE <= p < NUM_PAGES && Loaded(m, t, p / 1024)
    requires HIGH_PAGE <= q < NUM_PAGES
    ensures Walk(Map(m, t, p, f), t.dir, q) == if q == p then Some(f) else Walk(m, t.dir, q)
  {
    HighIndex(p);
    HighIndex(q);
    MapWrites(m, t, p, f);
    if Loaded(m, t, q / 1024) && q / 1024 != p / 1024 {
      assert Frame(Pde(m, t, q / 1024)) != Frame(Pde(m, t, p / 1024));
    }
  }

  /** In an absent block map_page is lost: the entry goes to frame 0 and no high-half
      translation changes. */
  lemma MapLost(m: seq<Word>, t: Tables, p: nat, f: nat, q: nat)
    requires DirectoryInvariant(m, t) && f < NUM_PAGES
    requires HIGH_PAGE <= p < NUM_PAGES && !Loaded(m, t, p / 1024)
    requires HIGH_PAGE <= q < NUM_PAGES
    ensures Map(m, t, p, f) == m[p % 1024 := Entry(f)]
    ensures Walk(Map(m, t, p, f), t.dir, q) == Walk(m, t.dir, q)
  {
    HighIndex(p);
    HighIndex(q);
    MapWrites(m, t, p, f);
    assert Pde(Map(m, t, p, f), t, q / 1024) == Pde(m, t, q / 1024);
    if Loaded(m, t, q / 1024) {
      assert Frame(Pde(m, t, q / 1024)) != 0;
    }
  }

  /** So a page, low or high, is mapped where it was asked to be exactly when its block was
      loaded. */
  lemma MapWorksIffLoaded(m: seq<Word>, t: Tables, p: nat, f: nat)
    requires DirectoryInvariant(m, t) && f < NUM_PAGES && p < NUM_PAGES
    ensures Walk(Map(m, t, p, f), t.dir, p) == Some(f) <==> Loaded(m, t, p / 1024)
  {
    MapWrites(m, t, p, f);
    assert Pde(Map(m, t, p, f), t, p / 1024) == Pde(m, t, p / 1024);
  }

  lemma MapKeepsInvariant(m: seq<Word>, t: Tables, p: nat, f: nat)
    requires DirectoryInvariant(m, t) && f < NUM_PAGES && p < NUM_PAGES
    ensures DirectoryInvariant(Map(m, t, p, f), t)
  {
    MapWrites(m, t, p, f);
    var m' := Map(m, t, p, f);
    forall i | HIGH_INDEX <= i < 1024 && !Loaded(m', t, i) ensures ZeroFrame(m', t.base + i) {
      assert ZeroFrame(m, t.base + i);
      assert Frame(Pde(m, t, p / 1024)) != t.base + i;
    }
  }

  lemma ClearKeepsInvariant(m: seq<Word>, t: Tables, i: nat)
    requires DirectoryInvariant(m, t) && i < HIGH_INDEX
    ensures DirectoryInvariant(Clear(m, t, i), t)
    ensures forall q :: HIGH_PAGE <= q < NUM_PAGES ==> Walk(Clear(m, t, i), t.dir, q) == Walk(m, t.dir, q)
  {
    var m' := Clear(m, t, i);
    SetOther(m, t.dir, i, 0);
    forall q | HIGH_PAGE <= q < NUM_PAGES ensures Walk(m', t.dir, q) == Walk(m, t.dir, q) {
      HighIndex(q);
      assert Pde(m', t, q / 1024) == Pde(m, t, q / 1024);
    }
    assert forall k :: 0 <= k < 1024 && k != i ==> Pde(m', t, k) == Pde(m, t, k);
    forall k | HIGH_INDEX <= k < 1024 && !Loaded(m', t, k) ensures ZeroFrame(m', t.base + k) {
      assert ZeroFrame(m, t.base + k);
    }
  }

  /** A word written outside the directory and the tables changes no translation. */
  lemma ForeignWrite(m: seq<Word>, t: Tables, f: nat, j: nat, w: Word)
    requires DirectoryInvariant(m, t) && f < NUM_PAGES && j < 1024
    requires f != t.dir && !(t.base <= f < t.base + 1024)
    ensures DirectoryInvariant(Set(m, f, j, w), t)
    ensures forall i :: 0 <= i < 1024 ==> Pde(Set(m, f, j, w), t, i) == Pde(m, t, i)
    ensures forall p :: 0 <= p < NUM_PAGES ==> Walk(Set(m, f, j, w), t.dir, p) == Walk(m, t.dir, p)
  {
    var m' := Set(m, f, j, w);
    SetOther(m, f, j, w);
    assert forall i :: 0 <= i < 1024 ==> Pde(m', t, i) == Pde(m, t, i);
    forall p | 0 <= p < NUM_PAGES ensures Walk(m', t.dir, p) == Walk(m, t.dir, p) {
      assert Pde(m', t, p / 1024) == Pde(m, t, p / 1024);
    }
    forall i | HIGH_INDEX <= i < 1024 && !Loaded(m', t, i) ensures ZeroFrame(m', t.base + i) {
      assert ZeroFrame(m, t.base + i);
    }
  }
}
