/** The kernel's half of the address space as an abstract map from pages to frames, and the
    proof that every operation of the virtual memory allocator, in any order, acts on it as
    a plain map update. */
module AddressSpace {
  import opened Kernel
  import opened Paging
  import opened VirtMem

  /** frames: what each mapped high-half page translates to. loaded: the blocks with a
      table. shared: the pairs of a directory entry below KERNEL_BASE and a loaded block
      that name the same table, as the identity map of early boot leaves them. */
  datatype Space = Space(frames: map<nat, nat>, loaded: set<nat>, shared: set<(nat, nat)>)

  ghost predicate Shares(m: seq<Word>, t: Tables, e: nat, i: nat)
    requires IsMemory(m) && Placed(t) && e < HIGH_INDEX <= i < 1024
  {
    Loaded(m, t, e) && Loaded(m, t, i) && Frame(Pde(m, t, e)) == Frame(Pde(m, t, i))
  }

  ghost function SpaceOf(m: seq<Word>, t: Tables): Space
    requires IsMemory(m) && Placed(t)
  {
    Space(
      FramesOf(m, t),
      (set i: nat | HIGH_INDEX <= i < 1024 && Loaded(m, t, i)),
      SharedOf(m, t))
  }

  ghost function SharedOf(m: seq<Word>, t: Tables): (shared: set<(nat, nat)>)
    requires IsMemory(m) && Placed(t)
    ensures forall e: nat, i: nat :: (e, i) in shared <==> e < HIGH_INDEX <= i < 1024 && Shares(m, t, e, i)
  {
    set e: nat, i: nat | e < HIGH_INDEX && HIGH_INDEX <= i < 1024 && Shares(m, t, e, i) :: (e, i)
  }

  ghost function FramesOf(m: seq<Word>, t: Tables): map<nat, nat>
    requires IsMemory(m) && Placed(t)
  {
    map p: nat | HIGH_PAGE <= p < NUM_PAGES && Walk(m, t.dir, p).Some? :: Walk(m, t.dir, p).value
  }

  // ---- the abstract operations ----

  /** map_page at a given page, map_page at a free page, reserve_block, clear_ident_map. */
  datatype Op = MapAt(p: nat, f: nat) | MapFree(f: nat) | Reserve | ClearIdent

  ghost predicate Legal(op: Op) {
    match op
    case MapAt(p, f) => 0 < p < NUM_PAGES && f < NUM_PAGES
    case MapFree(f) => f < NUM_PAGES
    case Reserve => true
    case ClearIdent => true
  }

  /** The lowest page from p on that is not mapped, or NUM_PAGES. */
  ghost function LowestFree(frames: map<nat, nat>, p: nat): (q: nat)
    requires p <= NUM_PAGES
    ensures p <= q <= NUM_PAGES
    ensures forall k :: p <= k < q ==> k in frames
    ensures q < NUM_PAGES ==> q !in frames
    decreases NUM_PAGES - p
  {
    if p == NUM_PAGES || p !in frames then p else LowestFree(frames, p + 1)
  }

  /** The lowest block from i on that is not loaded, or 1024. */
  ghost function LowestAbsent(loaded: set<nat>, i: nat): (k: nat)
    requires i <= 1024
    ensures i <= k <= 1024
    ensures forall j :: i <= j < k ==> j in loaded
    ensures k < 1024 ==> k !in loaded
    decreases 1024 - i
  {
    if i == 1024 || i !in loaded then i else LowestAbsent(loaded, i + 1)
  }

  /** What an operation does to the space, and the address it returns. `first` is the
      kernel's first page, `ident` the directory entry that clear_ident_map clears. */
  ghost function Apply(s: Space, first: nat, ident: nat, op: Op): (Space, Word)
    requires HIGH_PAGE <= first < NUM_PAGES && Legal(op)
  {
    match op
    case MapAt(p, f) =>
      (if p < HIGH_PAGE then s.(frames := s.frames + Aliases(s.shared, p, f))
       else if p / 1024 in s.loaded then s.(frames := s.frames[p := f]) else s, PageAddr(p))
    case MapFree(f) =>
      var p := LowestFree(s.frames, first);
      if p < NUM_PAGES then
        (s.(frames := s.frames[p := f], loaded := s.loaded + {p / 1024}), PageAddr(p))
      else
        (s.(frames := s.frames + Aliases(s.shared, 0, f)), 0)
    case Reserve =>
      var i := LowestAbsent(s.loaded, FirstBlock(first));
      if i < 1024 then (s.(loaded := s.loaded + {i}), PageAddr(1024 * i)) else (s, 0)
    case ClearIdent =>
      (s.(shared := Forget(s.shared, ident)), 0)
  }

  ghost function Forget(shared: set<(nat, nat)>, ident: nat): set<(nat, nat)> {
    set x | x in shared && x.0 != ident
  }

  /** Mapping a page below KERNEL_BASE through an entry that shares its table with a high
      block remaps the page at the same place in that block. When no page is free,
      map_page(null) does this with page 0. */
  ghost function Aliases(shared: set<(nat, nat)>, p: nat, f: nat): map<nat, nat> {
    map q: nat | HIGH_PAGE <= q < NUM_PAGES && Alias(shared, p, q) :: f
  }

  ghost predicate Alias(shared: set<(nat, nat)>, p: nat, q: nat) {
    q % 1024 == p % 1024 && (p / 1024, q / 1024) in shared
  }

  /** What the allocator's methods do to memory, from their contracts. */
  ghost predicate Step(m: seq<Word>, m': seq<Word>, t: Tables, first: nat, ident: nat, op: Op, page: Word)
    requires IsMemory(m) && Placed(t) && ident < 1024 && HIGH_PAGE <= first < NUM_PAGES && Legal(op)
  {
    match op
    case MapAt(p, f) => MapResult(m, m', t, first, PageAddr(p), f, page)
    case MapFree(f) => MapResult(m, m', t, first, 0, f, page)
    case Reserve => ReserveResult(m, m', t, FirstBlock(first), page)
    case ClearIdent => m' == Clear(m, t, ident) && page == 0
  }

  // ---- each write, seen on the space ----

  lemma SpaceLoad(m: seq<Word>, t: Tables, i: nat)
    requires DirectoryInvariant(m, t) && HIGH_INDEX <= i < 1024 && !Loaded(m, t, i)
    ensures var s := SpaceOf(m, t);
            SpaceOf(Load(m, t, i), t) == s.(loaded := s.loaded + {i})
  {
    var m' := Load(m, t, i);
    LoadEntry(m, t, i);
    forall p: nat | p < NUM_PAGES ensures Walk(m', t.dir, p) == Walk(m, t.dir, p) {
      LoadKeepsWalk(m, t, i, p);
    }
    forall e: nat, k: nat | e < HIGH_INDEX <= k < 1024 ensures Shares(m', t, e, k) <==> Shares(m, t, e, k) {
      assert Pde(m', t, e) == Pde(m, t, e);
    }
    forall k: nat | HIGH_INDEX <= k < 1024 ensures Loaded(m', t, k) <==> Loaded(m, t, k) || k == i {
    }
  }

  lemma SpaceMap(m: seq<Word>, t: Tables, p: nat, f: nat)
    requires DirectoryInvariant(m, t) && HIGH_PAGE <= p < NUM_PAGES && f < NUM_PAGES
    ensures var s := SpaceOf(m, t);
            SpaceOf(Map(m, t, p, f), t) == if p / 1024 in s.loaded then s.(frames := s.frames[p := f]) else s
  {
    HighIndex(p);
    MapWrites(m, t, p, f);
    SameDirectory(m, Map(m, t, p, f), t);
    FramesMap(m, t, p, f);
  }

  lemma FramesMap(m: seq<Word>, t: Tables, p: nat, f: nat)
    requires DirectoryInvariant(m, t) && HIGH_PAGE <= p < NUM_PAGES && f < NUM_PAGES
    ensures FramesOf(Map(m, t, p, f), t) == if Loaded(m, t, p / 1024) then FramesOf(m, t)[p := f] else FramesOf(m, t)
  {
    var m' := Map(m, t, p, f);
    HighIndex(p);
    forall q: nat | HIGH_PAGE <= q < NUM_PAGES
      ensures Walk(m', t.dir, q) == if Loaded(m, t, p / 1024) && q == p then Some(f) else Walk(m, t.dir, q)
    {
      if Loaded(m, t, p / 1024) {
        MapEffect(m, t, p, f, q);
      } else {
        MapLost(m, t, p, f, q);
      }
    }
  }

  /** The blocks of a space depend on the directory alone. */
  lemma SameDirectory(m: seq<Word>, m': seq<Word>, t: Tables)
    requires IsMemory(m) && IsMemory(m') && Placed(t)
    requires forall k :: 0 <= k < 1024 ==> Pde(m', t, k) == Pde(m, t, k)
    ensures SpaceOf(m', t).loaded == SpaceOf(m, t).loaded && SpaceOf(m', t).shared == SpaceOf(m, t).shared
  {
    assert forall k :: 0 <= k < 1024 ==> (Loaded(m', t, k) <==> Loaded(m, t, k));
    forall e: nat, k: nat | e < HIGH_INDEX <= k < 1024 ensures Shares(m', t, e, k) <==> Shares(m, t, e, k) {
      assert Pde(m', t, e) == Pde(m, t, e);
    }
  }

  /** Writing through a directory entry below KERNEL_BASE. */
  lemma MapLowEffect(m: seq<Word>, t: Tables, p: nat, f: nat, q: nat)
    requires DirectoryInvariant(m, t) && f < NUM_PAGES && p < HIGH_PAGE <= q < NUM_PAGES
    ensures Walk(Map(m, t, p, f), t.dir, q) ==
            if Alias(SpaceOf(m, t).shared, p, q) then Some(f) else Walk(m, t.dir, q)
  {
    HighIndex(q);
    MapWrites(m, t, p, f);
    var m' := Map(m, t, p, f);
    assert Pde(m', t, q / 1024) == Pde(m, t, q / 1024);
    if Loaded(m, t, q / 1024) {
      assert Frame(Pde(m, t, q / 1024)) != 0;
    }
  }

  lemma SpaceMapLow(m: seq<Word>, t: Tables, p: nat, f: nat)
    requires DirectoryInvariant(m, t) && f < NUM_PAGES && p < HIGH_PAGE
    ensures var s := SpaceOf(m, t);
            SpaceOf(Map(m, t, p, f), t) == s.(frames := s.frames + Aliases(s.shared, p, f))
  {
    FramesMapLow(m, t, p, f);
    MapWrites(m, t, p, f);
    SameDirectory(m, Map(m, t, p, f), t);
  }

  lemma FramesMapLow(m: seq<Word>, t: Tables, p: nat, f: nat)
    requires DirectoryInvariant(m, t) && f < NUM_PAGES && p < HIGH_PAGE
    ensures FramesOf(Map(m, t, p, f), t) == FramesOf(m, t) + Aliases(SpaceOf(m, t).shared, p, f)
  {
    var aliases := Aliases(SpaceOf(m, t).shared, p, f);
    forall q: nat | HIGH_PAGE <= q < NUM_PAGES
      ensures Walk(Map(m, t, p, f), t.dir, q) == if q in aliases then Some(f) else Walk(m, t.dir, q)
    {
      MapLowEffect(m, t, p, f, q);
    }
  }

  /** A page has at most one alias: no two high blocks have the same table. */
  lemma AliasUnique(m: seq<Word>, t: Tables, p: nat, q: nat, r: nat)
    requires DirectoryInvariant(m, t) && p < HIGH_PAGE
    requires Alias(SpaceOf(m, t).shared, p, q) && Alias(SpaceOf(m, t).shared, p, r)
    ensures q == r
  {
    assert Shares(m, t, p / 1024, q / 1024) && Shares(m, t, p / 1024, r / 1024);
    assert q / 1024 == r / 1024;
  }

  lemma SpaceClear(m: seq<Word>, t: Tables, ident: nat)
    requires DirectoryInvariant(m, t) && ident < HIGH_INDEX
    ensures var s := SpaceOf(m, t);
            SpaceOf(Clear(m, t, ident), t) == s.(shared := Forget(s.shared, ident))
  {
    var m' := Clear(m, t, ident);
    ClearKeepsInvariant(m, t, ident);
    SetOther(m, t.dir, ident, 0);
    assert forall k :: 0 <= k < 1024 ==> Pde(m', t, k) == if k == ident then 0 else Pde(m, t, k);
    forall e: nat, k: nat | e < HIGH_INDEX <= k < 1024
      ensures Shares(m', t, e, k) <==> e != ident && Shares(m, t, e, k)
    {
      assert Pde(m', t, k) == Pde(m, t, k);
    }
  }

  // ---- refinement ----

  lemma FindsLowest(m: seq<Word>, t: Tables, first: nat, p: nat)
    requires DirectoryInvariant(m, t) && HIGH_PAGE <= first <= p <= NUM_PAGES
    requires AllMapped(m, t, first, p) && (p < NUM_PAGES ==> Walk(m, t.dir, p).None?)
    ensures LowestFree(SpaceOf(m, t).frames, first) == p
  {
    var frames := SpaceOf(m, t).frames;
    forall q | first <= q < p ensures q in frames {
      assert Walk(m, t.dir, q).Some?;
    }
    assert p < NUM_PAGES ==> p !in frames;
    LowestFreeIs(frames, first, p);
  }

  lemma LowestFreeIs(frames: map<nat, nat>, lo: nat, p: nat)
    requires lo <= p <= NUM_PAGES
    requires (forall q :: lo <= q < p ==> q in frames) && (p < NUM_PAGES ==> p !in frames)
    ensures LowestFree(frames, lo) == p
  {
  }

  lemma LowestAbsentIs(loaded: set<nat>, lo: nat, i: nat)
    requires lo <= i <= 1024
    requires (forall k :: lo <= k < i ==> k in loaded) && (i < 1024 ==> i !in loaded)
    ensures LowestAbsent(loaded, lo) == i
  {
  }

  /** map_page(null, f) when a page is free: the page found is loaded and mapped. */
  lemma SpaceMapFound(m: seq<Word>, t: Tables, p: nat, f: nat)
    requires DirectoryInvariant(m, t) && HIGH_PAGE <= p < NUM_PAGES && f < NUM_PAGES
    ensures var s := SpaceOf(m, t);
            var m1 := WithBlock(m, t, p / 1024);
            && IsMemory(m1) && DirectoryInvariant(m1, t)
            && SpaceOf(Map(m1, t, p, f), t) == s.(frames := s.frames[p := f], loaded := s.loaded + {p / 1024})
  {
    HighIndex(p);
    SpaceWithBlock(m, t, p / 1024);
    SpaceMap(WithBlock(m, t, p / 1024), t, p, f);
  }

  lemma SpaceMapFree(m: seq<Word>, mid: seq<Word>, t: Tables, first: nat, f: nat, page: Word)
    requires DirectoryInvariant(m, t) && HIGH_PAGE <= first < NUM_PAGES && f < NUM_PAGES
    requires FreePageResult(m, mid, t, first, page) && IsMemory(mid)
    ensures DirectoryInvariant(mid, t)
    ensures SpaceOf(Map(mid, t, page / 0x1000, f), t) == Apply(SpaceOf(m, t), first, 0, MapFree(f)).0
    ensures page == Apply(SpaceOf(m, t), first, 0, MapFree(f)).1
  {
    if page == 0 {
      ApplyExhausted(m, t, first, f);
      assert Map(mid, t, page / 0x1000, f) == Map(m, t, 0, f);
    } else {
      var p := page / 0x1000;
      WholePage(page);
      ApplyFound(m, t, first, p, f);
      assert mid == WithBlock(m, t, p / 1024);
    }
  }

  lemma WholePage(page: Word)
    requires page % 0x1000 == 0
    ensures PageAddr(page / 0x1000) == page
  {
  }

  lemma ApplyFound(m: seq<Word>, t: Tables, first: nat, p: nat, f: nat)
    requires DirectoryInvariant(m, t) && HIGH_PAGE <= first <= p < NUM_PAGES && f < NUM_PAGES
    requires AllMapped(m, t, first, p) && Walk(m, t.dir, p).None?
    ensures IsMemory(WithBlock(m, t, p / 1024)) && DirectoryInvariant(WithBlock(m, t, p / 1024), t)
    ensures SpaceOf(Map(WithBlock(m, t, p / 1024), t, p, f), t) == Apply(SpaceOf(m, t), first, 0, MapFree(f)).0
    ensures PageAddr(p) == Apply(SpaceOf(m, t), first, 0, MapFree(f)).1
  {
    FindsLowest(m, t, first, p);
    SpaceMapFound(m, t, p, f);
  }

  lemma ApplyExhausted(m: seq<Word>, t: Tables, first: nat, f: nat)
    requires DirectoryInvariant(m, t) && HIGH_PAGE <= first < NUM_PAGES && f < NUM_PAGES
    requires AllMapped(m, t, first, NUM_PAGES)
    ensures Apply(SpaceOf(m, t), first, 0, MapFree(f)) == (SpaceOf(Map(m, t, 0, f), t), 0)
  {
    FindsLowest(m, t, first, NUM_PAGES);
    SpaceMapLow(m, t, 0, f);
  }

  lemma SpaceWithBlock(m: seq<Word>, t: Tables, i: nat)
    requires DirectoryInvariant(m, t) && HIGH_INDEX <= i < 1024
    ensures var m1 := WithBlock(m, t, i);
            DirectoryInvariant(m1, t) && SpaceOf(m1, t) == SpaceOf(m, t).(loaded := SpaceOf(m, t).loaded + {i})
  {
    if Loaded(m, t, i) {
      assert SpaceOf(m, t).loaded + {i} == SpaceOf(m, t).loaded;
    } else {
      LoadKeepsInvariant(m, t, i);
      SpaceLoad(m, t, i);
    }
  }

  lemma SpaceReserve(m: seq<Word>, m': seq<Word>, t: Tables, first: nat, page: Word)
    requires DirectoryInvariant(m, t) && HIGH_PAGE <= first < NUM_PAGES
    requires ReserveResult(m, m', t, FirstBlock(first), page)
    ensures IsMemory(m') && DirectoryInvariant(m', t)
    ensures SpaceOf(m', t) == Apply(SpaceOf(m, t), first, 0, Reserve).0
    ensures page == Apply(SpaceOf(m, t), first, 0, Reserve).1
  {
    var loaded := SpaceOf(m, t).loaded;
    var i := if page == 0 then 1024 else page / 0x40_0000;
    forall k | FirstBlock(first) <= k < i ensures k in loaded {
      assert Loaded(m, t, k);
    }
    assert i < 1024 ==> i !in loaded;
    LowestAbsentIs(loaded, FirstBlock(first), i);
    if page != 0 {
      LoadKeepsInvariant(m, t, i);
      SpaceLoad(m, t, i);
      BlockAddress(i);
    }
  }

  /** Every operation keeps the directory invariant and acts on the space as its abstract
      counterpart does, with the same result. */
  lemma StepRefines(m: seq<Word>, m': seq<Word>, t: Tables, first: nat, ident: nat, op: Op, page: Word)
    requires DirectoryInvariant(m, t) && ident < HIGH_INDEX && HIGH_PAGE <= first < NUM_PAGES && Legal(op)
    requires Step(m, m', t, first, ident, op, page)
    ensures DirectoryInvariant(m', t)
    ensures SpaceOf(m', t) == Apply(SpaceOf(m, t), first, ident, op).0
    ensures page == Apply(SpaceOf(m, t), first, ident, op).1
  {
    match op
    case MapAt(p, f) =>
      assert PageAddr(p) == 0x1000 * p;
      MapKeepsInvariant(m, t, p, f);
      if p < HIGH_PAGE {
        SpaceMapLow(m, t, p, f);
      } else {
        SpaceMap(m, t, p, f);
      }
    case MapFree(f) =>
      var mid :| IsMemory(mid) && FreePageResult(m, mid, t, first, page) && m' == Map(mid, t, page / 0x1000, f);
      SpaceMapFree(m, mid, t, first, f, page);
      MapKeepsInvariant(mid, t, page / 0x1000, f);
    case Reserve =>
      SpaceReserve(m, m', t, first, page);
    case ClearIdent =>
      ClearKeepsInvariant(m, t, ident);
      SpaceClear(m, t, ident);
  }

  /** map_page returns null exactly when it was asked to find a page and none was free. A
      page given by address is never refused, mapped already or not: in a loaded block it
      is remapped. */
  lemma MapPageNull(m: seq<Word>, m': seq<Word>, t: Tables, first: nat, virtPage: Word, f: nat, page: Word)
    requires DirectoryInvariant(m, t) && HIGH_PAGE <= first < NUM_PAGES && f < NUM_PAGES
    requires MapResult(m, m', t, first, virtPage, f, page)
    ensures page == 0 <==> virtPage == 0 && AllMapped(m, t, first, NUM_PAGES)
    ensures page != 0 && Loaded(m, t, page / 0x1000 / 1024) ==>
              IsMemory(m') && Walk(m', t.dir, page / 0x1000) == Some(f)
  {
    var p := page / 0x1000;
    if virtPage != 0 {
      MapWorksIffLoaded(m, t, p, f);
    } else if page != 0 {
      var mid :| IsMemory(mid) && FreePageResult(m, mid, t, first, page) && m' == Map(mid, t, p, f);
      SpaceWithBlock(m, t, p / 1024);
      if Loaded(m, t, p / 1024) {
        MapWorksIffLoaded(mid, t, p, f);
      }
    }
  }

  /** A block reserved but not yet mapped is no different from free memory to map_page(null).
      That call takes the first page of the block just reserved exactly when every page of
      the kernel's range below the block is mapped, and no page of it otherwise. */
  lemma ReservedIsTaken(m: seq<Word>, m1: seq<Word>, m2: seq<Word>, t: Tables, first: nat, block: Word, f: nat,
                        page: Word)
    requires DirectoryInvariant(m, t) && HIGH_PAGE <= first < NUM_PAGES && f < NUM_PAGES
    requires block != 0 && ReserveResult(m, m1, t, FirstBlock(first), block)
    requires MapResult(m1, m2, t, first, 0, f, page)
    ensures AllMapped(m, t, first, block / 0x1000) <==> page == block
    ensures block <= page < block + BLOCK_SIZE <==> page == block
  {
    var i := block / 0x40_0000;
    LoadKeepsInvariant(m, t, i);
    forall p | HIGH_PAGE <= p < NUM_PAGES ensures Walk(m1, t.dir, p) == Walk(m, t.dir, p) {
      LoadKeepsWalk(m, t, i, p);
    }
    ReservedIsUnmapped(m, m1, t, first, block, 1024 * i);
    var mid :| IsMemory(mid) && FreePageResult(m1, mid, t, first, page) && m2 == Map(mid, t, page / 0x1000, f);
    var b, p := 1024 * i, page / 0x1000;
    assert block == 0x1000 * b && first <= b && Walk(m1, t.dir, b).None?;
    assert page != 0 && page == 0x1000 * p && p <= b;
    assert p < b ==> Walk(m, t.dir, p).None?;
  }

  // ---- whole runs ----

  /** A run of the allocator: the memory before each operation and at the end, and what
      each returned. */
  ghost predicate Execution(mems: seq<seq<Word>>, t: Tables, first: nat, ident: nat, ops: seq<Op>, pages: seq<Word>)
    requires Placed(t) && ident < 1024 && HIGH_PAGE <= first < NUM_PAGES
  {
    && |mems| == |ops| + 1 && |pages| == |ops|
    && (forall i :: 0 <= i < |ops| ==> Legal(ops[i]))
    && (forall i :: 0 <= i < |mems| ==> IsMemory(mems[i]))
    && (forall i :: 0 <= i < |ops| ==> Step(mems[i], mems[i + 1], t, first, ident, ops[i], pages[i]))
  }

  /** The space after the first n operations. */
  ghost function SpaceAfter(s: Space, first: nat, ident: nat, ops: seq<Op>, n: nat): Space
    requires HIGH_PAGE <= first < NUM_PAGES && n <= |ops|
    requires forall i :: 0 <= i < |ops| ==> Legal(ops[i])
  {
    if n == 0 then s else Apply(SpaceAfter(s, first, ident, ops, n - 1), first, ident, ops[n - 1]).0
  }

  /** After any run the invariant holds and the page walk is what the abstract operations,
      applied in order, say it is; and every result is the abstract one. */
  lemma {:induction false} RunRefines(mems: seq<seq<Word>>, t: Tables, first: nat, ident: nat, ops: seq<Op>,
                                      pages: seq<Word>, n: nat)
    requires Placed(t) && ident < HIGH_INDEX && HIGH_PAGE <= first < NUM_PAGES
    requires Execution(mems, t, first, ident, ops, pages) && n <= |ops|
    requires DirectoryInvariant(mems[0], t)
    ensures DirectoryInvariant(mems[n], t)
    ensures SpaceOf(mems[n], t) == SpaceAfter(SpaceOf(mems[0], t), first, ident, ops, n)
    ensures forall i :: 0 <= i < n ==>
              pages[i] == Apply(SpaceAfter(SpaceOf(mems[0], t), first, ident, ops, i), first, ident, ops[i]).1
  {
    if n > 0 {
      RunRefines(mems, t, first, ident, ops, pages, n - 1);
      StepRefines(mems[n - 1], mems[n], t, first, ident, ops[n - 1], pages[n - 1]);
    }
  }

  /** Blocks once loaded stay loaded. */
  lemma {:induction false} LoadedGrows(s: Space, first: nat, ident: nat, ops: seq<Op>, i: nat, j: nat)
    requires HIGH_PAGE <= first < NUM_PAGES && i <= j <= |ops|
    requires forall k :: 0 <= k < |ops| ==> Legal(ops[k])
    ensures SpaceAfter(s, first, ident, ops, i).loaded <= SpaceAfter(s, first, ident, ops, j).loaded
  {
    if i < j {
      LoadedGrows(s, first, ident, ops, i, j - 1);
    }
  }

  /** reserve_block never returns the same block twice, whatever happens in between: the
      blocks it returns are 4 MiB aligned and strictly increasing. */
  lemma ReservedIncrease(s: Space, first: nat, ident: nat, ops: seq<Op>, i: nat, j: nat)
    requires HIGH_PAGE <= first < NUM_PAGES && i < j < |ops|
    requires forall k :: 0 <= k < |ops| ==> Legal(ops[k])
    requires ops[i].Reserve? && ops[j].Reserve?
    ensures
      var a := Apply(SpaceAfter(s, first, ident, ops, i), first, ident, Reserve).1;
      var b := Apply(SpaceAfter(s, first, ident, ops, j), first, ident, Reserve).1;
      && a % BLOCK_SIZE == 0 && b % BLOCK_SIZE == 0
      && (a == 0 ==> b == 0)
      && (a != 0 && b != 0 ==> a + BLOCK_SIZE <= b)
  {
    var si := SpaceAfter(s, first, ident, ops, i);
    var sj := SpaceAfter(s, first, ident, ops, j);
    LoadedGrows(s, first, ident, ops, i + 1, j);
    LoadedGrows(s, first, ident, ops, i, j);
    NextAbsent(si.loaded, sj.loaded, FirstBlock(first));
    BlocksApart(LowestAbsent(si.loaded, FirstBlock(first)), LowestAbsent(sj.loaded, FirstBlock(first)));
  }

  /** The addresses of two blocks, one above the other; the block at 4 GiB is null. */
  lemma BlocksApart(i: nat, k: nat)
    requires 0 < i <= k <= 1024 && (i < 1024 ==> i < k)
    ensures
      var a := if i < 1024 then PageAddr(1024 * i) else 0;
      var b := if k < 1024 then PageAddr(1024 * k) else 0;
      && a % BLOCK_SIZE == 0 && b % BLOCK_SIZE == 0
      && (a == 0 ==> b == 0)
      && (a != 0 && b != 0 ==> a + BLOCK_SIZE <= b)
  {
    BlockAddress(i);
    BlockAddress(k);
  }

  /** Once the lowest absent block has been loaded, the next is strictly higher. */
  lemma NextAbsent(before: set<nat>, after: set<nat>, lo: nat)
    requires lo <= 1024 && before <= after
    requires LowestAbsent(before, lo) < 1024 ==> LowestAbsent(before, lo) in after
    ensures LowestAbsent(before, lo) == 1024 ==> LowestAbsent(after, lo) == 1024
    ensures LowestAbsent(before, lo) < 1024 ==> LowestAbsent(before, lo) < LowestAbsent(after, lo)
  {
  }

  /** A block is wholly unmapped when reserve_block returns it. */
  lemma ReservedIsUnmapped(m: seq<Word>, m': seq<Word>, t: Tables, first: nat, page: Word, p: nat)
    requires DirectoryInvariant(m, t) && HIGH_PAGE <= first < NUM_PAGES && page != 0
    requires ReserveResult(m, m', t, FirstBlock(first), page)
    requires page / 0x1000 <= p < page / 0x1000 + 1024
    ensures p < NUM_PAGES && IsMemory(m') && Walk(m', t.dir, p).None?
  {
    var i := page / 0x40_0000;
    assert p / 1024 == i;
    LoadKeepsWalk(m, t, i, p);
  }
}
