/** The heap allocator as four counters: how many cells of each slab and how many bytes of
    the block arena have been handed out. There is no free, so this is all there is to it. */
module HeapSpec {
  import opened Kernel

  const HEAP_PAGES := 1024
  const CHUNK_PAGES := 32
  const BLOCK_ALIGN := 64
  const CHUNK_BYTES := 0x2_0000

  /** Cells in each slab: one chunk of 32 pages, divided. */
  const CELLS8 := 16384
  const CELLS16 := 8192
  const CELLS32 := 4096

  /** Where things are: the block arena and its length, the three slabs, and
      sizeof(HeapBlock). */
  datatype Geometry = Geometry(heap: nat, arena: nat, slab8: nat, slab16: nat, slab32: nat, header: nat)

  datatype Counters = Counters(n8: nat, n16: nat, n32: nat, used: nat)

  /** Arena and slabs in this order, without overlap and with a gap after the arena (a block
      of no bytes may end it), below 4 GiB; any header size up to
      the alignment. */
  predicate Laid(g: Geometry) {
    && 0 < g.header <= BLOCK_ALIGN
    && 0 < g.heap && g.arena % BLOCK_ALIGN == 0
    && g.heap + g.arena < g.slab8
    && g.slab8 + CHUNK_BYTES <= g.slab16
    && g.slab16 + CHUNK_BYTES <= g.slab32
    && g.slab32 + CHUNK_BYTES <= WORD_LIMIT
  }

  predicate InBounds(g: Geometry, c: Counters) {
    && c.n8 <= CELLS8 && c.n16 <= CELLS16 && c.n32 <= CELLS32
    && c.used <= g.arena && c.used % BLOCK_ALIGN == 0
  }

  /** What a block of `size` bytes takes from the arena: header and data, rounded up. */
  function Cost(g: Geometry, size: nat): (cost: nat)
    ensures g.header + size <= cost < g.header + size + BLOCK_ALIGN
    ensures cost % BLOCK_ALIGN == 0
  {
    (g.header + size + 63) / 64 * 64
  }

  datatype Grant = Grant(counters: Counters, ptr: nat)

  function Block(g: Geometry, c: Counters, size: nat): Grant {
    if c.used + Cost(g, size) <= g.arena
    then Grant(c.(used := c.used + Cost(g, size)), g.heap + c.used + g.header)
    else Grant(c, 0)
  }

  /** malloc on the counters: the smallest slab that fits and has a cell left, else a block.
      0 is null. */
  function Malloc(g: Geometry, c: Counters, size: nat): Grant {
    if size > HEAP_PAGES * PAGE_SIZE then Grant(c, 0)
    else if size <= 8 && c.n8 < CELLS8 then Grant(c.(n8 := c.n8 + 1), g.slab8 + 8 * c.n8)
    else From16(g, c, size)
  }

  function From16(g: Geometry, c: Counters, size: nat): Grant {
    if size <= 16 && c.n16 < CELLS16 then Grant(c.(n16 := c.n16 + 1), g.slab16 + 16 * c.n16)
    else From32(g, c, size)
  }

  function From32(g: Geometry, c: Counters, size: nat): Grant {
    if size <= 32 && c.n32 < CELLS32 then Grant(c.(n32 := c.n32 + 1), g.slab32 + 32 * c.n32)
    else Block(g, c, size)
  }

  // ---- one call ----

  /** Address a has been handed out, or holds a block header. */
  predicate Owned(g: Geometry, c: Counters, a: nat) {
    || g.heap <= a < g.heap + c.used
    || g.slab8 <= a < g.slab8 + 8 * c.n8
    || g.slab16 <= a < g.slab16 + 16 * c.n16
    || g.slab32 <= a < g.slab32 + 32 * c.n32
  }

  /** Null exactly when the size is over the limit or every store open to it is used up. */
  lemma NullIff(g: Geometry, c: Counters, size: nat)
    requires Laid(g) && InBounds(g, c)
    ensures Malloc(g, c, size).ptr == 0 <==>
            (|| size > 0x40_0000
             || (&& (size <= 8 ==> c.n8 == CELLS8)
                 && (size <= 16 ==> c.n16 == CELLS16)
                 && (size <= 32 ==> c.n32 == CELLS32)
                 && c.used + Cost(g, size) > g.arena))
    ensures Malloc(g, c, size).ptr == 0 ==> Malloc(g, c, size).counters == c
  {
  }

  /** Which store serves a request, told by where the pointer lies, for every state. slab8 if
      it can; else slab16 if it can; else slab32 if it can; else the arena if that can. A slab
      gives its next cell, and the arena the next bytes after a header. */
  lemma ServedFrom(g: Geometry, c: Counters, size: nat)
    requires Laid(g) && InBounds(g, c)
    ensures
      var r := Malloc(g, c, size);
      var can8 := size <= 8 && c.n8 < 16384;
      var can16 := size <= 16 && c.n16 < 8192;
      var can32 := size <= 32 && c.n32 < 4096;
      var canBlock := size <= 0x40_0000 && c.used + g.header + size <= g.arena;
      && (g.slab8 <= r.ptr < g.slab8 + 0x2_0000 <==> can8)
      && (g.slab16 <= r.ptr < g.slab16 + 0x2_0000 <==> can16 && !can8)
      && (g.slab32 <= r.ptr < g.slab32 + 0x2_0000 <==> can32 && !can16 && !can8)
      && (g.heap < r.ptr <= g.heap + g.arena <==> canBlock && !can32 && !can16 && !can8)
      && (can8 ==> r == Grant(c.(n8 := c.n8 + 1), g.slab8 + 8 * c.n8))
      && (can16 && !can8 ==> r == Grant(c.(n16 := c.n16 + 1), g.slab16 + 16 * c.n16))
      && (can32 && !can16 && !can8 ==> r == Grant(c.(n32 := c.n32 + 1), g.slab32 + 32 * c.n32))
      && (canBlock && !can32 && !can16 && !can8 ==>
            && r.ptr == g.heap + c.used + g.header
            && r.counters == c.(used := c.used + (g.header + size + 63) / 64 * 64))
      && (!canBlock && !can32 && !can16 && !can8 ==> r == Grant(c, 0))
  {
    CostFits(c.used, g.header + size, g.arena);
  }

  /** Rounding up does not matter to whether a block fits. */
  lemma CostFits(used: nat, need: nat, arena: nat)
    requires used % 64 == 0 && arena % 64 == 0
    ensures used + (need + 63) / 64 * 64 <= arena <==> used + need <= arena
  {
    assert used == 64 * (used / 64) && arena == 64 * (arena / 64);
  }

  /** What a call hands out was nobody's, is now its caller's, and nothing is taken back. */
  lemma GrantIsFresh(g: Geometry, c: Counters, size: nat, a: nat)
    requires Laid(g) && InBounds(g, c)
    ensures
      var r := Malloc(g, c, size);
      && InBounds(g, r.counters)
      && (Owned(g, c, a) ==> Owned(g, r.counters, a))
      && (r.ptr != 0 && (r.ptr <= a < r.ptr + size || a == r.ptr) ==> !Owned(g, c, a))
      && (r.ptr != 0 && r.ptr <= a < r.ptr + size ==> Owned(g, r.counters, a))
  {
  }

  // ---- whole runs ----

  ghost function After(g: Geometry, c: Counters, sizes: seq<nat>, n: nat): Counters
    requires n <= |sizes|
  {
    if n == 0 then c else Malloc(g, After(g, c, sizes, n - 1), sizes[n - 1]).counters
  }

  /** The pointer returned by request number i of a run. */
  ghost function Pointer(g: Geometry, c: Counters, sizes: seq<nat>, i: nat): nat
    requires i < |sizes|
  {
    Malloc(g, After(g, c, sizes, i), sizes[i]).ptr
  }

  lemma {:induction false} AfterInBounds(g: Geometry, c: Counters, sizes: seq<nat>, n: nat)
    requires Laid(g) && InBounds(g, c) && n <= |sizes|
    ensures InBounds(g, After(g, c, sizes, n))
  {
    if n > 0 {
      AfterInBounds(g, c, sizes, n - 1);
      GrantIsFresh(g, After(g, c, sizes, n - 1), sizes[n - 1], 0);
    }
  }

  lemma {:induction false} OwnedGrows(g: Geometry, c: Counters, sizes: seq<nat>, i: nat, j: nat, a: nat)
    requires Laid(g) && InBounds(g, c) && i <= j <= |sizes|
    requires Owned(g, After(g, c, sizes, i), a)
    ensures Owned(g, After(g, c, sizes, j), a)
  {
    if i < j {
      OwnedGrows(g, c, sizes, i, j - 1, a);
      AfterInBounds(g, c, sizes, j - 1);
      GrantIsFresh(g, After(g, c, sizes, j - 1), sizes[j - 1], a);
    }
  }

  /** Byte a lies in the range request i was given. */
  ghost predicate Given(g: Geometry, c: Counters, sizes: seq<nat>, i: nat, a: nat)
    requires i < |sizes|
  {
    var p := Pointer(g, c, sizes, i);
    p != 0 && p <= a < p + sizes[i]
  }

  /** No byte is ever given out twice in a run. */
  lemma RunDisjoint(g: Geometry, c: Counters, sizes: seq<nat>, i: nat, j: nat, a: nat)
    requires Laid(g) && InBounds(g, c) && i < j < |sizes|
    requires Given(g, c, sizes, i, a)
    ensures !Given(g, c, sizes, j, a)
  {
    AfterInBounds(g, c, sizes, i);
    AfterInBounds(g, c, sizes, j);
    GrantIsFresh(g, After(g, c, sizes, i), sizes[i], a);
    OwnedGrows(g, c, sizes, i + 1, j, a);
    GrantIsFresh(g, After(g, c, sizes, j), sizes[j], a);
  }

  /** No two requests get the same pointer, requests for no bytes included. */
  lemma RunDistinct(g: Geometry, c: Counters, sizes: seq<nat>, i: nat, j: nat)
    requires Laid(g) && InBounds(g, c) && i < j < |sizes|
    requires Pointer(g, c, sizes, i) != 0 && Pointer(g, c, sizes, j) != 0
    ensures Pointer(g, c, sizes, i) != Pointer(g, c, sizes, j)
  {
    var ci, cj := After(g, c, sizes, i), After(g, c, sizes, j);
    var p := Pointer(g, c, sizes, i);
    AfterInBounds(g, c, sizes, i);
    AfterInBounds(g, c, sizes, j);
    UsedGrows(g, c, sizes, i + 1, j);
    if Source(g, ci, sizes[i]) == Arena {
      assert p == g.heap + ci.used + g.header && ci.used < cj.used;
    } else {
      assert Owned(g, Malloc(g, ci, sizes[i]).counters, p);
      OwnedGrows(g, c, sizes, i + 1, j, p);
      GrantIsFresh(g, cj, sizes[j], p);
    }
  }

  /** The place the arena is used up to after j requests, where the next header goes. */
  ghost function Top(g: Geometry, c: Counters, sizes: seq<nat>, j: nat): nat
    requires j <= |sizes|
  {
    After(g, c, sizes, j).used
  }

  /** What a call gives out lies above the top before it, past a header, or in a slab; and
      below the top after it, or in a slab. */
  lemma GivenBetweenTops(g: Geometry, c: Counters, sizes: seq<nat>, i: nat, a: nat)
    requires Laid(g) && InBounds(g, c) && i < |sizes| && Given(g, c, sizes, i, a)
    ensures || g.heap + Top(g, c, sizes, i) + g.header <= a < g.heap + Top(g, c, sizes, i + 1)
            || g.heap + g.arena <= a
  {
    AfterInBounds(g, c, sizes, i);
  }

  /** No byte ever given out, early or late, lies in the header at a top. */
  lemma DataAvoidsTop(g: Geometry, c: Counters, sizes: seq<nat>, i: nat, j: nat, a: nat)
    requires Laid(g) && InBounds(g, c) && i < |sizes| && j <= |sizes|
    requires Given(g, c, sizes, i, a) && Top(g, c, sizes, j) < g.arena
    ensures !(g.heap + Top(g, c, sizes, j) <= a < g.heap + Top(g, c, sizes, j) + g.header)
  {
    GivenBetweenTops(g, c, sizes, i, a);
    HeaderFits(g, c, sizes, j);
    if j <= i {
      UsedGrows(g, c, sizes, j, i);
    } else {
      UsedGrows(g, c, sizes, i + 1, j);
    }
  }

  /** A header at a top inside the arena ends inside it. */
  lemma HeaderFits(g: Geometry, c: Counters, sizes: seq<nat>, j: nat)
    requires Laid(g) && InBounds(g, c) && j <= |sizes| && Top(g, c, sizes, j) < g.arena
    ensures Top(g, c, sizes, j) + g.header <= g.arena
  {
    AfterInBounds(g, c, sizes, j);
    AlignedBelow(Top(g, c, sizes, j), g.arena);
  }

  lemma AlignedBelow(a: nat, b: nat)
    requires a % BLOCK_ALIGN == 0 && b % BLOCK_ALIGN == 0 && a < b
    ensures a + BLOCK_ALIGN <= b
  {
    assert a / BLOCK_ALIGN < b / BLOCK_ALIGN;
  }

  /** Every byte given out lies in the arena or a slab. */
  lemma RunInside(g: Geometry, c: Counters, sizes: seq<nat>, i: nat, a: nat)
    requires Laid(g) && InBounds(g, c) && i < |sizes| && Given(g, c, sizes, i, a)
    ensures g.heap <= a < g.heap + g.arena || g.slab8 <= a < g.slab32 + CHUNK_BYTES
  {
    AfterInBounds(g, c, sizes, i);
    GrantIsFresh(g, After(g, c, sizes, i), sizes[i], a);
    AfterInBounds(g, c, sizes, i + 1);
  }

  // ---- what the counters count ----

  /** Which store a request was served from. */
  datatype Store = Slab8 | Slab16 | Slab32 | Arena | Nowhere

  function Source(g: Geometry, c: Counters, size: nat): Store {
    if Malloc(g, c, size).ptr == 0 then Nowhere
    else if Malloc(g, c, size).counters.n8 != c.n8 then Slab8
    else if Malloc(g, c, size).counters.n16 != c.n16 then Slab16
    else if Malloc(g, c, size).counters.n32 != c.n32 then Slab32
    else Arena
  }

  /** Bytes that requests 0 .. n - 1 of a run took from the arena. */
  ghost function ArenaBytes(g: Geometry, c: Counters, sizes: seq<nat>, n: nat): nat
    requires n <= |sizes|
  {
    if n == 0 then 0
    else ArenaBytes(g, c, sizes, n - 1)
         + if Source(g, After(g, c, sizes, n - 1), sizes[n - 1]) == Arena then Cost(g, sizes[n - 1]) else 0
  }

  /** Requests among the first n served from a slab. */
  ghost function Served(g: Geometry, c: Counters, sizes: seq<nat>, n: nat, from: Store): nat
    requires n <= |sizes|
  {
    if n == 0 then 0
    else Served(g, c, sizes, n - 1, from)
         + if Source(g, After(g, c, sizes, n - 1), sizes[n - 1]) == from then 1 else 0
  }

  /** Nothing leaks: the arena bytes used are exactly the costs of the blocks granted, and
      each slab's counter is the number of requests it served. */
  lemma {:induction false} RunConserves(g: Geometry, c: Counters, sizes: seq<nat>, n: nat)
    requires Laid(g) && InBounds(g, c) && n <= |sizes|
    ensures
      var d := After(g, c, sizes, n);
      && d.used == c.used + ArenaBytes(g, c, sizes, n)
      && d.n8 == c.n8 + Served(g, c, sizes, n, Slab8)
      && d.n16 == c.n16 + Served(g, c, sizes, n, Slab16)
      && d.n32 == c.n32 + Served(g, c, sizes, n, Slab32)
  {
    if n > 0 {
      RunConserves(g, c, sizes, n - 1);
      AfterInBounds(g, c, sizes, n - 1);
    }
  }

  /** A request once refused a block is refused for good, and so is any larger one. */
  lemma RefusedForGood(g: Geometry, c: Counters, sizes: seq<nat>, i: nat, j: nat)
    requires Laid(g) && InBounds(g, c) && i <= j < |sizes| && 32 < sizes[i] <= sizes[j]
    requires Pointer(g, c, sizes, i) == 0
    ensures Pointer(g, c, sizes, j) == 0
  {
    UsedGrows(g, c, sizes, i, j);
    AfterInBounds(g, c, sizes, i);
    AfterInBounds(g, c, sizes, j);
    NullIff(g, After(g, c, sizes, i), sizes[i]);
    NullIff(g, After(g, c, sizes, j), sizes[j]);
    CostGrows(g, sizes[i], sizes[j]);
  }

  lemma CostGrows(g: Geometry, a: nat, b: nat)
    requires a <= b
    ensures Cost(g, a) <= Cost(g, b)
  {
  }

  lemma {:induction false} UsedGrows(g: Geometry, c: Counters, sizes: seq<nat>, i: nat, j: nat)
    requires Laid(g) && InBounds(g, c) && i <= j <= |sizes|
    ensures After(g, c, sizes, i).used <= After(g, c, sizes, j).used
  {
    if i < j {
      UsedGrows(g, c, sizes, i, j - 1);
    }
  }
}
