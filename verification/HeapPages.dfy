/** The heap's pages: which frames the chunks bring, and how the page tables come to map
    them, one page after another, without touching anything else. */
module HeapPages {
  import opened Kernel
  import opened Paging
  import opened VirtMem
  import opened AddressSpace
  import opened PhysSpec
  import opened PhysTheorems

  /** Pages hp, hp + 1, ... are mapped to the listed frames. */
  ghost predicate MapsTo(m: seq<Word>, t: Tables, hp: nat, frames: seq<nat>)
    requires IsMemory(m) && Placed(t) && hp + |frames| <= NUM_PAGES
  {
    forall q :: 0 <= q < |frames| ==> Walk(m, t.dir, hp + q) == Some(frames[q])
  }

  /** No translation of the high half outside the block of page hp has changed. */
  ghost predicate SameElsewhere(m0: seq<Word>, m: seq<Word>, t: Tables, hp: nat)
    requires IsMemory(m0) && IsMemory(m) && Placed(t)
  {
    forall p :: HIGH_PAGE <= p < NUM_PAGES && !(hp <= p < hp + 1024) ==> Walk(m, t.dir, p) == Walk(m0, t.dir, p)
  }

  /** No directory entry below KERNEL_BASE names the table of block i. */
  ghost predicate Unshared(m: seq<Word>, t: Tables, i: nat)
    requires IsMemory(m) && Placed(t) && HIGH_INDEX <= i < 1024
  {
    forall e :: 0 <= e < HIGH_INDEX ==> !Shares(m, t, e, i)
  }

  /** A block reserved for the heap, and how far it is mapped. */
  ghost predicate HeapMapped(m0: seq<Word>, m: seq<Word>, t: Tables, hp: nat, frames: seq<nat>) {
    && IsMemory(m0) && DirectoryInvariant(m, t)
    && HIGH_PAGE <= hp && hp % 1024 == 0 && hp + 1024 <= NUM_PAGES && |frames| <= 1024
    && Loaded(m, t, hp / 1024) && Unshared(m, t, hp / 1024)
    && MapsTo(m, t, hp, frames)
    && SameElsewhere(m0, m, t, hp)
  }

  /** A block just reserved: nothing mapped in it yet, nothing changed elsewhere. */
  lemma BlockReserved(m0: seq<Word>, m: seq<Word>, t: Tables, first: nat, page: Word)
    requires DirectoryInvariant(m0, t) && HIGH_PAGE <= first < NUM_PAGES && page != 0
    requires ReserveResult(m0, m, t, FirstBlock(first), page)
    ensures HeapMapped(m0, m, t, page / 0x1000, [])
  {
    var i := page / 0x40_0000;
    LoadKeepsInvariant(m0, t, i);
    LoadEntry(m0, t, i);
    assert page / 0x1000 == 1024 * i;
    var m' := Load(m0, t, i);
    forall e | 0 <= e < HIGH_INDEX ensures !Shares(m', t, e, i) {
      assert Pde(m', t, e) == Pde(m0, t, e);
    }
    forall p | HIGH_PAGE <= p < NUM_PAGES ensures Walk(m, t.dir, p) == Walk(m0, t.dir, p) {
      LoadKeepsWalk(m0, t, i, p);
    }
  }

  /** Mapping the next page of the block. */
  lemma NextPage(m0: seq<Word>, m: seq<Word>, t: Tables, hp: nat, frames: seq<nat>, f: nat)
    requires HeapMapped(m0, m, t, hp, frames) && |frames| < 1024 && f < NUM_PAGES
    ensures HeapMapped(m0, Map(m, t, hp + |frames|, f), t, hp, frames + [f])
  {
    var p := hp + |frames|;
    var m' := Map(m, t, p, f);
    assert p / 1024 == hp / 1024;
    MapKeepsInvariant(m, t, p, f);
    MapWrites(m, t, p, f);
    forall e | 0 <= e < HIGH_INDEX ensures !Shares(m', t, e, hp / 1024) {
      assert !Shares(m, t, e, hp / 1024);
    }
    forall q | HIGH_PAGE <= q < NUM_PAGES ensures Walk(m', t.dir, q) == if q == p then Some(f) else Walk(m, t.dir, q) {
      MapEffect(m, t, p, f, q);
    }
  }

  /** The same, from what map_page promises for a given address. */
  lemma NextPageMapped(m0: seq<Word>, m: seq<Word>, m': seq<Word>, t: Tables, first: nat, hp: nat, frames: seq<nat>,
                       f: nat, virtPage: Word, page: Word)
    requires HeapMapped(m0, m, t, hp, frames) && |frames| < 1024 && f < NUM_PAGES
    requires virtPage == 0x1000 * (hp + |frames|) && MapResult(m, m', t, first, virtPage, f, page)
    ensures HeapMapped(m0, m', t, hp, frames + [f])
  {
    NextPage(m0, m, t, hp, frames, f);
  }

  // ---- chunks ----

  /** The first j frames of a chunk. */
  function ChunkPart(chunk: nat, j: nat): (frames: seq<nat>)
    ensures |frames| == j && forall k :: 0 <= k < j ==> frames[k] == chunk + k
  {
    seq(j, k => chunk + k)
  }

  lemma ChunkPartStep(frames: seq<nat>, chunk: nat, j: nat)
    ensures frames + ChunkPart(chunk, j) + [chunk + j] == frames + ChunkPart(chunk, j + 1)
  {
  }

  /** All frames of a list of 32-page chunks, in order. */
  function ChunkFrames(chunks: seq<nat>): (frames: seq<nat>)
    ensures |frames| == 32 * |chunks|
  {
    if chunks == [] then [] else ChunkFrames(chunks[..|chunks| - 1]) + ChunkPart(chunks[|chunks| - 1], 32)
  }

  lemma MoreFrames(chunks: seq<nat>, chunk: nat)
    ensures ChunkFrames(chunks + [chunk]) == ChunkFrames(chunks) + ChunkPart(chunk, 32)
  {
    assert (chunks + [chunk])[..|chunks|] == chunks;
  }

  lemma {:induction false} ChunkFrameAt(chunks: seq<nat>, i: nat, j: nat)
    requires i < |chunks| && j < 32
    ensures 32 * i + j < |ChunkFrames(chunks)| && ChunkFrames(chunks)[32 * i + j] == chunks[i] + j
  {
    if i < |chunks| - 1 {
      ChunkFrameAt(chunks[..|chunks| - 1], i, j);
    }
  }

  /** Chunks handed out by the physical allocator since the pages in marked0 were marked:
      aligned, none of them marked before, no two overlapping. */
  ghost predicate ChunksTaken(marked0: set<nat>, marked: set<nat>, chunks: seq<nat>) {
    && marked0 <= marked
    && (forall i :: 0 <= i < |chunks| ==>
          && chunks[i] % 32 == 0 && 0 < chunks[i] && chunks[i] + 32 <= NUM_PAGES
          && Span(chunks[i], 32) <= marked && Span(chunks[i], 32) !! marked0)
    && (forall i, j :: 0 <= i < j < |chunks| ==> Span(chunks[i], 32) !! Span(chunks[j], 32))
  }

  /** How many chunks can be handed out. */
  ghost function ChunkCount(marked: set<nat>): nat {
    |OpenGroups(marked, ThirtyTwo)|
  }

  /** The same, when nothing else was handed out meanwhile, and the chunks' addresses have
      been noted in order. */
  ghost predicate ChunksNoted(notes: seq<Word>, marked0: set<nat>, marked: set<nat>, chunks: seq<nat>) {
    && |chunks| <= |notes| && ChunksTaken(marked0, marked, chunks)
    && ChunkCount(marked) + |chunks| == ChunkCount(marked0)
    && (forall k :: 0 <= k < |chunks| ==> notes[k] == 0x1000 * chunks[k])
  }

  lemma ChunkTaken(marked0: set<nat>, s: State, chunks: seq<nat>)
    requires PhysSpec.Valid(s) && ChunksTaken(marked0, s.marked, chunks)
    ensures
      var a := Alloc(s, ThirtyTwo);
      && PhysSpec.Valid(a.state) && a.page < NUM_PAGES
      && (a.page == 0 <==> ChunkCount(s.marked) == 0)
      && (a.page != 0 ==> a.page + 32 <= NUM_PAGES && ChunksTaken(marked0, a.state.marked, chunks + [a.page])
                          && ChunkCount(a.state.marked) == ChunkCount(s.marked) - 1)
  {
    CallSafe(s, ThirtyTwo);
    TakesOneGroup(s, ThirtyTwo);
  }

  /** The frame of heap page q lies in its chunk, and was unmarked to begin with. */
  lemma FrameInChunk(marked0: set<nat>, marked: set<nat>, chunks: seq<nat>, q: nat)
    requires ChunksTaken(marked0, marked, chunks) && q < 32 * |chunks|
    ensures ChunkFrames(chunks)[q] == chunks[q / 32] + q % 32 < NUM_PAGES
    ensures ChunkFrames(chunks)[q] in Span(chunks[q / 32], 32) && ChunkFrames(chunks)[q] !in marked0
  {
    ChunkFrameAt(chunks, q / 32, q % 32);
  }

  /** Distinct heap pages have distinct frames. */
  lemma FramesDistinct(marked0: set<nat>, marked: set<nat>, chunks: seq<nat>, q: nat, r: nat)
    requires ChunksTaken(marked0, marked, chunks) && q < r < 32 * |chunks|
    ensures ChunkFrames(chunks)[q] != ChunkFrames(chunks)[r]
  {
    FrameInChunk(marked0, marked, chunks, q);
    FrameInChunk(marked0, marked, chunks, r);
    if q / 32 < r / 32 {
      assert Span(chunks[q / 32], 32) !! Span(chunks[r / 32], 32);
    } else {
      assert q / 32 == r / 32;
    }
  }
}
