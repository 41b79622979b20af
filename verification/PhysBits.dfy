/** The bytes of the physical page bitmap read as a set of pages, and what one probe of
    each granularity does to that set. */
module PhysBits {
  import opened Kernel
  import opened Bitmap
  import opened PhysSpec
  import opened PhysScan

  const NUM_BYTES := 0x2_0000

  /** The pages a bitmap marks. */
  ghost function PagesOf(bm: seq<bv8>): set<nat> {
    set n | 0 <= n < 8 * |bm| && Marked(bm, n)
  }

  lemma PagesMark(bm: seq<bv8>, bm': seq<bv8>, n: nat)
    requires n < 8 * |bm| && bm' == Mark(bm, n)
    ensures PagesOf(bm') == PagesOf(bm) + Group(One, n)
  {
    OnePage(n);
    forall k | 0 <= k < 8 * |bm| ensures Marked(bm', k) <==> Marked(bm, k) || k == n {
      MarkSets(bm, n, k);
    }
  }

  lemma BitPage(bm: seq<bv8>, i: nat, j: nat)
    requires i < |bm| && j < 8
    ensures 8 * i + j in PagesOf(bm) <==> Bit(bm[i], j)
  {
    assert Marked(bm, 8 * i + j) <==> Bit(bm[i], j);
  }

  lemma PageBit(bm: seq<bv8>, i: nat, p: nat)
    requires i < |bm| && 8 * i <= p < 8 * i + 8
    ensures p in PagesOf(bm) <==> Bit(bm[i], p - 8 * i)
  {
    BitPage(bm, i, p - 8 * i);
  }

  /** A byte and the eight pages it stands for. */
  lemma BytePages(bm: seq<bv8>, i: nat)
    requires i < |bm|
    ensures bm[i] == 0xff <==> forall n :: 8 * i <= n < 8 * i + 8 ==> n in PagesOf(bm)
    ensures bm[i] == 0 <==> forall n :: 8 * i <= n < 8 * i + 8 ==> n !in PagesOf(bm)
  {
    FullByte(bm[i]);
    EmptyByte(bm[i]);
    forall j | 0 <= j < 8 ensures Bit(bm[i], j) <==> 8 * i + j in PagesOf(bm) {
      BitPage(bm, i, j);
    }
    forall n | 8 * i <= n < 8 * i + 8 ensures n in PagesOf(bm) <==> Bit(bm[i], n - 8 * i) {
      assert n == 8 * i + (n - 8 * i);
    }
  }

  lemma PagesFill(bm: seq<bv8>, i: nat)
    requires i < |bm|
    ensures PagesOf(bm[i := 0xff]) == PagesOf(bm) + Span(8 * i, 8)
  {
    var bm' := bm[i := 0xff];
    BytePages(bm', i);
    forall n | 0 <= n < 8 * |bm| && n / 8 != i ensures Marked(bm', n) <==> Marked(bm, n) {
    }
  }

  /** A little-endian 32-bit word of the bitmap, as ((uint32_t*)mem_bitmap)[k] reads it. */
  function WordAt(bm: seq<bv8>, k: nat): bv32
    requires 4 * k + 4 <= |bm|
  {
    (bm[4 * k] as bv32) | ((bm[4 * k + 1] as bv32) << 8)
    | ((bm[4 * k + 2] as bv32) << 16) | ((bm[4 * k + 3] as bv32) << 24)
  }

  /** Storing a word, as ((uint32_t*)mem_bitmap)[k] = w does. */
  function StoreWord(bm: seq<bv8>, k: nat, w: bv32): seq<bv8>
    requires 4 * k + 4 <= |bm|
  {
    bm[4 * k := (w & 0xff) as bv8]
      [4 * k + 1 := ((w >> 8) & 0xff) as bv8]
      [4 * k + 2 := ((w >> 16) & 0xff) as bv8]
      [4 * k + 3 := ((w >> 24) & 0xff) as bv8]
  }

  /** The word view agrees with the byte view: what is stored is what is read back, and a
      word is 0 exactly when its four bytes are. */
  lemma WordView(bm: seq<bv8>, k: nat, w: bv32)
    requires 4 * k + 4 <= |bm|
    ensures WordAt(StoreWord(bm, k, w), k) == w
    ensures WordAt(bm, k) == 0 <==> bm[4 * k] == 0 && bm[4 * k + 1] == 0 && bm[4 * k + 2] == 0 && bm[4 * k + 3] == 0
  {
  }

  function WithBytesFilled(bm: seq<bv8>, k: nat): seq<bv8>
    requires 4 * k + 4 <= |bm|
  {
    bm[4 * k := 0xff][4 * k + 1 := 0xff][4 * k + 2 := 0xff][4 * k + 3 := 0xff]
  }

  lemma PagesOfFilledBytes(bm: seq<bv8>, k: nat)
    requires 4 * k + 4 <= |bm|
    ensures PagesOf(WithBytesFilled(bm, k)) == PagesOf(bm) + Span(32 * k, 32)
  {
    var bm1 := bm[4 * k := 0xff];
    var bm2 := bm1[4 * k + 1 := 0xff];
    var bm3 := bm2[4 * k + 2 := 0xff];
    PagesFill(bm, 4 * k);
    PagesFill(bm1, 4 * k + 1);
    PagesFill(bm2, 4 * k + 2);
    PagesFill(bm3, 4 * k + 3);
  }

  /** Filling a word is four byte updates. */
  lemma FillWord(bm: seq<bv8>, k: nat)
    requires 4 * k + 4 <= |bm|
    ensures StoreWord(bm, k, 0xffff_ffff) == WithBytesFilled(bm, k)
    ensures PagesOf(StoreWord(bm, k, 0xffff_ffff)) == PagesOf(bm) + Span(32 * k, 32)
  {
    PagesOfFilledBytes(bm, k);
  }

  lemma WordPages(bm: seq<bv8>, k: nat)
    requires 4 * k + 4 <= |bm|
    ensures WordAt(bm, k) == 0 <==> forall n :: 32 * k <= n < 32 * k + 32 ==> n !in PagesOf(bm)
  {
    WordView(bm, k, 0);
    BytePages(bm, 4 * k);
    BytePages(bm, 4 * k + 1);
    BytePages(bm, 4 * k + 2);
    BytePages(bm, 4 * k + 3);
  }

  /** bit_to_page_addr */
  function PageAddr(bit: nat): Word {
    Wrap(bit * 0x1000)
  }

  // ---- one probe of each kind, on the bitmap as a sequence ----

  ghost function StateOf(bm: seq<bv8>, hint: nat): State {
    State(PagesOf(bm), hint)
  }

  lemma NothingOpen(marked: set<nat>, g: Grain, lo: nat, hi: nat)
    requires lo <= hi
    requires forall p :: lo <= p < hi ==> !Open(marked, g, p)
    ensures FirstOpen(marked, g, lo, hi) == hi
  {
  }

  lemma WordStart(hint: nat)
    ensures var b := hint / 8 - hint / 8 % 4; 0 <= b && b % 4 == 0 && 8 * b == Start(ThirtyTwo, hint)
  {
  }

  lemma NextWord(i: nat, bound: nat)
    requires i % 4 == 0 && bound % 4 == 0 && i < bound
    ensures i + 4 <= bound && (i + 4) % 4 == 0
  {
  }

  lemma FirstOpenAt(marked: set<nat>, g: Grain, lo: nat, p: nat, hi: nat)
    requires lo <= p < hi && Open(marked, g, p)
    requires forall q :: lo <= q < p ==> !Open(marked, g, q)
    ensures FirstOpen(marked, g, lo, hi) == p
  {
  }

  lemma OneOpen(marked: set<nat>, p: nat)
    ensures Open(marked, One, p) <==> p !in marked
  {
  }

  /** The lowest clear bit of a byte is its first unmarked page. */
  lemma FirstClearPage(bm: seq<bv8>, i: nat, j: nat)
    requires i < |bm| && j < 8 && !Bit(bm[i], j)
    requires forall k :: 0 <= k < j ==> Bit(bm[i], k)
    ensures FirstOpen(PagesOf(bm), One, 8 * i, 8 * i + 8) == 8 * i + j
  {
    PageBit(bm, i, 8 * i + j);
    forall p | 8 * i <= p < 8 * i + j ensures p in PagesOf(bm) {
      PageBit(bm, i, p);
    }
    FirstUnmarked(PagesOf(bm), 8 * i, 8 * i + j, 8 * i + 8);
  }

  lemma FirstUnmarked(marked: set<nat>, lo: nat, p: nat, hi: nat)
    requires lo <= p < hi && p !in marked && forall q :: lo <= q < p ==> q in marked
    ensures FirstOpen(marked, One, lo, hi) == p
  {
    OneOpen(marked, p);
    forall q | lo <= q < p ensures !Open(marked, One, q) {
      OneOpen(marked, q);
    }
    FirstOpenAt(marked, One, lo, p, hi);
  }

  lemma OnePage(p: nat)
    ensures Group(One, p) == {p}
  {
  }

  lemma MarkByte(bm: seq<bv8>, i: nat, j: nat)
    requires i < |bm| && j < 8
    ensures Mark(bm, 8 * i + j) == bm[i := bm[i] | Mask(j)]
  {
    assert (8 * i + j) / 8 == i && (8 * i + j) % 8 == j;
  }

  lemma SetBitPages(bm: seq<bv8>, i: nat, j: nat)
    requires i < |bm| && j < 8
    ensures PagesOf(bm[i := bm[i] | Mask(j)]) == PagesOf(bm) + Group(One, 8 * i + j)
  {
    MarkByte(bm, i, j);
    PagesMark(bm, bm[i := bm[i] | Mask(j)], 8 * i + j);
  }

  lemma ProbeOneTaken(bm: seq<bv8>, hint: nat, i: nat, j: nat)
    requires i < |bm| && j < 8 && !Bit(bm[i], j) && |bm| == NUM_BYTES
    requires forall k :: 0 <= k < j ==> Bit(bm[i], k)
    ensures Probed(StateOf(bm, hint), StateOf(bm[i := bm[i] | Mask(j)], 8 * i + j), One, 8 * i, PageAddr(8 * i + j))
  {
    FirstClearPage(bm, i, j);
    SetBitPages(bm, i, j);
  }

  lemma ProbeOneFull(bm: seq<bv8>, hint: nat, i: nat)
    requires i < |bm| && bm[i] == 0xff
    ensures Probed(StateOf(bm, hint), StateOf(bm, hint), One, 8 * i, 0)
  {
    BytePages(bm, i);
    forall p | 8 * i <= p < 8 * i + 8 ensures !Open(PagesOf(bm), One, p) {
      OneOpen(PagesOf(bm), p);
    }
    NothingOpen(PagesOf(bm), One, 8 * i, 8 * i + 8);
  }

  lemma ProbeEightTaken(bm: seq<bv8>, hint: nat, i: nat)
    requires i < |bm| && bm[i] == 0 && |bm| == NUM_BYTES
    ensures Probed(StateOf(bm, hint), StateOf(bm[i := 0xff], 8 * i), Eight, 8 * i, PageAddr(8 * i))
  {
    BytePages(bm, i);
    PagesFill(bm, i);
    assert Open(PagesOf(bm), Eight, 8 * i);
  }

  lemma ProbeEightRefused(bm: seq<bv8>, hint: nat, i: nat)
    requires i < |bm| && bm[i] != 0
    ensures Probed(StateOf(bm, hint), StateOf(bm, hint), Eight, 8 * i, 0)
  {
    BytePages(bm, i);
    NothingOpen(PagesOf(bm), Eight, 8 * i, 8 * i + 8);
  }

  lemma ProbeThirtyTwoTaken(bm: seq<bv8>, hint: nat, k: nat)
    requires 4 * k + 4 <= |bm| && WordAt(bm, k) == 0 && |bm| == NUM_BYTES
    ensures Probed(StateOf(bm, hint), StateOf(StoreWord(bm, k, 0xffff_ffff), 32 * k), ThirtyTwo, 32 * k,
                   PageAddr(32 * k))
  {
    WordPages(bm, k);
    FillWord(bm, k);
    assert Open(PagesOf(bm), ThirtyTwo, 32 * k);
  }

  lemma ProbeThirtyTwoRefused(bm: seq<bv8>, hint: nat, k: nat)
    requires 4 * k + 4 <= |bm| && WordAt(bm, k) != 0
    ensures Probed(StateOf(bm, hint), StateOf(bm, hint), ThirtyTwo, 32 * k, 0)
  {
    WordPages(bm, k);
    NothingOpen(PagesOf(bm), ThirtyTwo, 32 * k, 32 * k + 32);
  }
}
