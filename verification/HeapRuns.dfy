/** What callers of malloc observe, from a heap just set up: each pointer as a function of the
    sizes asked for and the pointers returned before it, and nothing else. */
module HeapRuns {
  import opened Kernel
  import opened HeapSpec
  import opened BlockList
  import HA = HeapAllocators

  /** How many of the first n pointers lie in [lo, hi). */
  function Among(ptrs: seq<Word>, n: nat, lo: nat, hi: nat): nat
    requires n <= |ptrs|
  {
    if n == 0 then 0 else Among(ptrs, n - 1, lo, hi) + if lo <= ptrs[n - 1] < hi then 1 else 0
  }

  /** The bytes of the block arena behind the first n pointers: each block there takes its
      header and its data, rounded up to 64. */
  function Spent(heap: nat, header: nat, ptrs: seq<Word>, sizes: seq<Word>, n: nat): nat
    requires n <= |ptrs| == |sizes|
  {
    if n == 0 then 0
    else Spent(heap, header, ptrs, sizes, n - 1)
         + if heap < ptrs[n - 1] <= heap + 29 * 4096 then (header + sizes[n - 1] + 63) / 64 * 64 else 0
  }

  /** What request i is given. The heap is 4 MiB: in its last three chunks of 32 pages
      there are 16384 cells of 8 bytes, 8192 of 16 and 4096 of 32, handed out in order; at
      its start there are 29 pages of blocks, one after another. */
  function Expected(heap: nat, header: nat, ptrs: seq<Word>, sizes: seq<Word>, i: nat): nat
    requires i < |ptrs| == |sizes|
  {
    var n8 := Among(ptrs, i, heap + 0x3a_0000, heap + 0x3c_0000);
    var n16 := Among(ptrs, i, heap + 0x3c_0000, heap + 0x3e_0000);
    var n32 := Among(ptrs, i, heap + 0x3e_0000, heap + 0x40_0000);
    var spent := Spent(heap, header, ptrs, sizes, i);
    if sizes[i] <= 8 && n8 < 16384 then heap + 0x3a_0000 + 8 * n8
    else if sizes[i] <= 16 && n16 < 8192 then heap + 0x3c_0000 + 16 * n16
    else if sizes[i] <= 32 && n32 < 4096 then heap + 0x3e_0000 + 32 * n32
    else if spent + header + sizes[i] <= 29 * 4096 then heap + spent + header
    else 0
  }

  ghost predicate AsExpected(heap: nat, header: nat, ptrs: seq<Word>, sizes: seq<Word>) {
    |ptrs| == |sizes| && forall i :: 0 <= i < |ptrs| ==> ptrs[i] == Expected(heap, header, ptrs, sizes, i)
  }

  /** The pointers of a run of malloc. */
  ghost predicate PointersOf(ptrs: seq<Word>, g: Geometry, sizes: seq<Word>) {
    |ptrs| <= |sizes| && forall i :: 0 <= i < |ptrs| ==> ptrs[i] == Pointer(g, UNUSED, sizes, i)
  }

  /** The counters are what can be counted from outside. */
  lemma {:induction false} CountersObserved(g: Geometry, ptrs: seq<Word>, sizes: seq<Word>, n: nat)
    requires Laid(g) && g == HA.HeapShape(g.heap, g.header)
    requires n <= |ptrs| == |sizes| && PointersOf(ptrs, g, sizes)
    ensures
      var c := After(g, UNUSED, sizes, n);
      && InBounds(g, c)
      && c.n8 == Among(ptrs, n, g.heap + 0x3a_0000, g.heap + 0x3c_0000)
      && c.n16 == Among(ptrs, n, g.heap + 0x3c_0000, g.heap + 0x3e_0000)
      && c.n32 == Among(ptrs, n, g.heap + 0x3e_0000, g.heap + 0x40_0000)
      && c.used == Spent(g.heap, g.header, ptrs, sizes, n)
  {
    if n > 0 {
      CountersObserved(g, ptrs, sizes, n - 1);
      var c := After(g, UNUSED, sizes, n - 1);
      GrantIsFresh(g, c, sizes[n - 1], 0);
      ServedFrom(g, c, sizes[n - 1]);
      assert ptrs[n - 1] == Malloc(g, c, sizes[n - 1]).ptr;
    }
  }

  /** Any run of malloc from a heap just set up returns exactly the pointers expected. */
  lemma RunAsExpected(g: Geometry, ptrs: seq<Word>, sizes: seq<Word>)
    requires Laid(g) && g == HA.HeapShape(g.heap, g.header)
    requires |ptrs| == |sizes| && PointersOf(ptrs, g, sizes)
    ensures AsExpected(g.heap, g.header, ptrs, sizes)
  {
    forall i | 0 <= i < |ptrs| ensures ptrs[i] == Expected(g.heap, g.header, ptrs, sizes, i) {
      CountersObserved(g, ptrs, sizes, i);
      ServedFrom(g, After(g, UNUSED, sizes, i), sizes[i]);
    }
  }

  /** Over a run of requests too large for the slabs, each is granted exactly when it and what
      was granted before it fit in 29 pages. */
  lemma LargeRequests(heap: nat, header: nat, ptrs: seq<Word>, sizes: seq<Word>, i: nat)
    requires heap > 0 && AsExpected(heap, header, ptrs, sizes) && i < |ptrs| && 32 < sizes[i]
    ensures ptrs[i] != 0 <==> Spent(heap, header, ptrs, sizes, i) + header + sizes[i] <= 118784
    ensures i == 0 ==> (ptrs[0] != 0 <==> header + sizes[0] <= 118784)
  {
  }
}
