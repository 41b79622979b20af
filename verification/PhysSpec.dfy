/** What the physical page allocator does, stated on the set of marked pages and the
    hint `last_alloc` alone: no bytes, no words, no loops over them. A returned page 0
    is the null pointer. */
module PhysSpec {
  import opened Kernel

  /** The three granularities: alloc1, alloc8, alloc32. */
  datatype Grain = One | Eight | ThirtyTwo

  datatype State = State(marked: set<nat>, hint: nat)

  /** The state after a call, the page returned (0 is nullptr), and the pages marked
      without being returned. */
  datatype Outcome = Outcome(state: State, page: nat, lost: set<nat>)

  function Size(g: Grain): (s: nat)
    ensures 0 < s <= 32
  {
    match g case One => 1 case Eight => 8 case ThirtyTwo => 32
  }

  predicate Aligned(g: Grain, p: nat) {
    match g case One => true case Eight => p % 8 == 0 case ThirtyTwo => p % 32 == 0
  }

  /** Pages covered by one step of the scan: a byte, a byte, a 32-bit word. */
  function Stride(g: Grain): (s: nat)
    ensures s == 8 || s == 32
    ensures Aligned(g, s) && Size(g) <= s
  {
    match g case One => 8 case Eight => 8 case ThirtyTwo => 32
  }

  /** Where a scan begins: the hint rounded down to a whole byte or word. */
  function Start(g: Grain, hint: nat): (p: nat)
    ensures p <= hint < p + Stride(g)
    ensures p % 8 == 0 && Aligned(g, p)
  {
    if g.ThirtyTwo? then hint - hint % 32 else hint - hint % 8
  }

  /** The n pages from p on. */
  function Span(p: nat, n: nat): (pages: set<nat>)
    ensures forall k :: k in pages <==> p <= k < p + n
  {
    var ids := Upto(p + n);
    set k | k in ids && p <= k
  }

  function Upto(n: nat): (ids: seq<nat>)
    ensures forall k: nat :: k in ids <==> k < n
  {
    var ids := seq(n, k => k);
    assert forall k: nat :: k < n ==> k in ids by {
      forall k: nat | k < n ensures k in ids {
        assert ids[k] == k;
      }
    }
    ids
  }

  function Group(g: Grain, p: nat): set<nat> {
    Span(p, Size(g))
  }

  ghost predicate Open(marked: set<nat>, g: Grain, p: nat) {
    Aligned(g, p) && forall k :: p <= k < p + Size(g) ==> k !in marked
  }

  /** The lowest open group that starts in [lo, hi), or hi when there is none. */
  ghost function FirstOpen(marked: set<nat>, g: Grain, lo: nat, hi: nat): (p: nat)
    requires lo <= hi
    ensures lo <= p <= hi
    ensures p < hi ==> Open(marked, g, p)
    ensures forall q :: lo <= q < p ==> !Open(marked, g, q)
    decreases hi - lo
  {
    if lo == hi then hi
    else if Open(marked, g, lo) then lo
    else FirstOpen(marked, g, lo + 1, hi)
  }

  /** Splitting a scan range. */
  lemma FirstOpenSplit(marked: set<nat>, g: Grain, lo: nat, mid: nat, hi: nat)
    requires lo <= mid <= hi
    ensures FirstOpen(marked, g, lo, hi) ==
            if FirstOpen(marked, g, lo, mid) < mid then FirstOpen(marked, g, lo, mid)
            else FirstOpen(marked, g, mid, hi)
  {
  }

  ghost predicate Valid(s: State) {
    && s.hint < NUM_PAGES
    && forall k :: k in s.marked ==> k < NUM_PAGES
  }

  /** Handing out the group at p. */
  function Grant(s: State, g: Grain, p: nat): Outcome {
    Outcome(State(s.marked + Group(g, p), p), p, {})
  }

  /** Marking the group at page 0: its address is the null pointer, so the scan does
      not see that it succeeded. The group is marked, the hint is 0, nothing is returned. */
  function Lose(s: State, g: Grain): Outcome {
    Outcome(State(s.marked + Group(g, 0), 0), 0, Group(g, 0))
  }

  /** The scan of [lo, hi) that follows the loss of page 0's group. */
  ghost function ScanAfterLoss(s: State, g: Grain, lo: nat, hi: nat): Outcome
    requires lo <= hi
  {
    var p := FirstOpen(s.marked, g, lo, hi);
    if p < hi then Grant(Lose(s, g).state, g, p).(lost := Group(g, 0)) else Lose(s, g)
  }

  /** One call. The scan runs from the start position to the end of the bitmap and then
      from 0 up to the start position. If it meets an open group at page 0 it loses that
      group and goes on, except that alloc1 and alloc8 re-read the hint they have just
      reset as the bound of the second scan and so stop there. */
  ghost function Alloc(s: State, g: Grain): Outcome
    requires Valid(s)
  {
    var start := Start(g, s.hint);
    var p := FirstOpen(s.marked, g, start, NUM_PAGES);
    if 0 < p < NUM_PAGES then Grant(s, g, p)
    else if p == 0 then ScanAfterLoss(s, g, Stride(g), NUM_PAGES)
    else
      var q := FirstOpen(s.marked, g, 0, start);
      if q == start then Outcome(s, 0, {})
      else if 0 < q then Grant(s, g, q)
      else if g.ThirtyTwo? then ScanAfterLoss(s, g, Stride(g), start)
      else Lose(s, g)
  }
}
