/** What callers of the physical page allocator may rely on, for one call and for every
    interleaving of calls. */
module PhysTheorems {
  import opened Kernel
  import opened PhysSpec

  /** Page 0 reserved: a call fails exactly when there is no open group, and then it
      changes nothing; the hint plays no part in it. */
  lemma NullIffExhausted(s: State, g: Grain)
    requires Valid(s) && 0 in s.marked
    ensures Alloc(s, g).page == 0 <==> forall p :: 0 <= p < NUM_PAGES ==> !Open(s.marked, g, p)
    ensures Alloc(s, g).page == 0 ==> Alloc(s, g).state == s
  {
    assert !Open(s.marked, g, 0) by {
      assert 0 in Group(g, 0);
    }
  }

  lemma HintIndependence(s: State, g: Grain, hint: nat)
    requires Valid(s) && 0 in s.marked && hint < NUM_PAGES
    ensures Alloc(s, g).page == 0 <==> Alloc(s.(hint := hint), g).page == 0
  {
    NullIffExhausted(s, g);
    NullIffExhausted(s.(hint := hint), g);
  }

  /** Distance travelled from `from` to p when the bitmap is read as a ring. */
  function RingDistance(from: nat, p: nat): int
    requires from < NUM_PAGES && p < NUM_PAGES
  {
    if from <= p then p - from else p + NUM_PAGES - from
  }

  /** Page 0 reserved: the group handed out is the first open one in cyclic order from
      the start position, and exactly that group is marked. */
  lemma FirstInCyclicOrder(s: State, g: Grain, p: nat)
    requires Valid(s) && 0 in s.marked
    requires p < NUM_PAGES && Open(s.marked, g, p)
    ensures
      var a := Alloc(s, g);
      && 0 < a.page < NUM_PAGES
      && RingDistance(Start(g, s.hint), a.page) <= RingDistance(Start(g, s.hint), p)
      && a.state == State(s.marked + Group(g, a.page), a.page)
  {
    assert !Open(s.marked, g, 0) by {
      assert 0 in Group(g, 0);
    }
  }

  /** The first page the scan can still see after it has lost the group at page 0. */
  function AfterLoss(s: State, g: Grain): nat {
    var start := Start(g, s.hint);
    if g.ThirtyTwo? || start < Stride(g) then Stride(g) else start
  }

  /** Page 0 free as well: every call, exactly. */
  lemma NullExactly(s: State, g: Grain)
    requires Valid(s)
    ensures Alloc(s, g).page == 0 <==>
            forall p :: 0 < p < NUM_PAGES && (Open(s.marked, g, 0) ==> AfterLoss(s, g) <= p)
                        ==> !Open(s.marked, g, p)
  {
    assert Start(g, s.hint) == 0 || Stride(g) <= Start(g, s.hint);
  }

  /** alloc32 is complete in every state, page 0 free or not. */
  lemma ThirtyTwoAlwaysComplete(s: State)
    requires Valid(s)
    ensures Alloc(s, ThirtyTwo).page == 0 <==>
            forall p :: 0 < p < NUM_PAGES ==> !Open(s.marked, ThirtyTwo, p)
  {
    NullExactly(s, ThirtyTwo);
  }

  /** What a caller expects of a null result: nothing it could have been given is left. */
  ghost predicate Complete(s: State, g: Grain)
    requires Valid(s)
  {
    Alloc(s, g).page == 0 ==> forall p :: 0 < p < NUM_PAGES ==> !Open(s.marked, g, p)
  }

  /** The same state by state: a null result can be trusted exactly when the scan cannot
      lose page 0's group on the way, or is alloc32's, or would still find something after
      the loss, or had nothing to find before it. */
  lemma CompleteExactly(s: State, g: Grain)
    requires Valid(s)
    ensures Complete(s, g) <==>
            || g.ThirtyTwo? || !Open(s.marked, g, 0)
            || (exists p :: AfterLoss(s, g) <= p < NUM_PAGES && Open(s.marked, g, p))
            || (forall p :: 0 < p < AfterLoss(s, g) ==> !Open(s.marked, g, p))
  {
    NullExactly(s, g);
    if g.ThirtyTwo? {
      ThirtyTwoAlwaysComplete(s);
    }
  }

  /** Free pages the scan never comes to: alloc1 with pages 0 and 1 free, and alloc8 with
      the first two bytes free and the hint beyond them. */
  lemma FreePagesMissed(hint: nat)
    requires hint < NUM_PAGES
    ensures
      var s := State(Span(2, NUM_PAGES - 2), hint);
      Valid(s) && Open(s.marked, One, 1) && Alloc(s, One).page == 0
    ensures 16 <= hint ==>
      var s := State(Span(16, NUM_PAGES - 16), hint);
      Valid(s) && Open(s.marked, Eight, 8) && Alloc(s, Eight).page == 0
  {
    var s := State(Span(2, NUM_PAGES - 2), hint);
    forall p | 8 <= p < NUM_PAGES ensures !Open(s.marked, One, p) {
      assert p in s.marked;
    }
    NullExactly(s, One);
    if 16 <= hint {
      var t := State(Span(16, NUM_PAGES - 16), hint);
      forall p | 16 <= p < NUM_PAGES ensures !Open(t.marked, Eight, p) {
        assert p in t.marked;
      }
      NullExactly(t, Eight);
    }
  }

  lemma CompleteNearStart(s: State, g: Grain)
    requires Valid(s)
    requires g.ThirtyTwo? || (g.Eight? && s.hint < 16)
    ensures Complete(s, g)
  {
    NullExactly(s, g);
    assert AfterLoss(s, g) == Stride(g);
    forall p | 0 < p < Stride(g) ensures !Open(s.marked, g, p) {
      assert !Aligned(g, p);
    }
  }

  /** With nothing known about page 0, a null result can be trusted for exactly these
      granularities and hints. */
  lemma CompleteWhatever(g: Grain, hint: nat)
    requires hint < NUM_PAGES
    ensures (forall marked :: Valid(State(marked, hint)) ==> Complete(State(marked, hint), g))
            <==> g.ThirtyTwo? || (g.Eight? && hint < 16)
  {
    if g.ThirtyTwo? || (g.Eight? && hint < 16) {
      forall marked | Valid(State(marked, hint)) ensures Complete(State(marked, hint), g) {
        CompleteNearStart(State(marked, hint), g);
      }
    } else {
      FreePagesMissed(hint);
      if g.One? {
        assert !Complete(State(Span(2, NUM_PAGES - 2), hint), One);
      } else {
        assert !Complete(State(Span(16, NUM_PAGES - 16), hint), Eight);
      }
    }
  }

  // ---- counting ----

  /** The groups of one size that can still be handed out: all pages free, not page 0's. */
  ghost function OpenGroups(marked: set<nat>, g: Grain): (groups: set<nat>)
    ensures forall p: nat :: p in groups <==> 0 < p < NUM_PAGES && Open(marked, g, p)
  {
    var ids := Upto(NUM_PAGES);
    set p | p in ids && 0 < p && Open(marked, g, p)
  }

  lemma GroupsApart(g: Grain, p: nat, q: nat)
    requires Aligned(g, p) && Aligned(g, q) && p < q
    ensures p + Size(g) <= q
  {
    match g
    case One =>
    case Eight => assert p / 8 < q / 8;
    case ThirtyTwo => assert p / 32 < q / 32;
  }

  /** Marking one group leaves the others of its size as they were. */
  lemma OpenAfter(marked: set<nat>, g: Grain, p: nat, q: nat)
    requires Aligned(g, p)
    ensures Open(marked + Group(g, p), g, q) <==> Open(marked, g, q) && q != p
  {
    if q == p {
      assert p in Group(g, p);
    } else if Aligned(g, q) {
      GroupsApart(g, if p < q then p else q, if p < q then q else p);
      assert forall k :: q <= k < q + Size(g) ==> k !in Group(g, p);
    }
  }

  /** Marking page 0's group takes nothing from the others. */
  lemma OpenAfterLoss(marked: set<nat>, g: Grain)
    ensures OpenGroups(marked + Group(g, 0), g) == OpenGroups(marked, g)
  {
    forall q: nat ensures q in OpenGroups(marked + Group(g, 0), g) <==> q in OpenGroups(marked, g) {
      OpenAfter(marked, g, 0, q);
    }
  }

  lemma OpenAfterGrant(marked: set<nat>, g: Grain, p: nat)
    requires 0 < p < NUM_PAGES && Open(marked, g, p)
    ensures OpenGroups(marked + Group(g, p), g) == OpenGroups(marked, g) - {p}
  {
    forall q: nat ensures q in OpenGroups(marked + Group(g, p), g) <==> q in OpenGroups(marked, g) - {p} {
      OpenAfter(marked, g, p, q);
    }
  }

  /** Each call that succeeds takes exactly one group of its size from those that are left,
      and each that fails takes none. alloc32 fails if and only if none is left. */
  lemma TakesOneGroup(s: State, g: Grain)
    requires Valid(s)
    ensures
      var a := Alloc(s, g);
      var before := OpenGroups(s.marked, g);
      var after := OpenGroups(a.state.marked, g);
      && (a.page != 0 ==> a.page in before && after == before - {a.page})
      && (a.page == 0 ==> after == before)
      && (g.ThirtyTwo? ==> (a.page == 0 <==> before == {}))
  {
    CallSafe(s, g);
    var a := Alloc(s, g);
    var marked := s.marked + a.lost;
    assert OpenGroups(marked, g) == OpenGroups(s.marked, g) by {
      if a.lost != {} {
        OpenAfterLoss(s.marked, g);
      } else {
        assert marked == s.marked;
      }
    }
    if a.page != 0 {
      assert a.state.marked == marked + Group(g, a.page);
      assert Open(marked, g, a.page);
      OpenAfterGrant(marked, g, a.page);
    } else {
      assert a.state.marked == marked;
    }
    if g.ThirtyTwo? {
      ThirtyTwoAlwaysComplete(s);
    }
  }

  /** What every call keeps: the group returned is aligned, inside memory, away from page
      0 and was unmarked; the marks added are that group and what was lost; and only an
      unmarked page 0 can be lost, with its group. */
  ghost predicate Safe(s: State, g: Grain, a: Outcome) {
    && Valid(a.state)
    && a.state.marked == s.marked + Granted(g, a.page) + a.lost
    && Granted(g, a.page) !! s.marked && Granted(g, a.page) !! a.lost
    && (a.page != 0 ==> Aligned(g, a.page) && a.page + Size(g) <= NUM_PAGES)
    && (a.lost == {} || (a.lost == Group(g, 0) && a.lost !! s.marked))
  }

  /** The pages a caller receives with `page`. */
  function Granted(g: Grain, page: nat): set<nat> {
    if page == 0 then {} else Group(g, page)
  }

  lemma GrantSafe(s: State, g: Grain, p: nat)
    requires Valid(s) && 0 < p < NUM_PAGES && Open(s.marked, g, p)
    ensures Safe(s, g, Grant(s, g, p))
  {
    AlignedFits(g, p);
    assert (s.marked + Group(g, p)) == (s.marked + Group(g, p) + {});
  }

  lemma AlignedFits(g: Grain, p: nat)
    requires Aligned(g, p) && p < NUM_PAGES
    ensures p + Size(g) <= NUM_PAGES
  {
  }

  lemma LoseSafe(s: State, g: Grain)
    requires Valid(s) && Open(s.marked, g, 0)
    ensures Safe(s, g, Lose(s, g))
  {
  }

  lemma ScanAfterLossSafe(s: State, g: Grain, lo: nat, hi: nat)
    requires Valid(s) && Open(s.marked, g, 0)
    requires Stride(g) <= lo <= hi <= NUM_PAGES
    ensures Safe(s, g, ScanAfterLoss(s, g, lo, hi))
  {
    var p := FirstOpen(s.marked, g, lo, hi);
    if p < hi {
      AlignedFits(g, p);
      assert Group(g, p) !! Group(g, 0);
      assert s.marked + Group(g, 0) + Group(g, p) == s.marked + Group(g, p) + Group(g, 0);
    } else {
      LoseSafe(s, g);
    }
  }

  lemma CallSafe(s: State, g: Grain)
    requires Valid(s)
    ensures Safe(s, g, Alloc(s, g))
  {
    var start := Start(g, s.hint);
    var p := FirstOpen(s.marked, g, start, NUM_PAGES);
    var q := FirstOpen(s.marked, g, 0, start);
    if 0 < p < NUM_PAGES {
      GrantSafe(s, g, p);
    } else if p == 0 {
      ScanAfterLossSafe(s, g, Stride(g), NUM_PAGES);
    } else if q == start {
      assert s.marked == s.marked + {} + {};
    } else if 0 < q {
      GrantSafe(s, g, q);
    } else if g.ThirtyTwo? {
      ScanAfterLossSafe(s, g, Stride(g), start);
    } else {
      LoseSafe(s, g);
    }
  }

  // ---- whole runs ----

  /** A step of a run: an allocation, or the global constructor resetting the hint. */
  datatype Call = Request(g: Grain) | SetHint(hint: nat)

  datatype Block = Block(g: Grain, page: nat)

  /** The final state, the blocks handed out in order, and the pages lost on the way. */
  datatype Trace = Trace(state: State, blocks: seq<Block>, lost: set<nat>)

  ghost predicate InRange(calls: seq<Call>) {
    forall c :: c in calls && c.SetHint? ==> c.hint < NUM_PAGES
  }

  ghost function Run(s: State, calls: seq<Call>): Trace
    requires Valid(s) && InRange(calls)
    decreases |calls|
  {
    if calls == [] then Trace(s, [], {})
    else
      match calls[0]
      case SetHint(hint) => Run(s.(hint := hint), calls[1..])
      case Request(g) =>
        var a := Alloc(s, g);
        assert Valid(a.state) by { CallSafe(s, g); }
        var rest := Run(a.state, calls[1..]);
        Trace(rest.state, (if a.page == 0 then [] else [Block(g, a.page)]) + rest.blocks, a.lost + rest.lost)
  }

  function Pages(b: Block): set<nat> {
    Group(b.g, b.page)
  }

  function AllPages(blocks: seq<Block>): set<nat> {
    if blocks == [] then {} else Pages(blocks[0]) + AllPages(blocks[1..])
  }

  lemma AllPagesContains(blocks: seq<Block>, i: nat)
    requires i < |blocks|
    ensures Pages(blocks[i]) <= AllPages(blocks)
  {
    if i > 0 {
      AllPagesContains(blocks[1..], i - 1);
    }
  }

  /** No two blocks share a page, whatever came before. */
  ghost predicate Separate(blocks: seq<Block>) {
    forall i, j :: 0 <= i < j < |blocks| ==> Pages(blocks[i]) !! Pages(blocks[j])
  }

  lemma SeparateCons(b: Block, blocks: seq<Block>)
    requires Separate(blocks) && Pages(b) !! AllPages(blocks)
    ensures Separate([b] + blocks)
    ensures AllPages([b] + blocks) == Pages(b) + AllPages(blocks)
  {
    forall j | 0 <= j < |blocks| ensures Pages(b) !! Pages(blocks[j]) {
      AllPagesContains(blocks, j);
    }
    assert ([b] + blocks)[1..] == blocks;
  }

  /** The blocks of a run whose first call returned `page`. */
  lemma OneMoreBlock(g: Grain, page: nat, blocks: seq<Block>)
    requires Separate(blocks) && Granted(g, page) !! AllPages(blocks)
    ensures
      var all := (if page == 0 then [] else [Block(g, page)]) + blocks;
      Separate(all) && AllPages(all) == Granted(g, page) + AllPages(blocks)
  {
    if page == 0 {
      assert [] + blocks == blocks;
    } else {
      SeparateCons(Block(g, page), blocks);
    }
  }

  /** The set arithmetic of one step followed by a run. */
  lemma Balance(marked: set<nat>, granted: set<nat>, lost: set<nat>, blocks: set<nat>, lostLater: set<nat>)
    requires granted !! marked && granted !! lost && lost !! marked
    requires blocks !! (marked + granted + lost) && lostLater !! (marked + granted + lost) && blocks !! lostLater
    ensures (marked + granted + lost) + blocks + lostLater == marked + (granted + blocks) + (lost + lostLater)
    ensures (granted + blocks) !! marked && (granted + blocks) !! (lost + lostLater) && (lost + lostLater) !! marked
  {
  }

  /** Any interleaving of alloc1, alloc8 and alloc32, with the hint reset at any point:
      the blocks handed out are pairwise disjoint and were all unmarked at the start, and
      every mark is accounted for. */
  lemma {:induction false} RunConserves(s: State, calls: seq<Call>)
    requires Valid(s) && InRange(calls)
    ensures
      var t := Run(s, calls);
      && Valid(t.state)
      && Separate(t.blocks)
      && AllPages(t.blocks) !! s.marked && AllPages(t.blocks) !! t.lost && t.lost !! s.marked
      && t.state.marked == s.marked + AllPages(t.blocks) + t.lost
    decreases |calls|
  {
    if calls != [] {
      var rest := calls[1..];
      match calls[0]
      case SetHint(hint) =>
        RunConserves(s.(hint := hint), rest);
      case Request(g) =>
        CallSafe(s, g);
        var a := Alloc(s, g);
        RunConserves(a.state, rest);
        var t := Run(a.state, rest);
        OneMoreBlock(g, a.page, t.blocks);
        Balance(s.marked, Granted(g, a.page), a.lost, AllPages(t.blocks), t.lost);
    }
  }

  /** Every block handed out in a run is aligned to its own size, inside memory, and not
      page 0. */
  lemma {:induction false} RunAligned(s: State, calls: seq<Call>, i: nat)
    requires Valid(s) && InRange(calls) && i < |Run(s, calls).blocks|
    ensures
      var b := Run(s, calls).blocks[i];
      b.page != 0 && Aligned(b.g, b.page) && b.page + Size(b.g) <= NUM_PAGES
    decreases |calls|
  {
    match calls[0]
    case SetHint(hint) =>
      RunAligned(s.(hint := hint), calls[1..], i);
    case Request(g) =>
      CallSafe(s, g);
      var a := Alloc(s, g);
      if a.page == 0 {
        RunAligned(a.state, calls[1..], i);
      } else if i > 0 {
        RunAligned(a.state, calls[1..], i - 1);
      }
  }

  /** Pages are lost at most once in a run, with page 0, and never when page 0 was marked
      from the start. */
  lemma {:induction false} RunLosesOnce(s: State, calls: seq<Call>)
    requires Valid(s) && InRange(calls)
    ensures
      var lost := Run(s, calls).lost;
      || lost == {}
      || (0 !in s.marked && (lost == Span(0, 1) || lost == Span(0, 8) || lost == Span(0, 32)))
    decreases |calls|
  {
    if calls != [] {
      match calls[0]
      case SetHint(hint) =>
        RunLosesOnce(s.(hint := hint), calls[1..]);
      case Request(g) =>
        CallSafe(s, g);
        RunLosesOnce(Alloc(s, g).state, calls[1..]);
        if Alloc(s, g).lost != {} {
          assert 0 in Group(g, 0);
        }
    }
  }
}
