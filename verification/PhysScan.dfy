/** The two scan loops shared by alloc1, alloc8 and alloc32, as invariants over the
    abstract state, and the step lemmas that carry them to PhysSpec.Alloc. */
module PhysScan {
  import opened Kernel
  import opened PhysSpec

  /** One probe of the stride at `pos`: it hands out the first open group in it. The
      address of page 0 is indistinguishable from failure. */
  ghost predicate Probed(before: State, after: State, g: Grain, pos: nat, out: Word) {
    var p := FirstOpen(before.marked, g, pos, pos + Stride(g));
    if p == pos + Stride(g) then after == before && out == 0
    else after == Grant(before, g, p).state && out == 0x1000 * p
  }

  /** Nothing found in [from, pos). */
  ghost predicate Searched(s0: State, s: State, g: Grain, from: nat, pos: nat)
    requires from <= pos
  {
    s == s0 && FirstOpen(s0.marked, g, from, pos) == pos
  }

  /** Page 0's group was lost at the start of this scan, and nothing found since. */
  ghost predicate SearchedAfterLoss(s0: State, s: State, g: Grain, pos: nat) {
    && Stride(g) <= pos
    && Open(s0.marked, g, 0)
    && s == Lose(s0, g).state
    && FirstOpen(s0.marked, g, Stride(g), pos) == pos
  }

  /** Invariant of the first loop, from the start position to the end. */
  ghost predicate FirstLoop(s0: State, s: State, g: Grain, pos: nat) {
    var start := Start(g, s0.hint);
    && start <= pos
    && (Searched(s0, s, g, start, pos) || (start == 0 && SearchedAfterLoss(s0, s, g, pos)))
  }

  /** Invariant of the second loop, from 0 to the start position. */
  ghost predicate SecondLoop(s0: State, s: State, g: Grain, pos: nat) {
    var start := Start(g, s0.hint);
    && pos <= start <= NUM_PAGES
    && FirstOpen(s0.marked, g, start, NUM_PAGES) == NUM_PAGES
    && (Searched(s0, s, g, 0, pos) || SearchedAfterLoss(s0, s, g, pos))
  }

  ghost predicate Returns(s0: State, s: State, g: Grain, out: Word)
    requires Valid(s0)
  {
    s == Alloc(s0, g).state && out == 0x1000 * Alloc(s0, g).page
  }

  lemma SameAfterLoss(marked: set<nat>, g: Grain, lo: nat, hi: nat)
    requires Stride(g) <= lo <= hi
    ensures FirstOpen(marked + Group(g, 0), g, lo, hi) == FirstOpen(marked, g, lo, hi)
  {
    forall p | lo <= p ensures Open(marked + Group(g, 0), g, p) <==> Open(marked, g, p) {
    }
  }

  /** A probe in a scan that has found nothing yet. */
  lemma ProbeSearched(s0: State, s: State, g: Grain, from: nat, pos: nat, out: Word)
    requires Probed(s0, s, g, pos, out)
    requires from <= pos && FirstOpen(s0.marked, g, from, pos) == pos
    ensures
      var p := FirstOpen(s0.marked, g, from, pos + Stride(g));
      && (p == pos + Stride(g) ==> out == 0 && Searched(s0, s, g, from, pos + Stride(g)))
      && (p < pos + Stride(g) ==> p >= pos && out == 0x1000 * p && s == Grant(s0, g, p).state)
  {
    FirstOpenSplit(s0.marked, g, from, pos, pos + Stride(g));
  }

  /** A probe after the loss of page 0's group. */
  lemma ProbeAfterLoss(s0: State, s: State, s': State, g: Grain, pos: nat, out: Word)
    requires SearchedAfterLoss(s0, s, g, pos) && Probed(s, s', g, pos, out)
    ensures
      var p := FirstOpen(s0.marked, g, Stride(g), pos + Stride(g));
      && (p == pos + Stride(g) ==> out == 0 && SearchedAfterLoss(s0, s', g, pos + Stride(g)))
      && (p < pos + Stride(g) ==> p >= pos && out == 0x1000 * p && s' == Grant(s, g, p).state)
  {
    SameAfterLoss(s0.marked, g, pos, pos + Stride(g));
    FirstOpenSplit(s0.marked, g, Stride(g), pos, pos + Stride(g));
  }

  /** A probe that loses page 0's group starts a scan that has found nothing since. */
  lemma LossBegins(s0: State, g: Grain)
    requires Open(s0.marked, g, 0)
    ensures SearchedAfterLoss(s0, Grant(s0, g, 0).state, g, Stride(g))
  {
  }

  lemma FoundFirst(s0: State, g: Grain, hi: nat)
    requires Valid(s0) && Start(g, s0.hint) <= hi <= NUM_PAGES
    requires 0 < FirstOpen(s0.marked, g, Start(g, s0.hint), hi) < hi
    ensures Alloc(s0, g) == Grant(s0, g, FirstOpen(s0.marked, g, Start(g, s0.hint), hi))
  {
    FirstOpenSplit(s0.marked, g, Start(g, s0.hint), hi, NUM_PAGES);
  }

  lemma FoundSecond(s0: State, g: Grain, hi: nat)
    requires Valid(s0) && hi <= Start(g, s0.hint) <= NUM_PAGES
    requires FirstOpen(s0.marked, g, Start(g, s0.hint), NUM_PAGES) == NUM_PAGES
    requires 0 < FirstOpen(s0.marked, g, 0, hi) < hi
    ensures Alloc(s0, g) == Grant(s0, g, FirstOpen(s0.marked, g, 0, hi))
  {
    FirstOpenSplit(s0.marked, g, 0, hi, Start(g, s0.hint));
  }

  lemma FirstLoopLoses(s0: State, s: State, g: Grain, pos: nat)
    requires Start(g, s0.hint) <= pos && FirstOpen(s0.marked, g, Start(g, s0.hint), pos) == pos
    requires FirstOpen(s0.marked, g, Start(g, s0.hint), pos + Stride(g)) == 0 && s == Grant(s0, g, 0).state
    ensures FirstLoop(s0, s, g, pos + Stride(g))
  {
    FirstOpenSplit(s0.marked, g, Start(g, s0.hint), pos, pos + Stride(g));
    LossBegins(s0, g);
  }

  lemma FirstLoopSearching(s0: State, s: State, g: Grain, pos: nat, out: Word)
    requires Valid(s0) && FirstLoop(s0, s0, g, pos) && Searched(s0, s0, g, Start(g, s0.hint), pos)
    requires pos + Stride(g) <= NUM_PAGES && Probed(s0, s, g, pos, out)
    ensures out == 0 ==> FirstLoop(s0, s, g, pos + Stride(g))
    ensures out != 0 ==> Returns(s0, s, g, out)
  {
    var start := Start(g, s0.hint);
    ProbeSearched(s0, s, g, start, pos, out);
    var p := FirstOpen(s0.marked, g, start, pos + Stride(g));
    if p == 0 {
      FirstLoopLoses(s0, s, g, pos);
    } else if p < pos + Stride(g) {
      FoundFirst(s0, g, pos + Stride(g));
    } else {
      assert Searched(s0, s, g, start, pos + Stride(g));
    }
  }

  lemma FirstLoopStep(s0: State, s: State, s': State, g: Grain, pos: nat, out: Word)
    requires Valid(s0) && FirstLoop(s0, s, g, pos) && pos + Stride(g) <= NUM_PAGES
    requires Probed(s, s', g, pos, out)
    ensures out == 0 ==> FirstLoop(s0, s', g, pos + Stride(g))
    ensures out != 0 ==> Returns(s0, s', g, out)
  {
    if Searched(s0, s, g, Start(g, s0.hint), pos) {
      FirstLoopSearching(s0, s', g, pos, out);
    } else {
      ProbeAfterLoss(s0, s, s', g, pos, out);
      FirstOpenSplit(s0.marked, g, Stride(g), pos + Stride(g), NUM_PAGES);
      assert FirstOpen(s0.marked, g, 0, NUM_PAGES) == 0;
    }
  }

  lemma SecondLoopSearching(s0: State, s: State, g: Grain, pos: nat, out: Word)
    requires Valid(s0) && SecondLoop(s0, s0, g, pos) && Searched(s0, s0, g, 0, pos)
    requires pos + Stride(g) <= Start(g, s0.hint) && Probed(s0, s, g, pos, out)
    ensures out == 0 ==> SecondLoop(s0, s, g, pos + Stride(g))
    ensures out != 0 ==> Returns(s0, s, g, out)
  {
    ProbeSearched(s0, s, g, 0, pos, out);
    var p := FirstOpen(s0.marked, g, 0, pos + Stride(g));
    if p == 0 {
      LossBegins(s0, g);
    } else if p < pos + Stride(g) {
      FoundSecond(s0, g, pos + Stride(g));
    }
  }

  lemma SecondLoopStep(s0: State, s: State, s': State, g: Grain, pos: nat, out: Word)
    requires Valid(s0) && SecondLoop(s0, s, g, pos) && pos + Stride(g) <= Start(g, s0.hint)
    requires Searched(s0, s, g, 0, pos) || g.ThirtyTwo?
    requires Probed(s, s', g, pos, out)
    ensures out == 0 ==> SecondLoop(s0, s', g, pos + Stride(g))
    ensures out != 0 ==> Returns(s0, s', g, out)
  {
    var start := Start(g, s0.hint);
    if Searched(s0, s, g, 0, pos) {
      SecondLoopSearching(s0, s', g, pos, out);
    } else {
      ProbeAfterLoss(s0, s, s', g, pos, out);
      FirstOpenSplit(s0.marked, g, Stride(g), pos + Stride(g), start);
      assert FirstOpen(s0.marked, g, 0, start) == 0;
    }
  }

  /** Between the loops. */
  lemma FirstLoopDone(s0: State, s: State, g: Grain)
    requires Valid(s0) && FirstLoop(s0, s, g, NUM_PAGES)
    ensures Searched(s0, s, g, Start(g, s0.hint), NUM_PAGES) ==> SecondLoop(s0, s, g, 0)
    ensures Searched(s0, s, g, Start(g, s0.hint), NUM_PAGES) ||
            (Start(g, s0.hint) == 0 && s.hint == 0 && Returns(s0, s, g, 0))
  {
  }

  /** After the second loop, whether it ran its course or stopped at the reset hint. */
  lemma SecondLoopDone(s0: State, s: State, g: Grain, pos: nat)
    requires Valid(s0) && SecondLoop(s0, s, g, pos)
    requires pos == Start(g, s0.hint) || (!g.ThirtyTwo? && SearchedAfterLoss(s0, s, g, pos))
    ensures Returns(s0, s, g, 0)
  {
    var start := Start(g, s0.hint);
    if pos != start {
      FirstOpenSplit(s0.marked, g, 0, 1, start);
    } else if !Searched(s0, s, g, 0, pos) {
      FirstOpenSplit(s0.marked, g, 0, 1, start);
    }
  }

  /** What holds throughout the second loop, including the case that the first loop lost
      page 0's group and there is nothing left to scan. */
  ghost predicate Wrapped(s0: State, s: State, g: Grain, pos: nat)
    requires Valid(s0)
  {
    SecondLoop(s0, s, g, pos) || (Start(g, s0.hint) == 0 && s.hint == 0 && Returns(s0, s, g, 0))
  }

  lemma FirstLoopWraps(s0: State, s: State, g: Grain)
    requires Valid(s0) && FirstLoop(s0, s, g, NUM_PAGES)
    ensures Wrapped(s0, s, g, 0)
  {
    FirstLoopDone(s0, s, g);
  }

  lemma WrappedStep(s0: State, s: State, s': State, g: Grain, pos: nat, out: Word)
    requires Valid(s0) && Wrapped(s0, s, g, pos) && pos + Stride(g) <= Start(g, s0.hint)
    requires g.ThirtyTwo? || 0 < s.hint
    requires Probed(s, s', g, pos, out)
    ensures out == 0 ==> Wrapped(s0, s', g, pos + Stride(g))
    ensures out != 0 ==> Returns(s0, s', g, out)
  {
    SecondLoopStep(s0, s, s', g, pos, out);
  }

  lemma WrappedDone(s0: State, s: State, g: Grain, pos: nat)
    requires Valid(s0) && Wrapped(s0, s, g, pos)
    requires Start(g, s0.hint) <= pos || (!g.ThirtyTwo? && Start(g, s.hint) <= pos)
    ensures Returns(s0, s, g, 0)
  {
    if SecondLoop(s0, s, g, pos) {
      SecondLoopDone(s0, s, g, pos);
    }
  }
}
