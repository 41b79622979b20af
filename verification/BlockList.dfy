/** The in-place headers of the block arena: a chain of nodes that tiles it. */
module BlockList {
  import opened Kernel
  import opened HeapSpec

  /** union HeapBlock */
  datatype HeapBlock = HeapBlock(next: Word, size: Word, taken: bool)

  /** The memory the headers live in, keyed by address. */
  type Headers = map<Word, HeapBlock>

  /** The nodes of the list, as offsets from `heap`: node i covers offsets ends[i] to
      ends[i + 1]. */
  ghost predicate Cuts(ends: seq<nat>, arena: nat) {
    && |ends| >= 2 && ends[0] == 0 && ends[|ends| - 1] == arena
    && (forall i, j :: 0 <= i < j < |ends| ==> ends[i] < ends[j])
    && (forall i :: 0 <= i < |ends| ==> ends[i] % BLOCK_ALIGN == 0)
  }

  /** Node i: its header, linked to node i + 1; all but the last are allocated. */
  ghost predicate NodeIs(headers: Headers, heap: nat, ends: seq<nat>, i: nat)
    requires i + 1 < |ends|
  {
    && heap + ends[i] in headers
    && var node := headers[heap + ends[i]];
    && ends[i] + node.size == ends[i + 1]
    && node.next == (if i + 2 < |ends| then heap + ends[i + 1] else 0)
    && (i + 2 < |ends| ==> node.taken)
  }

  /** The chain from `heap` is acyclic, covers the arena exactly, and has at most one free
      node, the last. */
  ghost predicate Tiled(headers: Headers, heap: nat, arena: nat, ends: seq<nat>) {
    && Cuts(ends, arena)
    && heap + arena < WORD_LIMIT
    && forall i :: 0 <= i < |ends| - 1 ==> NodeIs(headers, heap, ends, i)
  }

  /** Offset of the last node. */
  ghost function Last(ends: seq<nat>): nat
    requires |ends| >= 2
  {
    ends[|ends| - 2]
  }

  /** Bytes handed out: all of the arena if the last node is allocated, else up to it. */
  ghost function Used(headers: Headers, heap: nat, arena: nat, ends: seq<nat>): (used: nat)
    requires Tiled(headers, heap, arena, ends)
    ensures used <= arena && used % BLOCK_ALIGN == 0
  {
    assert NodeIs(headers, heap, ends, |ends| - 2);
    if headers[heap + Last(ends)].taken then arena else Last(ends)
  }

  /** One free node is a list with nothing handed out. */
  lemma FirstNodeTiles(headers: Headers, heap: nat, arena: nat)
    requires arena < WORD_LIMIT && heap in headers && headers[heap] == HeapBlock(0, arena, false)
    requires 0 < arena && arena % BLOCK_ALIGN == 0 && heap + arena < WORD_LIMIT
    ensures Tiled(headers, heap, arena, [0, arena]) && Used(headers, heap, arena, [0, arena]) == 0
  {
  }

  lemma SplitCuts(ends: seq<nat>, arena: nat, size: nat)
    requires Cuts(ends, arena) && 0 < size < arena - Last(ends) && size % BLOCK_ALIGN == 0
    ensures Cuts(ends[..|ends| - 1] + [Last(ends) + size, arena], arena)
  {
    var n := |ends| - 1;
    var ends' := ends[..n] + [ends[n - 1] + size, arena];
    forall i, j | 0 <= i < j < |ends'| ensures ends'[i] < ends'[j] {
      assert i < n ==> ends'[i] == ends[i] <= ends[n - 1];
    }
  }

  /** Cutting the last, free node in two: the first part allocated, the rest free. */
  lemma Split(headers: Headers, heap: nat, arena: nat, ends: seq<nat>, size: nat, headers': Headers)
    requires 0 < heap && Tiled(headers, heap, arena, ends)
    requires 0 < size < arena - Last(ends) && size % BLOCK_ALIGN == 0
    requires headers' == headers[heap + Last(ends) := HeapBlock(heap + Last(ends) + size, size, true)]
                                [heap + Last(ends) + size := HeapBlock(0, arena - Last(ends) - size, false)]
    ensures
      var ends' := ends[..|ends| - 1] + [Last(ends) + size, arena];
      && Tiled(headers', heap, arena, ends')
      && Used(headers', heap, arena, ends') == Last(ends) + size
  {
    var n := |ends| - 2;
    var ends' := ends[..|ends| - 1] + [Last(ends) + size, arena];
    SplitCuts(ends, arena, size);
    assert forall i :: 0 <= i <= n ==> ends'[i] == ends[i];
    forall i | 0 <= i < |ends'| - 1 ensures NodeIs(headers', heap, ends', i) {
      if i < n {
        assert NodeIs(headers, heap, ends, i);
      }
    }
  }

  /** Allocating the last node whole. */
  lemma TakeWhole(headers: Headers, heap: nat, arena: nat, ends: seq<nat>, headers': Headers)
    requires 0 < heap && Tiled(headers, heap, arena, ends)
    requires heap + Last(ends) in headers
    requires headers' == headers[heap + Last(ends) := headers[heap + Last(ends)].(taken := true)]
    ensures Tiled(headers', heap, arena, ends) && Used(headers', heap, arena, ends) == arena
  {
    forall i | 0 <= i < |ends| - 1 ensures NodeIs(headers', heap, ends, i) {
      assert NodeIs(headers, heap, ends, i);
    }
  }

  /** The list after the last node has given up `cost` bytes. */
  ghost function Carved(headers: Headers, heap: nat, arena: nat, ends: seq<nat>, cost: nat): Headers
    requires Tiled(headers, heap, arena, ends) && 0 < cost <= arena - Last(ends)
  {
    var last := heap + Last(ends);
    var rest := arena - Last(ends) - cost;
    assert NodeIs(headers, heap, ends, |ends| - 2);
    if rest > 0 then headers[last := HeapBlock(last + cost, cost, true)][last + cost := HeapBlock(0, rest, false)]
    else headers[last := headers[last].(taken := true)]
  }

  /** The cuts once the arena is used up to used' instead of used. */
  ghost function NextEnds(arena: nat, ends: seq<nat>, used: nat, used': nat): (ends': seq<nat>)
    requires |ends| > 0
    ensures |ends'| > 0
  {
    if used < used' < arena then ends[..|ends| - 1] + [used', arena] else ends
  }

  lemma CarvedIsTiled(headers: Headers, heap: nat, arena: nat, ends: seq<nat>, cost: nat)
    requires 0 < heap && Tiled(headers, heap, arena, ends)
    requires 0 < cost <= arena - Last(ends) && cost % BLOCK_ALIGN == 0
    ensures
      var headers' := Carved(headers, heap, arena, ends, cost);
      var ends' := NextEnds(arena, ends, Last(ends), Last(ends) + cost);
      Tiled(headers', heap, arena, ends') && Used(headers', heap, arena, ends') == Last(ends) + cost
  {
    var headers' := Carved(headers, heap, arena, ends, cost);
    assert NodeIs(headers, heap, ends, |ends| - 2);
    if Last(ends) + cost < arena {
      Split(headers, heap, arena, ends, cost, headers');
    } else {
      TakeWhole(headers, heap, arena, ends, headers');
    }
  }

  // ---- whole runs ----

  /** The heap as init_heap_pages leaves it. */
  const UNUSED := Counters(0, 0, 0, 0)

  /** The nodes after the first n requests of a run. */
  ghost function EndsAfter(g: Geometry, sizes: seq<nat>, n: nat): (ends: seq<nat>)
    requires n <= |sizes|
    ensures |ends| > 0
  {
    if n == 0 then [0, g.arena]
    else NextEnds(g.arena, EndsAfter(g, sizes, n - 1), Top(g, UNUSED, sizes, n - 1), Top(g, UNUSED, sizes, n))
  }

  /** Every node of the list starts where the arena was once used up to. */
  lemma {:induction false} NodeAtTop(g: Geometry, sizes: seq<nat>, n: nat, k: nat) returns (j: nat)
    requires 0 < g.arena && n <= |sizes| && k + 1 < |EndsAfter(g, sizes, n)|
    ensures j <= n && EndsAfter(g, sizes, n)[k] == Top(g, UNUSED, sizes, j) < g.arena
  {
    if n == 0 {
      j := 0;
    } else if k + 1 < |EndsAfter(g, sizes, n - 1)| {
      j := NodeAtTop(g, sizes, n - 1, k);
    } else {
      j := n;
    }
  }

  /** So no byte ever given out, early or late, lies in the header of any block there ever
      is: what callers write never damages the block list. */
  lemma DataAvoidsHeaders(g: Geometry, sizes: seq<nat>, n: nat, k: nat, i: nat, a: nat)
    requires Laid(g) && 0 < g.arena && n <= |sizes| && k + 1 < |EndsAfter(g, sizes, n)|
    requires i < |sizes| && Given(g, UNUSED, sizes, i, a)
    ensures var node := g.heap + EndsAfter(g, sizes, n)[k];
            !(node <= a < node + g.header)
  {
    var j := NodeAtTop(g, sizes, n, k);
    DataAvoidsTop(g, UNUSED, sizes, i, j, a);
  }
}
