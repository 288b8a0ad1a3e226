/**
 The heap a collection sees, as a graph over payload addresses.

 A word points to a block when it is the block's payload address or lies inside the payload.
 Reachability is the existence of a path of such words from a root.
 */
module MarkSweepGraph {

  /** Bytes of the header in front of each payload, and bytes of one pointer-sized word. */
  const HEADER: nat := 24
  const WORD: nat := 8

  /** A block as the collector reads it: the payload's byte count and its aligned words. */
  datatype Cell = Cell(size: nat, words: seq<nat>)

  /** Blocks by payload address. */
  type Heap = map<nat, Cell>

  predicate Hits(heap: Heap, w: nat, a: nat)
    requires a in heap
  {
    w == a || a <= w < a + heap[a].size
  }

  /** Blocks lie at positive addresses and do not overlap, headers included. */
  ghost predicate Apart(heap: Heap) {
    && (forall a :: a in heap ==> a >= HEADER)
    && (forall a, c :: a in heap && c in heap && a < c ==> a + heap[a].size + HEADER <= c)
  }

  function HitBy(heap: Heap, w: nat): set<nat> {
    set a | a in heap && Hits(heap, w, a)
  }

  function HitByAny(heap: Heap, ws: seq<nat>): set<nat> {
    set a | a in heap && exists w :: w in ws && Hits(heap, w, a)
  }

  /** The blocks the payload of `a` points to. */
  function Targets(heap: Heap, a: nat): set<nat> {
    if a in heap then HitByAny(heap, heap[a].words) else {}
  }

  ghost predicate Edge(heap: Heap, a: nat, c: nat) { c in Targets(heap, a) }

  ghost predicate IsPath(heap: Heap, roots: seq<nat>, p: seq<nat>) {
    && |p| > 0
    && p[0] in HitByAny(heap, roots)
    && forall k :: 0 < k < |p| ==> Edge(heap, p[k - 1], p[k])
  }

  ghost predicate Reachable(heap: Heap, roots: seq<nat>, a: nat) {
    exists p :: IsPath(heap, roots, p) && p[|p| - 1] == a
  }

  ghost function Live(heap: Heap, roots: seq<nat>): (live: set<nat>)
    ensures live <= heap.Keys
  {
    set a | a in heap && Reachable(heap, roots, a)
  }

  /** A word points to at most one block. */
  lemma HitIsUnique(heap: Heap, w: nat, a: nat, c: nat)
    requires Apart(heap) && a in heap && c in heap && Hits(heap, w, a) && Hits(heap, w, c)
    ensures a == c
  {}

  lemma HitByNone(heap: Heap)
    ensures HitByAny(heap, []) == {}
  {}

  lemma HitByAnySnoc(heap: Heap, ws: seq<nat>, w: nat)
    ensures HitByAny(heap, ws + [w]) == HitByAny(heap, ws) + HitBy(heap, w)
  {
    assert forall v :: v in ws + [w] <==> v in ws || v == w;
  }

  lemma RootsAreLive(heap: Heap, roots: seq<nat>)
    ensures HitByAny(heap, roots) <= Live(heap, roots)
  {
    forall a | a in HitByAny(heap, roots) ensures a in Live(heap, roots) {
      assert IsPath(heap, roots, [a]);
    }
  }

  lemma EdgesStayLive(heap: Heap, roots: seq<nat>, a: nat)
    requires a in Live(heap, roots)
    ensures Targets(heap, a) <= Live(heap, roots)
  {
    var p :| IsPath(heap, roots, p) && p[|p| - 1] == a;
    forall c | c in Targets(heap, a) ensures c in Live(heap, roots) {
      var q := p + [c];
      assert forall k :: 0 < k < |q| ==> Edge(heap, q[k - 1], q[k]) by {
        forall k | 0 < k < |q| ensures Edge(heap, q[k - 1], q[k]) {
          if k < |p| { assert Edge(heap, p[k - 1], p[k]); }
        }
      }
      assert IsPath(heap, roots, q) && q[|q| - 1] == c;
    }
  }

  ghost predicate Closed(heap: Heap, m: set<nat>) {
    m <= heap.Keys && forall a :: a in m ==> Targets(heap, a) <= m
  }

  lemma {:induction false} PathStaysIn(heap: Heap, roots: seq<nat>, m: set<nat>, p: seq<nat>)
    requires Closed(heap, m) && HitByAny(heap, roots) <= m && IsPath(heap, roots, p)
    ensures p[|p| - 1] in m
    decreases |p|
  {
    if |p| > 1 {
      var q := p[..|p| - 1];
      PathStaysIn(heap, roots, m, q);
      assert Edge(heap, p[|p| - 2], p[|p| - 1]);
    }
  }

  /** The live set is the least set that holds the roots' targets and is closed under edges. */
  lemma LiveIsLeast(heap: Heap, roots: seq<nat>, m: set<nat>)
    requires Closed(heap, m) && HitByAny(heap, roots) <= m
    ensures Live(heap, roots) <= m
  {
    forall a | a in Live(heap, roots) ensures a in m {
      var p :| IsPath(heap, roots, p) && p[|p| - 1] == a;
      PathStaysIn(heap, roots, m, p);
    }
  }

  // ---------------------------------------------------------------- in terms of addresses

  /** A root that is a block's payload address or lies inside its payload keeps it alive. */
  lemma RootedIsLive(heap: Heap, roots: seq<nat>, w: nat, a: nat)
    requires w in roots && a in heap && (w == a || a <= w < a + heap[a].size)
    ensures a in Live(heap, roots)
  {
    RootsAreLive(heap, roots);
    assert a in HitByAny(heap, roots);
  }

  /** So does such a word in the payload of a live block. */
  lemma PointedIsLive(heap: Heap, roots: seq<nat>, c: nat, w: nat, a: nat)
    requires c in Live(heap, roots) && w in heap[c].words
    requires a in heap && (w == a || a <= w < a + heap[a].size)
    ensures a in Live(heap, roots)
  {
    EdgesStayLive(heap, roots, c);
    assert a in HitByAny(heap, heap[c].words);
  }

  /** And nothing else does: a live block has such a word among the roots or in a live payload. */
  lemma LiveIsPointed(heap: Heap, roots: seq<nat>, a: nat)
    requires a in Live(heap, roots)
    ensures (exists w :: w in roots && (w == a || a <= w < a + heap[a].size)) ||
            (exists c, w :: c in Live(heap, roots) && w in heap[c].words && (w == a || a <= w < a + heap[a].size))
  {
    var p :| IsPath(heap, roots, p) && p[|p| - 1] == a;
    if |p| == 1 {
      var w :| w in roots && Hits(heap, w, a);
    } else {
      var q := p[..|p| - 1];
      var c := q[|q| - 1];
      assert Edge(heap, p[|p| - 2], p[|p| - 1]);
      assert IsPath(heap, roots, q) && c in Live(heap, roots);
      var w :| w in heap[c].words && Hits(heap, w, a);
    }
  }

  /**
   The live set is the least one with both closures: a set that holds every block a root points to or
   into, and every block that a word in one of its payloads points to or into, holds all live blocks.
   */
  lemma LiveIsLeastByAddress(heap: Heap, roots: seq<nat>, m: set<nat>)
    requires m <= heap.Keys
    requires forall w: nat, a :: w in roots && a in heap && (w == a || a <= w < a + heap[a].size) ==> a in m
    requires forall c, w: nat, a ::
               c in m && w in heap[c].words && a in heap && (w == a || a <= w < a + heap[a].size) ==> a in m
    ensures Live(heap, roots) <= m
  {
    assert HitByAny(heap, roots) <= m;
    forall c | c in m ensures Targets(heap, c) <= m {
      forall a | a in Targets(heap, c) ensures a in m {
        var w :| w in heap[c].words && Hits(heap, w, a);
      }
    }
    LiveIsLeast(heap, roots, m);
  }

  lemma LiveIsClosed(heap: Heap, roots: seq<nat>)
    ensures Closed(heap, Live(heap, roots))
  {
    forall a | a in Live(heap, roots) ensures Targets(heap, a) <= Live(heap, roots) {
      EdgesStayLive(heap, roots, a);
    }
  }

  /** The heap left when only the blocks in `keep` survive. */
  function Restrict(heap: Heap, keep: set<nat>): Heap {
    map a | a in heap && a in keep :: heap[a]
  }

  lemma RestrictHits(heap: Heap, keep: set<nat>, ws: seq<nat>)
    ensures HitByAny(Restrict(heap, keep), ws) == HitByAny(heap, ws) * keep
  {
    var rest := Restrict(heap, keep);
    forall a ensures a in HitByAny(rest, ws) <==> a in HitByAny(heap, ws) * keep {
      if a in rest { assert forall w :: Hits(rest, w, a) <==> Hits(heap, w, a); }
    }
  }

  /** Removing garbage leaves every survivor reachable, so a second collection frees nothing. */
  lemma CollectingAgainFreesNothing(heap: Heap, roots: seq<nat>)
    ensures var after := Restrict(heap, Live(heap, roots));
            Live(after, roots) == after.Keys == Live(heap, roots)
  {
    var live := Live(heap, roots);
    var after := Restrict(heap, live);
    var again := Live(after, roots);
    assert after.Keys == live;
    LiveIsClosed(after, roots);
    RootsAreLive(after, roots);
    RootsAreLive(heap, roots);
    LiveIsClosed(heap, roots);
    hide Live, HitByAny;
    forall a | a in again ensures Targets(heap, a) <= again {
      RestrictHits(heap, live, heap[a].words);
      assert after[a] == heap[a];
    }
    RestrictHits(heap, live, roots);
    LiveIsLeast(heap, roots, again);
  }

  /** A block the program can still reach stays reachable when other blocks are added. */
  lemma AllocationKeepsLive(heap: Heap, roots: seq<nat>, a: nat, cell: Cell)
    requires a !in heap
    ensures Live(heap, roots) <= Live(heap[a := cell], roots)
  {
    var after := heap[a := cell];
    var m := Live(after, roots) * heap.Keys;
    RootsAreLive(after, roots);
    LiveIsClosed(after, roots);
    assert forall ws: seq<nat> :: HitByAny(heap, ws) <= HitByAny(after, ws);
    assert Closed(heap, m);
    LiveIsLeast(heap, roots, m);
  }
}
