/**
 The mark-sweep collector of runtime/sere_gc.c over its linked list of blocks.

 The header magic is modelled by `headers`, the payload addresses in front of which a valid
 header stands. The system allocator is a parameter: it names the address of a new payload.
 */
module MarkSweep {
  import opened MarkSweepGraph

  class Block {
    const base: nat
    const size: nat
    var marked: bool
    var words: seq<nat>
    var next: Block?

    constructor (base: nat, size: nat)
      ensures this.base == base && this.size == size && !marked && next == null
      ensures words == seq(size / WORD, _ => 0)
    {
      this.base, this.size, marked, next := base, size, false, null;
      words := seq(size / WORD, _ => 0);
    }
  }

  function NodeAt(s: seq<Block>, i: nat): Block? {
    if i < |s| then s[i] else null
  }

  function Total(s: seq<Block>): int {
    if s == [] then 0 else s[0].size + Total(s[1..])
  }

  /** The blocks whose payload address is in `live`, in list order. */
  function Kept(s: seq<Block>, live: set<nat>): seq<Block> {
    if s == [] then []
    else (if s[0].base in live then [s[0]] else []) + Kept(s[1..], live)
  }

  lemma {:induction false} KeptSnoc(s: seq<Block>, b: Block, live: set<nat>)
    ensures Kept(s + [b], live) == Kept(s, live) + (if b.base in live then [b] else [])
  {
    if s == [] {
      assert s + [b] == [b] && [b][1..] == [];
    } else {
      assert (s + [b])[1..] == s[1..] + [b];
      KeptSnoc(s[1..], b, live);
    }
  }

  lemma {:induction false} KeptMembers(s: seq<Block>, live: set<nat>)
    ensures forall b :: b in Kept(s, live) <==> b in s && b.base in live
  {
    if s != [] {
      KeptMembers(s[1..], live);
      assert s == [s[0]] + s[1..];
    }
  }

  lemma {:induction false} TotalWithout(s: seq<Block>, k: nat)
    requires k < |s|
    ensures Total(Without(s, k)) == Total(s) - s[k].size && Total(s) >= s[k].size
    ensures |Without(s, k)| == |s| - 1
    decreases |s|
  {
    TotalIsNat(s[1..]);
    if k == 0 {
      assert Without(s, 0) == s[1..];
    } else {
      TotalWithout(s[1..], k - 1);
      WithoutLater(s, k);
      TotalWith(s[0], Without(s[1..], k - 1));
    }
  }

  lemma WithoutLater(s: seq<Block>, k: nat)
    requires 0 < k < |s|
    ensures Without(s, k) == [s[0]] + Without(s[1..], k - 1)
  {}

  /** The list without its block `k`. */
  function Without(s: seq<Block>, k: nat): seq<Block>
    requires k < |s|
  {
    s[..k] + s[k + 1..]
  }

  lemma TotalWith(b: Block, s: seq<Block>)
    ensures Total([b] + s) == b.size + Total(s)
  {
    assert ([b] + s)[1..] == s;
  }

  lemma {:induction false} TotalIsNat(s: seq<Block>)
    ensures Total(s) >= 0
  {
    if s != [] { TotalIsNat(s[1..]); }
  }

  /** The chain of `next` links from `h` runs through `s`. */
  ghost predicate Chained(h: Block?, s: seq<Block>)
    reads (set b | b in s)`next
  {
    && h == NodeAt(s, 0)
    && forall i {:trigger s[i].next} :: 0 <= i < |s| ==> s[i].next == NodeAt(s, i + 1)
  }

  /** The valid headers are those of the listed blocks, at distinct addresses. */
  predicate Indexed(s: seq<Block>, headers: map<nat, Block>) {
    && (forall i :: 0 <= i < |s| ==> s[i].base in headers && headers[s[i].base] == s[i])
    && (forall a :: a in headers ==> headers[a] in s && headers[a].base == a)
    && (forall i, j :: 0 <= i < j < |s| ==> s[i].base != s[j].base)
  }

  /** `heap` records the size and words of every block. */
  ghost predicate Recorded(heap: Heap, headers: map<nat, Block>)
    reads (set a | a in headers :: headers[a])`words
  {
    && heap.Keys == headers.Keys && Apart(heap)
    && forall a :: a in headers ==> heap[a] == Cell(headers[a].size, headers[a].words)
  }

  lemma IndexedWithout(s: seq<Block>, headers: map<nat, Block>, k: nat)
    requires Indexed(s, headers) && k < |s|
    ensures Indexed(Without(s, k), headers - {s[k].base})
  {
    var t, rest := Without(s, k), headers - {s[k].base};
    forall a | a in rest ensures rest[a] in t && rest[a].base == a {
      var j :| 0 <= j < |s| && s[j] == headers[a];
      assert t[if j < k then j else j - 1] == s[j];
    }
    forall i | 0 <= i < |t| ensures t[i].base in rest && rest[t[i].base] == t[i] {
      var j := if i < k then i else i + 1;
      assert t[i] == s[j] && s[j].base != s[k].base;
    }
  }

  lemma IndexedWith(s: seq<Block>, headers: map<nat, Block>, b: Block)
    requires Indexed(s, headers) && b.base !in headers
    ensures Indexed([b] + s, headers[b.base := b])
  {
    var t, more := [b] + s, headers[b.base := b];
    forall a | a in more ensures more[a] in t && more[a].base == a {
      if a in headers { assert more[a] in s; }
    }
    forall i, j | 0 <= i < j < |t| ensures t[i].base != t[j].base {
      if i == 0 { assert t[j] == s[j - 1] && s[j - 1].base in headers; }
    }
  }

  lemma RecordedWith(heap: Heap, headers: map<nat, Block>, b: Block)
    requires Recorded(heap, headers) && b.base >= HEADER
    requires forall a :: a in heap ==> a + heap[a].size + HEADER <= b.base || b.base + b.size + HEADER <= a
    ensures Recorded(heap[b.base := Cell(b.size, b.words)], headers[b.base := b])
  {}

  predicate OwnedBy(s: seq<Block>, headers: map<nat, Block>, repr: set<Block>) {
    && (forall i :: 0 <= i < |s| ==> s[i] in repr)
    && (forall a :: a in headers ==> headers[a] in repr)
  }

  lemma OwnedWith(s: seq<Block>, headers: map<nat, Block>, repr: set<Block>, b: Block)
    requires OwnedBy(s, headers, repr)
    ensures OwnedBy([b] + s, headers[b.base := b], repr + {b})
  {}

  lemma OwnedWithout(s: seq<Block>, headers: map<nat, Block>, repr: set<Block>, k: nat)
    requires OwnedBy(s, headers, repr) && k < |s|
    ensures OwnedBy(Without(s, k), headers - {s[k].base}, repr)
  {
    var t := Without(s, k);
    forall i | 0 <= i < |t| ensures t[i] in repr { assert t[i] == s[if i < k then i else i + 1]; }
  }

  lemma ChainedWith(b: Block, s: seq<Block>)
    requires Chained(NodeAt(s, 0), s) && b.next == NodeAt(s, 0)
    ensures Chained(b, [b] + s)
  {
    var t := [b] + s;
    forall i {:trigger t[i].next} | 0 <= i < |t| ensures t[i].next == NodeAt(t, i + 1) {
      if i > 0 { assert t[i] == s[i - 1]; }
    }
  }

  lemma {:induction false} KeptAll(s: seq<Block>, live: set<nat>)
    requires forall i :: 0 <= i < |s| ==> s[i].base in live
    ensures Kept(s, live) == s
  {
    if s != [] { KeptAll(s[1..], live); }
  }

  /** Keeping every address but that of block `k` removes block `k`. */
  lemma {:induction false} KeptButOne(s: seq<Block>, live: set<nat>, k: nat)
    requires k < |s| && forall i :: 0 <= i < |s| ==> (s[i].base in live <==> i != k)
    ensures Kept(s, live) == Without(s, k)
    decreases |s|
  {
    if k == 0 {
      KeptAll(s[1..], live);
      assert Without(s, 0) == s[1..];
    } else {
      KeptButOne(s[1..], live, k - 1);
      assert Without(s, k) == [s[0]] + Without(s[1..], k - 1);
    }
  }

  /** The list with its last element in the place of element `i`. */
  function LastMoved(s: seq<nat>, i: nat): seq<nat>
    requires i < |s|
  {
    s[i := s[|s| - 1]][..|s| - 1]
  }

  lemma OneGone(s: seq<nat>, i: nat)
    requires i < |s|
    ensures multiset(LastMoved(s, i)) == multiset(s) - multiset{s[i]}
  {
    var last, u := s[|s| - 1], LastMoved(s, i);
    var t := s[i := last];
    assert t == u + [last];
    assert multiset(t) == multiset(u) + multiset{last};
    assert multiset(t) == multiset(s) - multiset{s[i]} + multiset{last};
    assert multiset(u) == multiset(t) - multiset{last};
  }

  lemma NothingToRemove(s: seq<nat>, w: nat)
    requires forall k :: 0 <= k < |s| ==> s[k] != w
    ensures multiset(s) - multiset{w} == multiset(s)
  {
    assert w !in multiset(s);
  }

  lemma RecordedWithout(heap: Heap, headers: map<nat, Block>, a: nat)
    requires Recorded(heap, headers)
    ensures Recorded(heap - {a}, headers - {a})
  {}

  lemma ChainedWithout(h: Block?, s: seq<Block>, k: nat)
    requires k < |s| && h == NodeAt(s, if k == 0 then 1 else 0)
    requires forall i {:trigger s[i].next} :: 0 <= i < |s| && i != k ==>
               s[i].next == NodeAt(s, if i + 1 == k then k + 1 else i + 1)
    ensures Chained(h, Without(s, k))
  {
    var t := Without(s, k);
    forall i {:trigger t[i].next} | 0 <= i < |t| ensures t[i].next == NodeAt(t, i + 1) {
      var j := if i < k then i else i + 1;
      assert t[i] == s[j] && s[j].next == NodeAt(s, if j + 1 == k then k + 1 else j + 1);
    }
  }

  class Collector {
    var head: Block?
    var headers: map<nat, Block>
    var roots: seq<nat>
    var bytesInUse: int
    var bytesAllocated: int
    var liveBlocks: int
    var collections: int

    ghost var blocks: seq<Block>
    ghost var heap: Heap
    ghost var Repr: set<Block>

    ghost predicate Linked()
      reads `head, `headers, `blocks, `heap, `Repr, Repr`next, Repr`words
    {
      && Indexed(blocks, headers)
      && Owned()
      && Chained(head, blocks)
      && Recorded(heap, headers)
    }

    ghost predicate Owned()
      reads `headers, `blocks, `Repr
    {
      OwnedBy(blocks, headers, Repr)
    }

    lemma LinkedParts()
      requires Linked()
      ensures Owned() && Indexed(blocks, headers) && Chained(head, blocks) && Recorded(heap, headers)
      ensures head == NodeAt(blocks, 0) && heap.Keys == headers.Keys
    {}

    lemma LinkedFromParts()
      requires Owned() && Indexed(blocks, headers) && Chained(head, blocks) && Recorded(heap, headers)
      ensures Linked()
    {}

    ghost predicate Valid()
      reads `head, `headers, `blocks, `heap, `Repr, `bytesInUse, `liveBlocks, Repr`next, Repr`words
    {
      Linked() && bytesInUse == Total(blocks) && liveBlocks == |blocks|
    }

    ghost function Marked(): set<nat>
      reads `headers, `Repr, Repr`marked
    {
      set a | a in headers && headers[a] in Repr && headers[a].marked
    }

    constructor ()
      ensures Valid() && blocks == [] && roots == []
      ensures bytesAllocated == 0 && collections == 0
    {
      head, headers, roots := null, map[], [];
      bytesInUse, bytesAllocated, liveBlocks, collections := 0, 0, 0, 0;
      blocks, heap, Repr := [], map[], {};
    }

    /** `asBlock`: the block whose payload starts exactly at `w`. */
    method AsBlock(w: nat) returns (b: Block?)
      requires Linked()
      ensures b == null ==> w !in heap
      ensures b != null ==> b in blocks && b.base == w
    {
      if w in headers { return headers[w]; }
      return null;
    }

    /** `blockContaining`: the block whose payload contains address `w`. */
    method BlockContaining(w: nat) returns (b: Block?)
      requires Linked()
      ensures b != null ==> b in blocks && b.base <= w < b.base + b.size
      ensures b == null ==> forall c :: c in blocks ==> !(c.base <= w < c.base + c.size)
    {
      b := head;
      ghost var i := 0;
      while b != null
        invariant 0 <= i <= |blocks| && b == NodeAt(blocks, i)
        invariant forall k :: 0 <= k < i ==> !(blocks[k].base <= w < blocks[k].base + blocks[k].size)
        decreases |blocks| - i
      {
        if b.base <= w && w < b.base + b.size { return; }
        b := b.next;
        i := i + 1;
      }
    }

    /** The lookup both marking routines start with: an exact pointer, else an interior one. */
    method Find(w: nat) returns (b: Block?)
      requires Linked()
      ensures b == null ==> HitBy(heap, w) == {}
      ensures b != null ==> b in blocks && HitBy(heap, w) == {b.base}
    {
      b := AsBlock(w);
      if b == null {
        b := BlockContaining(w);
        if b == null {
          assert forall a :: a in heap ==> headers[a] in blocks;
        }
      }
      if b != null {
        forall a | a in HitBy(heap, w) ensures a == b.base { HitIsUnique(heap, w, a, b.base); }
      }
    }

    lemma MarkedIff(b: Block)
      requires Linked() && b in blocks
      ensures b in Repr && (b.marked <==> b.base in Marked())
    {}

    lemma Describes(b: Block)
      requires Linked() && b in blocks
      ensures b.base in heap && heap[b.base] == Cell(b.size, b.words)
    {}

    method SetMark(b: Block)
      requires Valid() && b in blocks
      modifies b`marked
      ensures Valid() && b.marked && Marked() == old(Marked()) + {b.base}
    {
      MarkedIff(b);
      hide HitBy;
      b.marked := true;
    }

    /** `markPointer`. */
    method MarkPointer(w: nat)
      requires Valid()
      modifies Repr`marked
      ensures Valid() && Marked() == old(Marked()) + HitBy(heap, w)
    {
      var b := Find(w);
      if b != null { SetMark(b); }
    }

    /** `markPayload`: marks what the payload's words point to and reports whether that grew. */
    method MarkPayload(b: Block) returns (grew: bool)
      requires Valid() && b in blocks
      modifies Repr`marked
      ensures Valid() && Marked() == old(Marked()) + Targets(heap, b.base)
      ensures grew == (Marked() != old(Marked()))
    {
      hide Linked, Marked, HitBy, HitByAny;
      assert HitByAny(heap, []) == {} by { HitByNone(heap); }
      grew := false;
      var index := 0;
      while index < |b.words|
        invariant 0 <= index <= |b.words| && Valid()
        invariant Marked() == old(Marked()) + HitByAny(heap, b.words[..index])
        invariant grew == (Marked() != old(Marked()))
      {
        assert b.words == old(b.words);
        var found := Find(b.words[index]);
        HitByAnySnoc(heap, b.words[..index], b.words[index]);
        assert b.words[..index + 1] == b.words[..index] + [b.words[index]];
        if found != null {
          MarkedIff(found);
          if !found.marked {
            SetMark(found);
            grew := true;
          }
        }
        index := index + 1;
      }
      assert b.words[..index] == b.words;
      Describes(b);
    }

    /** What a cursor standing on block `i` of the list knows. */
    lemma Cursor(i: nat)
      requires Linked() && i < |blocks|
      ensures blocks[i].next == NodeAt(blocks, i + 1)
      ensures blocks[i].base in headers && headers[blocks[i].base] == blocks[i] && blocks[i] in Repr
    {}

    lemma NoneMarked()
      requires Linked() && forall k :: 0 <= k < |blocks| ==> !blocks[k].marked
      ensures Marked() == {}
    {
      forall a | a in headers ensures !headers[a].marked {
        assert headers[a] in blocks;
      }
    }

    method ClearMarks()
      requires Valid()
      modifies Repr`marked
      ensures Valid() && Marked() == {}
    {
      var b := head;
      ghost var i := 0;
      assert b == NodeAt(blocks, 0);
      hide Linked, Marked;
      while b != null
        invariant 0 <= i <= |blocks| && b == NodeAt(blocks, i) && Valid()
        invariant forall k :: 0 <= k < i ==> !blocks[k].marked
        decreases |blocks| - i
      {
        Cursor(i);
        b.marked := false;
        b := b.next;
        i := i + 1;
      }
      NoneMarked();
    }

    method MarkRoots()
      requires Valid() && Marked() == {}
      modifies Repr`marked
      ensures Valid() && Marked() == HitByAny(heap, roots)
    {
      hide Linked, Marked, HitBy, HitByAny;
      assert HitByAny(heap, []) == {} by { HitByNone(heap); }
      var index := 0;
      while index < |roots|
        invariant 0 <= index <= |roots| && Valid()
        invariant Marked() == HitByAny(heap, roots[..index])
      {
        HitByAnySnoc(heap, roots[..index], roots[index]);
        assert roots[..index + 1] == roots[..index] + [roots[index]];
        MarkPointer(roots[index]);
        index := index + 1;
      }
      assert roots[..index] == roots;
    }

    /** The marking loop: repeats passes over the list until one marks nothing new. */
    method MarkAll()
      requires Valid() && Marked() == HitByAny(heap, roots)
      modifies Repr`marked
      ensures Valid() && Marked() == Live(heap, roots)
    {
      RootsAreLive(heap, roots);
      MarkedAreBlocks();
      hide Linked, Marked, HitByAny, Live;
      var grew := true;
      while grew
        invariant Valid() && HitByAny(heap, roots) <= Marked() <= Live(heap, roots)
        invariant Marked() <= heap.Keys
        invariant !grew ==> Closed(heap, Marked())
        decreases heap.Keys - Marked(), grew
      {
        grew := MarkPass();
        MarkedAreBlocks();
      }
      LiveIsLeast(heap, roots, Marked());
    }

    lemma MarkedAreBlocks()
      requires Linked()
      ensures Marked() <= heap.Keys
    {}

    /** The marks `m` include the targets of every marked block among the first `i`. */
    ghost predicate Explored(i: nat, m: set<nat>)
      reads `blocks, `heap
    {
      forall k :: 0 <= k < i && k < |blocks| && blocks[k].base in m ==> Targets(heap, blocks[k].base) <= m
    }

    lemma ExploredStep(i: nat, m: set<nat>)
      requires i < |blocks| && Explored(i, m)
      requires blocks[i].base in m ==> Targets(heap, blocks[i].base) <= m
      ensures Explored(i + 1, m)
    {}

    lemma ExploredIsClosed(m: set<nat>)
      requires Linked() && m <= heap.Keys && Explored(|blocks|, m)
      ensures Closed(heap, m)
    {
      forall a | a in m ensures Targets(heap, a) <= m {
        assert headers[a] in blocks && headers[a].base == a;
      }
    }

    /** One pass over the list, marking the targets of every marked block it meets. */
    method MarkPass() returns (grew: bool)
      requires Valid() && Marked() <= Live(heap, roots)
      modifies Repr`marked
      ensures Valid() && old(Marked()) <= Marked() <= Live(heap, roots)
      ensures grew == (Marked() != old(Marked()))
      ensures !grew ==> Closed(heap, Marked())
    {
      grew := false;
      var b := head;
      ghost var i, before, m := 0, Marked(), Marked();
      assert b == NodeAt(blocks, 0) && Explored(0, m);
      hide Linked, Marked, Targets, Closed, Live, Explored;
      while b != null
        invariant 0 <= i <= |blocks| && b == NodeAt(blocks, i) && Valid()
        invariant m == Marked() && before <= m <= Live(heap, roots)
        invariant grew == (m != before)
        invariant !grew ==> Explored(i, m)
        decreases |blocks| - i
      {
        Cursor(i);
        MarkedIff(b);
        if b.marked {
          EdgesStayLive(heap, roots, b.base);
          var more := MarkPayload(b);
          grew := grew || more;
          m := Marked();
        }
        if !grew { ExploredStep(i, m); }
        b := b.next;
        i := i + 1;
      }
      MarkedAreBlocks();
      if !grew { ExploredIsClosed(m); }
    }

    // ---------------------------------------------------------------- freeing

    /** `unlinkBlock`: steps a link cursor from the head until it names the target. */
    method Unlink(target: Block, ghost k: nat)
      requires Linked() && k < |blocks| && blocks[k] == target
      modifies `head, Repr`next
      ensures Chained(head, Without(blocks, k))
    {
      var prev, cursor := FindLink(target, k);
      Cursor(k);
      if prev == null { head := target.next; } else { prev.next := target.next; }
      ChainedWithout(head, blocks, k);
    }

    method FindLink(target: Block, ghost k: nat) returns (prev: Block?, cursor: Block?)
      requires Linked() && k < |blocks| && blocks[k] == target
      ensures cursor == target && prev == if k == 0 then null else blocks[k - 1]
    {
      hide Linked;
      prev, cursor := null, head;
      ghost var i := 0;
      Distinct(k);
      while cursor != target
        invariant 0 <= i <= k && cursor == NodeAt(blocks, i)
        invariant prev == if i == 0 then null else blocks[i - 1]
        decreases k - i
      {
        Cursor(i);
        prev, cursor := cursor, cursor.next;
        i := i + 1;
      }
    }

    lemma Distinct(k: nat)
      requires Linked() && k < |blocks|
      ensures head == NodeAt(blocks, 0) && forall j :: 0 <= j < k ==> blocks[j] != blocks[k]
    {}

    /** Clearing the magic of block `k` takes it out of the ghost description too. */
    method Forget(target: Block, ghost k: nat)
      requires k < |blocks| && blocks[k] == target && Chained(head, Without(blocks, k))
      requires Owned() && Indexed(blocks, headers) && Recorded(heap, headers)
      modifies `blocks, `heap, `headers
      ensures Linked() && blocks == Without(old(blocks), k)
      ensures headers == old(headers) - {target.base} && heap == old(heap) - {target.base}
    {
      hide Indexed, Chained, Recorded, Linked, Without, OwnedBy;
      IndexedWithout(blocks, headers, k);
      RecordedWithout(heap, headers, target.base);
      OwnedWithout(blocks, headers, Repr, k);
      blocks, heap, headers := Without(blocks, k), heap - {target.base}, headers - {target.base};
      LinkedFromParts();
    }

    /** `bumpStatsFree`, with its clamps at zero. */
    method BumpStatsFree(size: nat)
      modifies `bytesInUse, `liveBlocks
      ensures bytesInUse == if old(bytesInUse) < size then 0 else old(bytesInUse) - size
      ensures liveBlocks == if old(liveBlocks) > 0 then old(liveBlocks) - 1 else old(liveBlocks)
    {
      bytesInUse := bytesInUse - size;
      if bytesInUse < 0 { bytesInUse := 0; }
      if liveBlocks > 0 { liveBlocks := liveBlocks - 1; }
    }

    /** The steps `blockFree` and the sweep share: unlink, account, clear the magic. */
    method Release(target: Block, ghost k: nat)
      requires Valid() && k < |blocks| && blocks[k] == target
      modifies `head, `headers, `blocks, `heap, `bytesInUse, `liveBlocks, Repr`next
      ensures Valid() && blocks == Without(old(blocks), k)
      ensures headers == old(headers) - {target.base} && heap == old(heap) - {target.base}
    {
      LinkedParts();
      TotalWithout(blocks, k);
      TotalIsNat(Without(blocks, k));
      hide Linked, Indexed, Chained, Recorded, Apart, Total, Without;
      Unlink(target, k);
      BumpStatsFree(target.size);
      Forget(target, k);
    }

    /** The heap `h` is part of the heap `g`. */
    static predicate PartOf(h: Heap, g: Heap) {
      h.Keys <= g.Keys && forall a :: a in h ==> h[a] == g[a]
    }

    /** One step of the sweep: the cursor stands on the first block of `rest`. */
    method SweepOne(b: Block, ghost done: seq<Block>, ghost rest: seq<Block>, ghost m: set<nat>,
                    ghost whole: Heap)
      returns (next: Block?)
      requires Valid() && PartOf(heap, whole) && rest != [] && b == rest[0] && blocks == Kept(done, m) + rest
      requires b.marked == (b.base in m)
      modifies `head, `headers, `blocks, `heap, `bytesInUse, `liveBlocks, Repr`next
      ensures Valid() && next == NodeAt(rest, 1) && PartOf(heap, whole)
      ensures blocks == Kept(done + [b], m) + rest[1..]
    {
      ghost var k := |Kept(done, m)|;
      SweepNext(done, rest, m);
      hide Linked, Kept, Total, Without;
      next := b.next;
      if !b.marked {
        SweepDrops(done, rest, m);
        Release(b, k);
      } else {
        SweepKeeps(done, rest, m);
      }
    }

    /** The loop of the sweep, over the list `was` that it starts with. */
    method SweepList(ghost was: seq<Block>, ghost m: set<nat>, ghost whole: Heap)
      requires Valid() && blocks == was && head == NodeAt(was, 0) && PartOf(heap, whole)
      requires forall b :: b in was ==> b.marked == (b.base in m)
      modifies `head, `headers, `blocks, `heap, `bytesInUse, `liveBlocks, Repr`next
      ensures Valid() && blocks == Kept(was, m) && PartOf(heap, whole)
    {
      var b := head;
      ghost var done, rest: seq<Block> := [], was;
      assert Kept([], m) + rest == rest;
      hide Linked, Kept, Total, PartOf;
      while b != null
        invariant b == NodeAt(rest, 0) && Valid() && was == done + rest
        invariant blocks == Kept(done, m) + rest && PartOf(heap, whole)
        decreases |rest|
      {
        assert b in was;
        b := SweepOne(b, done, rest, m, whole);
        Shift(done, rest);
        done, rest := done + [rest[0]], rest[1..];
      }
      assert done + rest == done && Kept(done, m) + rest == Kept(done, m);
    }

    /** The sweep: frees exactly the unmarked blocks and keeps the order of the others. */
    method Sweep(ghost m: set<nat>)
      requires Valid() && Marked() == m
      modifies `head, `headers, `blocks, `heap, `bytesInUse, `liveBlocks, Repr`next
      ensures Valid() && blocks == Kept(old(blocks), m) && heap == Restrict(old(heap), m)
    {
      LinkedParts();
      MarksAgree();
      hide Linked, Kept, Total, Restrict, Recorded, Indexed, Marked;
      SweepList(blocks, m, heap);
      SweptHeap(old(blocks), old(headers), old(heap), m);
    }

    lemma SweepNext(done: seq<Block>, rest: seq<Block>, m: set<nat>)
      requires Linked() && rest != [] && blocks == Kept(done, m) + rest
      ensures blocks[|Kept(done, m)|] == rest[0] && rest[0].next == NodeAt(rest, 1)
    {
      Cursor(|Kept(done, m)|);
    }

    lemma Shift(done: seq<Block>, rest: seq<Block>)
      requires rest != []
      ensures (done + [rest[0]]) + rest[1..] == done + rest
    {}

    lemma SweepKeeps(done: seq<Block>, rest: seq<Block>, m: set<nat>)
      requires rest != [] && rest[0].base in m
      ensures Kept(done + [rest[0]], m) + rest[1..] == Kept(done, m) + rest
    {
      KeptSnoc(done, rest[0], m);
      hide Kept;
      Shift(Kept(done, m), rest);
    }

    lemma SweepDrops(done: seq<Block>, rest: seq<Block>, m: set<nat>)
      requires rest != [] && rest[0].base !in m
      ensures Kept(done + [rest[0]], m) + rest[1..] == Without(Kept(done, m) + rest, |Kept(done, m)|)
    {
      KeptSnoc(done, rest[0], m);
      hide Kept;
    }

    lemma MarksAgree()
      requires Linked()
      ensures forall b :: b in blocks ==> b.marked == (b.base in Marked())
    {}

    lemma SweptHeap(was: seq<Block>, wasHeaders: map<nat, Block>, wasHeap: Heap, m: set<nat>)
      requires Linked() && blocks == Kept(was, m)
      requires PartOf(heap, wasHeap)
      requires Indexed(was, wasHeaders) && wasHeap.Keys == wasHeaders.Keys
      ensures heap == Restrict(wasHeap, m)
    {
      KeptMembers(was, m);
      forall a ensures a in heap <==> a in wasHeap && a in m {
        if a in heap { assert headers[a] in blocks && headers[a].base == a; }
        if a in wasHeap && a in m { assert wasHeaders[a] in blocks; }
      }
    }

    /** What survives a collection, in terms of addresses. */
    static lemma Survivors(was: Heap, now: Heap, roots: seq<nat>)
      requires now == Restrict(was, Live(was, roots))
      ensures forall w, a :: w in roots && a in was && (w == a || a <= w < a + was[a].size) ==> a in now
      ensures forall c, w, a ::
                c in now && w in now[c].words && a in was && (w == a || a <= w < a + was[a].size) ==> a in now
      ensures forall a :: a in now ==>
                (exists w :: w in roots && (w == a || a <= w < a + now[a].size)) ||
                (exists c, w :: c in now && w in now[c].words && (w == a || a <= w < a + now[a].size))
    {
      hide Live;
      forall w, a | w in roots && a in was && (w == a || a <= w < a + was[a].size) ensures a in now {
        RootedIsLive(was, roots, w, a);
      }
      forall c, w, a | c in now && w in now[c].words && a in was && (w == a || a <= w < a + was[a].size) ensures a in now {
        PointedIsLive(was, roots, c, w, a);
      }
      forall a | a in now
        ensures (exists w :: w in roots && (w == a || a <= w < a + now[a].size)) ||
                (exists c, w :: c in now && w in now[c].words && (w == a || a <= w < a + now[a].size))
      {
        LiveIsPointed(was, roots, a);
        if c, w :| c in Live(was, roots) && w in was[c].words && (w == a || a <= w < a + was[a].size) {
          assert c in now && w in now[c].words;
        }
      }
    }

    /** `sweepCollect`. */
    method Collect()
      requires Valid()
      modifies `head, `headers, `blocks, `heap, `bytesInUse, `liveBlocks, `collections
      modifies Repr`next, Repr`marked
      ensures Valid()
      ensures roots == [] ==> blocks == old(blocks) && heap == old(heap) && collections == old(collections)
      ensures roots != [] ==>
                && blocks == Kept(old(blocks), Live(old(heap), roots))
                && heap == Restrict(old(heap), Live(old(heap), roots))
                && collections == old(collections) + 1
      ensures roots != [] ==> forall w, a ::
                w in roots && a in old(heap) && (w == a || a <= w < a + old(heap)[a].size) ==> a in heap
      ensures roots != [] ==> forall c, w, a ::
                c in heap && w in heap[c].words && a in old(heap) && (w == a || a <= w < a + old(heap)[a].size) ==>
                a in heap
      ensures roots != [] ==> forall a :: a in heap ==>
                (exists w :: w in roots && (w == a || a <= w < a + heap[a].size)) ||
                (exists c, w :: c in heap && w in heap[c].words && (w == a || a <= w < a + heap[a].size))
    {
      hide Valid, Linked, Marked, Live, HitByAny, Restrict, Kept;
      if |roots| == 0 { return; }
      ClearMarks();
      MarkRoots();
      MarkAll();
      ghost var was := heap;
      Sweep(Live(heap, roots));
      collections := collections + 1;
      Survivors(was, heap, roots);
    }

    // ---------------------------------------------------------------- the program's side

    /** Puts a new block at the front of the chain. */
    method LinkFront(b: Block)
      requires Indexed(blocks, headers) && Chained(head, blocks) && b.base !in headers
      modifies `head, b`next
      ensures Chained(head, [b] + blocks)
    {
      assert forall i :: 0 <= i < |blocks| ==> blocks[i] != b;
      b.next := head;
      head := b;
      ChainedWith(b, blocks);
    }

    /** Writing the header of a new block adds it to the ghost description. */
    method Register(b: Block)
      requires Chained(head, [b] + blocks) && Owned() && Indexed(blocks, headers) && Recorded(heap, headers)
      requires b.base !in headers && b.base >= HEADER
      requires forall a :: a in heap ==> a + heap[a].size + HEADER <= b.base || b.base + b.size + HEADER <= a
      modifies `blocks, `heap, `headers, `Repr
      ensures Linked() && blocks == [b] + old(blocks) && Repr == old(Repr) + {b}
      ensures heap == old(heap)[b.base := Cell(b.size, b.words)]
      ensures headers == old(headers)[b.base := b]
    {
      hide Linked, Indexed, Recorded, Chained, OwnedBy;
      IndexedWith(blocks, headers, b);
      RecordedWith(heap, headers, b);
      OwnedWith(blocks, headers, Repr, b);
      blocks, headers, Repr := [b] + blocks, headers[b.base := b], Repr + {b};
      heap := heap[b.base := Cell(b.size, b.words)];
      LinkedFromParts();
    }

    /** Puts a new block at the front of the list and its header in place. */
    method Link(b: Block)
      requires Linked() && b.base !in headers && b.base >= HEADER
      requires forall a :: a in heap ==> a + heap[a].size + HEADER <= b.base || b.base + b.size + HEADER <= a
      modifies `head, `blocks, `heap, `headers, `Repr, b`next
      ensures Linked() && blocks == [b] + old(blocks) && Repr == old(Repr) + {b}
      ensures heap == old(heap)[b.base := Cell(b.size, b.words)]
    {
      LinkedParts();
      ChainKept(b);
      hide Linked, Indexed, Chained, Recorded;
      LinkFront(b);
      Register(b);
    }

    /** A block whose header is not in place is not in the list. */
    lemma ChainKept(b: Block)
      requires Indexed(blocks, headers) && b.base !in headers
      ensures forall i :: 0 <= i < |blocks| ==> blocks[i] != b
    {}

    /** `bumpStatsAlloc`. */
    method BumpStatsAlloc(size: nat)
      modifies `bytesInUse, `bytesAllocated, `liveBlocks
      ensures bytesInUse == old(bytesInUse) + size && bytesAllocated == old(bytesAllocated) + size
      ensures liveBlocks == old(liveBlocks) + 1
    {
      bytesInUse := bytesInUse + size;
      bytesAllocated := bytesAllocated + size;
      liveBlocks := liveBlocks + 1;
    }

    /** `blockAlloc` on a payload address the system allocator chose. */
    method Alloc(size: nat, base: nat) returns (b: Block)
      requires Valid() && base >= HEADER && base !in headers
      requires forall a :: a in heap ==> a + heap[a].size + HEADER <= base || base + size + HEADER <= a
      modifies `head, `headers, `blocks, `heap, `Repr, `bytesInUse, `liveBlocks, `bytesAllocated
      ensures Valid() && fresh(b) && b.base == base && b.size == size
      ensures blocks == [b] + old(blocks)
      ensures heap == old(heap)[base := Cell(size, seq(size / WORD, _ => 0))]
      ensures bytesAllocated == old(bytesAllocated) + size
    {
      hide Linked, Total, Apart;
      b := new Block(base, size);
      TotalWith(b, blocks);
      Link(b);
      BumpStatsAlloc(size);
    }

    /** `blockFree` on a linked block; any other pointer is not the collector's to free. */
    method Free(w: nat)
      requires Valid()
      modifies `head, `headers, `blocks, `heap, `bytesInUse, `liveBlocks, Repr`next
      ensures Valid() && heap == old(heap) - {w}
      ensures blocks == Kept(old(blocks), old(heap).Keys - {w})
    {
      var b := AsBlock(w);
      hide Linked, Indexed, Chained, Recorded, Kept, Without, Total;
      if b == null { NothingAt(w); return; }
      ghost var k := Place(b);
      Release(b, k);
    }

    lemma NothingAt(w: nat)
      requires Linked() && w !in heap
      ensures heap - {w} == heap && Kept(blocks, heap.Keys - {w}) == blocks
    {
      LinkedParts();
      KeptAll(blocks, heap.Keys - {w});
    }

    lemma Place(b: Block) returns (k: nat)
      requires Linked() && b in blocks
      ensures k < |blocks| && blocks[k] == b && Kept(blocks, heap.Keys - {b.base}) == Without(blocks, k)
    {
      LinkedParts();
      k :| 0 <= k < |blocks| && blocks[k] == b;
      hide Chained, Recorded, Without, Kept;
      KeptButOne(blocks, heap.Keys - {b.base}, k);
    }

    method WriteWord(b: Block, index: nat, w: nat)
      requires Recorded(heap, headers) && b.base in headers && index < |b.words|
      requires forall a :: a in headers ==> (headers[a] == b <==> a == b.base)
      modifies `heap, b`words
      ensures Recorded(heap, headers) && heap == old(heap)[b.base := Cell(b.size, old(b.words)[index := w])]
    {
      b.words := b.words[index := w];
      heap := heap[b.base := Cell(b.size, b.words)];
    }

    /** A store of one word into a live payload. */
    method Store(b: Block, index: nat, w: nat)
      requires Valid() && b in blocks && index < |b.words|
      modifies `heap, b`words
      ensures Valid() && blocks == old(blocks)
      ensures heap == old(heap)[b.base := Cell(b.size, old(b.words)[index := w])]
    {
      hide Chained, Total, Indexed, OwnedBy, Recorded;
      OnlyAt(b);
      WriteWord(b, index, w);
    }

    lemma OnlyAt(b: Block)
      requires Linked() && b in blocks
      ensures b.base in headers && forall a :: a in headers ==> (headers[a] == b <==> a == b.base)
    {}

    /** `sere_gc_add_root`. */
    method AddRoot(w: nat)
      modifies `roots
      ensures roots == if w == 0 then old(roots) else old(roots) + [w]
    {
      if w == 0 { return; }
      roots := roots + [w];
    }

    /** `sere_gc_remove_root`: drops one occurrence and moves the last root into its place. */
    method RemoveRoot(w: nat)
      modifies `roots
      ensures multiset(roots) == multiset(old(roots)) - multiset{w}
    {
      hide LastMoved;
      var index := 0;
      while index < |roots|
        invariant 0 <= index <= |roots| && roots == old(roots)
        invariant forall k :: 0 <= k < index ==> roots[k] != w
      {
        if roots[index] == w {
          OneGone(roots, index);
          roots := LastMoved(roots, index);
          return;
        }
        index := index + 1;
      }
      NothingToRemove(roots, w);
    }
  }
}
