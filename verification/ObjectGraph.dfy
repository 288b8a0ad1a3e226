/**
 The graph of boxed objects behind runtime/sere_mod.c, as a value.

 Objects are numbered in allocation order and a released object leaves `None` behind. An object
 refers to others through attribute values, list items, and the keys and values of dict entries.
 */
module ObjectGraph {
  import opened Wrappers

  type Ref = Option<nat>

  datatype Attr = Attr(name: string, value: Ref)
  datatype Entry = Entry(key: Ref, value: Ref)

  datatype Object = Object(refs: int, attrs: seq<Attr>, items: seq<Ref>, entries: seq<Entry>) {
    /** Every reference the object holds: attributes, items and dict entries, released in this order of kinds. */
    function Slots(): seq<Ref> {
      AttrSlots(attrs) + items + EntrySlots(entries)
    }
  }

  function AttrSlots(attrs: seq<Attr>): seq<Ref> {
    if attrs == [] then [] else [attrs[0].value] + AttrSlots(attrs[1..])
  }

  function EntrySlots(entries: seq<Entry>): seq<Ref> {
    if entries == [] then [] else [entries[0].key, entries[0].value] + EntrySlots(entries[1..])
  }

  type Cells = seq<Option<Object>>

  predicate Alive(cells: Cells, i: nat) {
    i < |cells| && cells[i].Some?
  }

  /** How many of the slots refer to object `x`. */
  function Count(slots: seq<Ref>, x: nat): nat {
    if slots == [] then 0
    else (if slots[0] == Some(x) then 1 else 0) + Count(slots[1..], x)
  }

  function CellCount(cell: Option<Object>, x: nat): nat {
    if cell.Some? then Count(cell.value.Slots(), x) else 0
  }

  /** How many slots of living objects refer to object `x`. */
  function Held(cells: Cells, x: nat): nat {
    if cells == [] then 0
    else Held(cells[..|cells| - 1], x) + CellCount(cells[|cells| - 1], x)
  }

  /** The references the native module holds itself, by object. */
  type Handles = nat -> int

  function RefsOf(cells: Cells, i: nat): int {
    if Alive(cells, i) then cells[i].value.refs else 0
  }

  /**
   The ownership invariant: every count equals the caller's handles plus the slots that refer to
   the object, and no object is alive with a count of zero.
   */
  ghost predicate Counted(cells: Cells, handles: Handles) {
    && (forall i: nat :: handles(i) >= 0)
    && (forall i: nat :: RefsOf(cells, i) == handles(i) + Held(cells, i))
    && (forall i: nat :: Alive(cells, i) ==> cells[i].value.refs > 0)
  }

  function LiveCount(cells: Cells): nat {
    if cells == [] then 0
    else LiveCount(cells[..|cells| - 1]) + (if cells[|cells| - 1].Some? then 1 else 0)
  }

  // ---------------------------------------------------------------- counting lemmas

  lemma {:induction false} CountConcat(a: seq<Ref>, b: seq<Ref>, x: nat)
    ensures Count(a + b, x) == Count(a, x) + Count(b, x)
  {
    if a == [] {
      assert a + b == b;
    } else {
      assert (a + b)[1..] == a[1..] + b;
      CountConcat(a[1..], b, x);
    }
  }

  lemma {:induction false} CountHas(slots: seq<Ref>, x: nat)
    ensures Count(slots, x) > 0 <==> Some(x) in slots
  {
    if slots != [] {
      CountHas(slots[1..], x);
      assert slots == [slots[0]] + slots[1..];
    }
  }

  lemma {:induction false} HeldUpdate(cells: Cells, i: nat, cell: Option<Object>, x: nat)
    requires i < |cells|
    ensures Held(cells[i := cell], x) + CellCount(cells[i], x) == Held(cells, x) + CellCount(cell, x)
  {
    hide CellCount;
    var n := |cells| - 1;
    var next := cells[i := cell];
    if i == n {
      assert next[..n] == cells[..n];
    } else {
      assert next[..n] == cells[..n][i := cell];
      HeldUpdate(cells[..n], i, cell, x);
    }
  }

  lemma {:induction false} LiveCountUpdate(cells: Cells, i: nat, cell: Option<Object>)
    requires i < |cells|
    ensures LiveCount(cells[i := cell]) ==
            LiveCount(cells) - (if cells[i].Some? then 1 else 0) + (if cell.Some? then 1 else 0)
  {
    var n := |cells| - 1;
    var next := cells[i := cell];
    if i == n {
      assert next[..n] == cells[..n];
    } else {
      assert next[..n] == cells[..n][i := cell];
      LiveCountUpdate(cells[..n], i, cell);
    }
  }

  lemma {:induction false} HeldHas(cells: Cells, x: nat) returns (p: nat)
    requires Held(cells, x) > 0
    ensures Alive(cells, p) && Some(x) in cells[p].value.Slots()
  {
    var n := |cells| - 1;
    if CellCount(cells[n], x) > 0 {
      p := n;
      CountHas(cells[n].value.Slots(), x);
    } else {
      p := HeldHas(cells[..n], x);
    }
  }

  lemma {:induction false} SlotIsHeld(cells: Cells, p: nat, x: nat)
    requires Alive(cells, p) && Some(x) in cells[p].value.Slots()
    ensures Held(cells, x) > 0
  {
    var n := |cells| - 1;
    if p == n {
      CountHas(cells[n].value.Slots(), x);
    } else {
      assert cells[..n][p] == cells[p];
      SlotIsHeld(cells[..n], p, x);
    }
  }

  // ---------------------------------------------------------------- reachability

  ghost predicate Edge(cells: Cells, a: nat, b: nat) {
    Alive(cells, a) && Some(b) in cells[a].value.Slots()
  }

  ghost predicate IsPath(cells: Cells, handles: Handles, p: seq<nat>) {
    && |p| > 0 && handles(p[0]) > 0
    && forall k :: 0 < k < |p| ==> Edge(cells, p[k - 1], p[k])
  }

  lemma {:induction false} AttrSlotsAre(attrs: seq<Attr>, o: Ref)
    ensures o in AttrSlots(attrs) <==> exists k :: 0 <= k < |attrs| && attrs[k].value == o
  {
    if attrs != [] {
      AttrSlotsAre(attrs[1..], o);
      if k :| 0 <= k < |attrs| && attrs[k].value == o && k > 0 { assert attrs[1..][k - 1].value == o; }
    }
  }

  lemma {:induction false} EntrySlotsAre(entries: seq<Entry>, o: Ref)
    ensures o in EntrySlots(entries) <==> exists k :: 0 <= k < |entries| && (entries[k].key == o || entries[k].value == o)
  {
    if entries != [] {
      EntrySlotsAre(entries[1..], o);
      if k :| 0 <= k < |entries| && (entries[k].key == o || entries[k].value == o) && k > 0 {
        assert entries[1..][k - 1] == entries[k];
      }
    }
  }

  /** An object refers to another as an attribute's value, a list item, or the key or value of a dict entry. */
  lemma EdgeIs(cells: Cells, a: nat, b: nat)
    requires Alive(cells, a)
    ensures var obj := cells[a].value;
            Edge(cells, a, b) <==>
              || (exists k :: 0 <= k < |obj.attrs| && obj.attrs[k].value == Some(b))
              || (exists k :: 0 <= k < |obj.items| && obj.items[k] == Some(b))
              || (exists k :: 0 <= k < |obj.entries| && (obj.entries[k].key == Some(b) || obj.entries[k].value == Some(b)))
  {
    var obj := cells[a].value;
    AttrSlotsAre(obj.attrs, Some(b));
    EntrySlotsAre(obj.entries, Some(b));
  }

  /** Each slot that names an object is counted once. */
  lemma {:induction false} CountIs(slots: seq<Ref>, x: nat)
    ensures Count(slots, x) == multiset(slots)[Some(x)]
  {
    if slots != [] {
      CountIs(slots[1..], x);
      assert slots == [slots[0]] + slots[1..];
    }
  }

  /** The caller can get from some handle to object `i`. */
  ghost predicate Reachable(cells: Cells, handles: Handles, i: nat) {
    exists p :: IsPath(cells, handles, p) && p[|p| - 1] == i
  }

  /** `rank` grows along every reference, so references form no cycle. */
  ghost predicate Acyclic(cells: Cells, rank: nat -> nat) {
    forall a: nat, b: nat :: Edge(cells, a, b) ==> rank(a) < rank(b)
  }

  /** Whatever is reachable is alive: the caller never holds a dangling reference. */
  lemma {:induction false} PathIsAlive(cells: Cells, handles: Handles, p: seq<nat>)
    requires Counted(cells, handles) && IsPath(cells, handles, p)
    ensures Alive(cells, p[|p| - 1])
    decreases |p|
  {
    var last := p[|p| - 1];
    if |p| == 1 {
      assert RefsOf(cells, last) > 0;
    } else {
      assert Edge(cells, p[|p| - 2], last);
      SlotIsHeld(cells, p[|p| - 2], last);
      assert RefsOf(cells, last) > 0;
    }
  }

  lemma {:induction false} AliveIsReachable(cells: Cells, handles: Handles, rank: nat -> nat, i: nat)
    requires Counted(cells, handles) && Acyclic(cells, rank) && Alive(cells, i)
    ensures Reachable(cells, handles, i)
    decreases rank(i)
  {
    if handles(i) > 0 {
      assert IsPath(cells, handles, [i]);
    } else {
      assert RefsOf(cells, i) > 0;
      var a := HeldHas(cells, i);
      assert Edge(cells, a, i);
      AliveIsReachable(cells, handles, rank, a);
      var p :| IsPath(cells, handles, p) && p[|p| - 1] == a;
      var q := p + [i];
      forall k | 0 < k < |q| ensures Edge(cells, q[k - 1], q[k]) {
        if k < |p| { assert Edge(cells, p[k - 1], p[k]); }
      }
      assert IsPath(cells, handles, q) && q[|q| - 1] == i;
    }
  }

  /** In a counted graph without cycles the living objects are exactly the reachable ones. */
  lemma AliveIffReachable(cells: Cells, handles: Handles, rank: nat -> nat, i: nat)
    requires Counted(cells, handles) && Acyclic(cells, rank)
    ensures Alive(cells, i) <==> Reachable(cells, handles, i)
  {
    if Alive(cells, i) {
      AliveIsReachable(cells, handles, rank, i);
    }
    if Reachable(cells, handles, i) {
      var p :| IsPath(cells, handles, p) && p[|p| - 1] == i;
      PathIsAlive(cells, handles, p);
    }
  }

  // ---------------------------------------------------------------- what a release may change

  /** `b` is `a` with some objects released; the others keep their slots. */
  ghost predicate Released(a: Cells, b: Cells) {
    && |a| == |b|
    && forall i: nat :: Alive(b, i) ==> Alive(a, i) && SameSlots(a[i].value, b[i].value)
  }

  predicate SameSlots(a: Object, b: Object) {
    a.attrs == b.attrs && a.items == b.items && a.entries == b.entries
  }

  lemma {:induction false} PathSurvives(a: Cells, b: Cells, handles: Handles, p: seq<nat>)
    requires Released(a, b) && Counted(b, handles) && IsPath(a, handles, p)
    ensures IsPath(b, handles, p)
    decreases |p|
  {
    if |p| > 1 {
      var q := p[..|p| - 1];
      PathSurvives(a, b, handles, q);
      PathIsAlive(b, handles, q);
      forall k | 0 < k < |p| ensures Edge(b, p[k - 1], p[k]) {
        assert Edge(a, p[k - 1], p[k]);
        if k < |p| - 1 { assert Edge(b, q[k - 1], q[k]); }
        else { assert Alive(b, q[|q| - 1]); }
      }
    }
  }

  lemma PathWasThere(a: Cells, b: Cells, handles: Handles, p: seq<nat>)
    requires Released(a, b) && IsPath(b, handles, p)
    ensures IsPath(a, handles, p)
  {
    forall k | 0 < k < |p| ensures Edge(a, p[k - 1], p[k]) {
      assert Edge(b, p[k - 1], p[k]);
    }
  }

  /**
   A release that keeps the counts right frees exactly the objects that the remaining handles no
   longer reach in the graph as it was before.
   */
  lemma ReleaseIsExact(a: Cells, b: Cells, handles: Handles, rank: nat -> nat, i: nat)
    requires Released(a, b) && Counted(b, handles) && Acyclic(a, rank) && Alive(a, i)
    ensures Alive(b, i) <==> Reachable(a, handles, i)
  {
    assert Acyclic(b, rank) by {
      forall x: nat, y: nat | Edge(b, x, y) ensures rank(x) < rank(y) { assert Edge(a, x, y); }
    }
    AliveIffReachable(b, handles, rank, i);
    if Reachable(a, handles, i) {
      var p :| IsPath(a, handles, p) && p[|p| - 1] == i;
      PathSurvives(a, b, handles, p);
    }
    if Reachable(b, handles, i) {
      var p :| IsPath(b, handles, p) && p[|p| - 1] == i;
      PathWasThere(a, b, handles, p);
    }
  }
}
