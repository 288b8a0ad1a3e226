/**
 Reference counting of boxed objects, in runtime/sere_mod.c.

 `handles` is ghost state: the references the native module holds. Every operation keeps
 `Valid()`: each count is the number of handles plus the number of slots that name the object.
 */
module ReferenceCounts {
  import opened Wrappers
  import opened ObjectGraph

  /** `b` has one more handle than `a` for every slot. */
  ghost predicate Gains(a: Handles, b: Handles, slots: seq<Ref>) {
    forall x: nat :: b(x) == a(x) + Count(slots, x)
  }

  function Plus(handles: Handles, slots: seq<Ref>): Handles {
    (x: nat) => handles(x) + Count(slots, x)
  }

  function Minus(handles: Handles, slots: seq<Ref>): Handles {
    (x: nat) => handles(x) - Count(slots, x)
  }

  const Empty: Object := Object(1, [], [], [])

  class Store {
    var cells: Cells
    ghost var handles: Handles

    ghost predicate Valid()
      reads this
    {
      Counted(cells, handles)
    }

    constructor ()
      ensures Valid() && cells == [] && forall x: nat :: handles(x) == 0
    {
      cells, handles := [], (x: nat) => 0;
    }

    /** `makeObject`, `makeListShell`, `makeDictShell`: one reference, held by the caller. */
    method New() returns (id: nat)
      requires Valid()
      modifies this
      ensures Valid() && id == |old(cells)| && Gains(old(handles), handles, [Some(id)])
      ensures cells == old(cells) + [Some(Empty)]
    {
      id := |cells|;
      NewChange(cells, handles);
      hide Counted;
      cells, handles := cells + [Some(Empty)], Plus(handles, [Some(id)]);
    }

    /** `Sere_IncRef`. */
    method IncRef(o: Ref)
      requires Valid() && (o.Some? ==> Alive(cells, o.value))
      modifies this
      ensures Valid() && Gains(old(handles), handles, [o])
      ensures cells == if o.Some? then WithRefs(old(cells), o.value, 1) else old(cells)
    {
      CountsOfOne(o);
      if o.None? { return; }
      RefsChange(cells, handles, Plus(handles, [o]), o.value, 1);
      hide Counted;
      cells, handles := WithRefs(cells, o.value, 1), Plus(handles, [o]);
    }

    /** `Sere_DecRef`: gives up one handle and releases whatever that leaves without references. */
    method DecRef(o: Ref)
      requires Valid() && (o.Some? ==> handles(o.value) > 0)
      modifies this
      ensures Valid() && Gains(handles, old(handles), [o]) && (o.None? ==> cells == old(cells))
      ensures Released(old(cells), cells) && LiveCount(cells) <= LiveCount(old(cells))
      decreases LiveCount(cells), 0
    {
      CountsOfOne(o);
      if o.None? { return; }
      var id := o.value;
      assert RefsOf(cells, id) > 0;
      var obj := cells[id].value;
      ghost var less := Minus(handles, [o]);
      if obj.refs - 1 > 0 {
        RefsChange(cells, handles, less, id, -1);
        hide Counted, LiveCount, Released;
        cells, handles := WithRefs(cells, id, -1), less;
        return;
      }
      DropChange(cells, handles, id);
      LiveCountUpdate(cells, id, None);
      Drop(id);
      ghost var dropped := cells;
      ReleaseAll(obj.Slots());
      ReleasedTrans(old(cells), dropped, cells);
    }

    /** Frees an object that only the given-up handle kept alive. */
    method Drop(id: nat)
      requires Valid() && Alive(cells, id) && cells[id].value.refs == 1 && handles(id) > 0
      modifies this
      ensures Valid() && cells == old(cells)[id := None]
      ensures Gains(Minus(old(handles), [Some(id)]), handles, old(cells)[id].value.Slots())
    {
      DropChange(cells, handles, id);
      handles := Plus(Minus(handles, [Some(id)]), cells[id].value.Slots());
      hide Counted;
      cells := cells[id := None];
    }

    /** Releases one reference for every slot, in order. */
    method ReleaseAll(slots: seq<Ref>)
      requires Valid() && forall x: nat :: Count(slots, x) <= handles(x)
      modifies this
      ensures Valid() && Gains(handles, old(handles), slots) && (AllNone(slots) ==> cells == old(cells))
      ensures Released(old(cells), cells) && LiveCount(cells) <= LiveCount(old(cells))
      decreases LiveCount(cells), |slots|
    {
      var k := 0;
      assert slots[..0] == [];
      hide Counted, LiveCount, Released;
      while k < |slots|
        invariant 0 <= k <= |slots| && Valid()
        invariant Gains(handles, old(handles), slots[..k]) && (AllNone(slots) ==> cells == old(cells))
        invariant Released(old(cells), cells) && LiveCount(cells) <= LiveCount(old(cells))
      {
        CountStep(slots, k);
        ghost var before := cells;
        DecRef(slots[k]);
        ReleasedTrans(old(cells), before, cells);
        k := k + 1;
      }
      assert slots[..k] == slots;
    }

    /**
     Writes the fields of object `id`. The references it `gained` were the caller's before, and
     the references it `lost` are the caller's to release afterwards.
     */
    method Write(id: nat, obj: Object, ghost gained: seq<Ref>, ghost lost: seq<Ref>)
      requires Valid() && Alive(cells, id) && obj.refs == cells[id].value.refs
      requires forall x: nat :: Count(gained, x) <= handles(x)
      requires forall x: nat ::
                 Count(obj.Slots(), x) + Count(lost, x) == Count(cells[id].value.Slots(), x) + Count(gained, x)
      modifies this
      ensures Valid() && cells == old(cells)[id := Some(obj)]
      ensures forall x: nat :: handles(x) == old(handles)(x) - Count(gained, x) + Count(lost, x)
    {
      ghost var next := Plus(Minus(handles, gained), lost);
      WriteChange(cells, handles, next, id, obj);
      hide Counted;
      cells, handles := cells[id := Some(obj)], next;
    }

    /** Takes one more reference to everything the slots name. */
    method IncRefAll(slots: seq<Ref>)
      requires Valid() && forall o :: o in slots && o.Some? ==> Alive(cells, o.value)
      modifies this
      ensures Valid() && Gains(old(handles), handles, slots) && Recounted(old(cells), cells)
    {
      var k := 0;
      assert slots[..0] == [];
      hide Counted;
      while k < |slots|
        invariant 0 <= k <= |slots| && Valid()
        invariant Gains(old(handles), handles, slots[..k]) && Recounted(old(cells), cells)
      {
        CountStep(slots, k);
        assert slots[k] in slots;
        IncRef(slots[k]);
        k := k + 1;
      }
      assert slots[..k] == slots;
    }

    /**
     The shape of every operation that changes what object `id` refers to: new references are taken
     before the `lost` ones are released. The `leaked` ones are dropped without a release, so that
     the counts are right only if these references are counted as the caller's.
     */
    method Replace(id: nat, obj: Object, gained: seq<Ref>, lost: seq<Ref>, leaked: seq<Ref>)
      requires Valid() && Alive(cells, id) && (AllNone(lost) || Reachable(cells, handles, id))
      requires forall o :: o in gained && o.Some? ==> Alive(cells, o.value)
      requires Balances(cells[id].value, obj, gained, lost, leaked)
      modifies this
      ensures forall x: nat :: handles(x) == old(handles)(x)
      ensures Counted(cells, Plus(handles, leaked)) && Edited(old(cells), cells, id, obj)
    {
      hide Counted, Reachable, Released, LiveCount, Edited;
      ghost var path := if AllNone(lost) then [] else PathTo(cells, handles, id);
      ghost var mine := handles;
      HandlesAreNat(cells, handles);
      IncRefAll(gained);
      ghost var counted := cells;
      BothLost(lost, leaked);
      Write(id, obj.(refs := cells[id].value.refs), gained, lost + leaked);
      ghost var written := cells;
      ReleaseAll(lost);
      EditedChain(old(cells), counted, written, cells, mine, handles, path, AllNone(lost), id, obj);
      SameCounted(cells, handles, Plus(mine, leaked));
      handles := mine;
    }

    /** The same without a leak. */
    method Exchange(id: nat, obj: Object, gained: seq<Ref>, lost: seq<Ref>)
      requires Valid() && Alive(cells, id) && (AllNone(lost) || Reachable(cells, handles, id))
      requires forall o :: o in gained && o.Some? ==> Alive(cells, o.value)
      requires Exchanges(cells[id].value, obj, gained, lost)
      modifies this
      ensures Valid() && forall x: nat :: handles(x) == old(handles)(x)
      ensures Edited(old(cells), cells, id, obj)
    {
      hide Counted, Edited, Reachable;
      Replace(id, obj, gained, lost, []);
      SameCounted(cells, Plus(handles, []), handles);
    }
  }

  predicate AllNone(slots: seq<Ref>) { forall o :: o in slots ==> o.None? }

  /** What `b` names, what was released and what leaked is what `a` named and what was taken. */
  ghost predicate Balances(a: Object, b: Object, gained: seq<Ref>, lost: seq<Ref>, leaked: seq<Ref>) {
    forall x: nat ::
      Count(b.Slots(), x) + Count(lost, x) + Count(leaked, x) == Count(a.Slots(), x) + Count(gained, x)
  }

  ghost predicate Exchanges(a: Object, b: Object, gained: seq<Ref>, lost: seq<Ref>) {
    forall x: nat :: Count(b.Slots(), x) + Count(lost, x) == Count(a.Slots(), x) + Count(gained, x)
  }

  lemma ExchangesSame(a: Object, a': Object, b: Object, gained: seq<Ref>, lost: seq<Ref>)
    requires Exchanges(a, b, gained, lost) && SameSlots(a, a')
    ensures Exchanges(a', b, gained, lost)
  {
    assert a.Slots() == a'.Slots();
  }

  lemma HandlesAreNat(cells: Cells, handles: Handles)
    requires Counted(cells, handles)
    ensures forall x: nat :: handles(x) >= 0
  {}

  lemma BothLost(lost: seq<Ref>, leaked: seq<Ref>)
    ensures forall x: nat :: Count(lost + leaked, x) == Count(lost, x) + Count(leaked, x)
  {
    forall x: nat ensures Count(lost + leaked, x) == Count(lost, x) + Count(leaked, x) {
      CountConcat(lost, leaked, x);
    }
  }

  lemma SameCounted(cells: Cells, a: Handles, b: Handles)
    requires forall x: nat :: a(x) == b(x)
    ensures Counted(cells, a) <==> Counted(cells, b)
  {}

  /** Counts that are right with some leaked references are wrong without them. */
  lemma LeakIsExact(cells: Cells, handles: Handles, leaked: seq<Ref>)
    requires Counted(cells, Plus(handles, leaked))
    ensures Counted(cells, handles) <==> AllNone(leaked)
  {
    var more := Plus(handles, leaked);
    if AllNone(leaked) {
      forall x: nat ensures more(x) == handles(x) { CountHas(leaked, x); }
      SameCounted(cells, more, handles);
    } else {
      var o :| o in leaked && o.Some?;
      CountHas(leaked, o.value);
      assert RefsOf(cells, o.value) == more(o.value) + Held(cells, o.value);
    }
  }

  // ---------------------------------------------------------------- what keeps an edited object alive

  /** `b` is `a` up to the counts. */
  ghost predicate Recounted(a: Cells, b: Cells) {
    && |a| == |b|
    && forall i: nat :: (Alive(b, i) <==> Alive(a, i)) && (Alive(b, i) ==> SameSlots(a[i].value, b[i].value))
  }

  ghost predicate IsPathTo(cells: Cells, handles: Handles, p: seq<nat>, id: nat) {
    IsPath(cells, handles, p) && p[|p| - 1] == id && forall k :: 0 <= k < |p| - 1 ==> p[k] != id
  }

  /** A path to an object can be cut where it first meets the object. */
  lemma {:induction false} CutPath(cells: Cells, handles: Handles, p: seq<nat>, id: nat) returns (q: seq<nat>)
    requires IsPath(cells, handles, p) && p[|p| - 1] == id
    ensures IsPathTo(cells, handles, q, id)
    decreases |p|
  {
    if k :| 0 <= k < |p| - 1 && p[k] == id {
      q := CutPath(cells, handles, p[..k + 1], id);
    } else {
      q := p;
    }
  }

  ghost function PathTo(cells: Cells, handles: Handles, id: nat): (q: seq<nat>)
    requires Reachable(cells, handles, id)
    ensures IsPathTo(cells, handles, q, id)
  {
    var p :| IsPath(cells, handles, p) && p[|p| - 1] == id;
    assert exists q :: IsPathTo(cells, handles, q, id) by {
      var q := CutPath(cells, handles, p, id);
    }
    var q :| IsPathTo(cells, handles, q, id);
    q
  }

  /** A path to an object does not need what the object itself refers to. */
  lemma PathIgnoresTarget(a: Cells, b: Cells, mine: Handles, handles: Handles, p: seq<nat>, id: nat)
    requires IsPathTo(a, mine, p, id) && forall x: nat :: mine(x) <= handles(x)
    requires forall i: nat :: i != id && Alive(a, i) ==> Alive(b, i) && SameSlots(a[i].value, b[i].value)
    ensures IsPath(b, handles, p)
  {
    forall k | 0 < k < |p| ensures Edge(b, p[k - 1], p[k]) { assert Edge(a, p[k - 1], p[k]); }
  }

  lemma EditedChain(a: Cells, b: Cells, c: Cells, d: Cells, mine: Handles, handles: Handles, path: seq<nat>,
                    same: bool, id: nat, obj: Object)
    requires Recounted(a, b) && Alive(b, id) && |c| == |b| && Released(c, d)
    requires Alive(c, id) && SameSlots(c[id].value, obj) && forall i: nat :: i < |b| && i != id ==> c[i] == b[i]
    requires Counted(d, handles) && forall x: nat :: mine(x) <= handles(x)
    requires if same then d == c else IsPathTo(a, mine, path, id)
    ensures Edited(a, d, id, obj)
  {
    if !same {
      PathIgnoresTarget(a, c, mine, handles, path, id);
      PathSurvives(c, d, handles, path);
      PathIsAlive(d, handles, path);
    }
  }

  lemma StillReachable(a: Cells, b: Cells, mine: Handles, handles: Handles, id: nat)
    requires Reachable(a, mine, id) && Recounted(a, b) && forall x: nat :: mine(x) <= handles(x)
    ensures Reachable(b, handles, id)
  {
    PathIgnoresTarget(a, b, mine, handles, PathTo(a, mine, id), id);
  }

  lemma WriteChange(cells: Cells, handles: Handles, next: Handles, id: nat, obj: Object)
    requires Counted(cells, handles) && Alive(cells, id) && obj.refs == cells[id].value.refs
    requires forall x: nat :: next(x) >= 0 &&
               next(x) + Count(obj.Slots(), x) == handles(x) + Count(cells[id].value.Slots(), x)
    ensures Counted(cells[id := Some(obj)], next)
  {
    var after := cells[id := Some(obj)];
    forall x: nat ensures RefsOf(after, x) == next(x) + Held(after, x) {
      HeldUpdate(cells, id, Some(obj), x);
      assert RefsOf(cells, x) == handles(x) + Held(cells, x);
    }
  }

  /** `b` is `a` with the fields of object `id` replaced by those of `obj` and some objects freed. */
  ghost predicate Edited(a: Cells, b: Cells, id: nat, obj: Object) {
    && |a| == |b| && Alive(b, id) && SameSlots(b[id].value, obj)
    && forall i: nat :: i != id && Alive(b, i) ==> Alive(a, i) && SameSlots(a[i].value, b[i].value)
  }

  /** The cells with the count of object `id` changed by `d`. */
  function WithRefs(cells: Cells, id: nat, d: int): Cells
    requires Alive(cells, id)
  {
    cells[id := Some(cells[id].value.(refs := cells[id].value.refs + d))]
  }

  lemma CountStep(slots: seq<Ref>, k: nat)
    requires k < |slots|
    ensures forall x: nat :: Count(slots[..k + 1], x) == Count(slots[..k], x) + Count([slots[k]], x)
    ensures forall x: nat :: Count(slots, x) >= Count(slots[..k], x) + Count([slots[k]], x)
  {
    assert slots[..k + 1] == slots[..k] + [slots[k]];
    assert slots == slots[..k + 1] + slots[k + 1..];
    forall x: nat
      ensures Count(slots[..k + 1], x) == Count(slots[..k], x) + Count([slots[k]], x)
      ensures Count(slots, x) >= Count(slots[..k], x) + Count([slots[k]], x)
    {
      CountConcat(slots[..k], [slots[k]], x);
      CountConcat(slots[..k + 1], slots[k + 1..], x);
    }
  }

  lemma ReleasedTrans(a: Cells, b: Cells, c: Cells)
    requires Released(a, b) && Released(b, c)
    ensures Released(a, c)
  {}

  lemma CountOne(o: Ref, x: nat)
    ensures Count([o], x) == if o == Some(x) then 1 else 0
  {
    var one: seq<Ref> := [o];
    assert |one[1..]| == 0;
  }

  lemma CountsOfOne(o: Ref)
    ensures forall x: nat :: Count([o], x) == if o == Some(x) then 1 else 0
  {
    forall x: nat ensures Count([o], x) == if o == Some(x) then 1 else 0 { CountOne(o, x); }
  }

  lemma NewChange(cells: Cells, handles: Handles)
    requires Counted(cells, handles)
    ensures Counted(cells + [Some(Empty)], Plus(handles, [Some(|cells|)]))
  {
    var id := |cells|;
    var after := cells + [Some(Empty)];
    assert after[..id] == cells;
    assert RefsOf(cells, id) == 0;
    forall x: nat ensures RefsOf(after, x) == Plus(handles, [Some(id)])(x) + Held(after, x) {
      assert RefsOf(cells, x) == handles(x) + Held(cells, x);
      CountOne(Some(id), x);
      assert Empty.Slots() == [];
    }
  }

  lemma RefsChange(cells: Cells, handles: Handles, next: Handles, id: nat, d: int)
    requires Counted(cells, handles) && Alive(cells, id) && cells[id].value.refs + d > 0
    requires d == 1 || (d == -1 && handles(id) > 0)
    requires if d == 1 then Gains(handles, next, [Some(id)]) else Gains(next, handles, [Some(id)])
    ensures Counted(WithRefs(cells, id, d), next) && Released(cells, WithRefs(cells, id, d))
    ensures LiveCount(WithRefs(cells, id, d)) == LiveCount(cells)
  {
    var after := WithRefs(cells, id, d);
    LiveCountUpdate(cells, id, after[id]);
    assert after[id].value.Slots() == cells[id].value.Slots();
    forall x: nat ensures next(x) >= 0 && RefsOf(after, x) == next(x) + Held(after, x) {
      HeldUpdate(cells, id, after[id], x);
      CountOne(Some(id), x);
      assert RefsOf(cells, x) == handles(x) + Held(cells, x);
    }
  }

  /** Freeing an object turns the references it held into references to be given up. */
  lemma DropChange(cells: Cells, handles: Handles, id: nat)
    requires Counted(cells, handles) && Alive(cells, id) && cells[id].value.refs == 1 && handles(id) > 0
    ensures Counted(cells[id := None], Plus(Minus(handles, [Some(id)]), cells[id].value.Slots()))
    ensures Released(cells, cells[id := None])
  {
    var after := cells[id := None];
    var next := Plus(Minus(handles, [Some(id)]), cells[id].value.Slots());
    assert Held(cells, id) == 0 by { assert RefsOf(cells, id) == handles(id) + Held(cells, id); }
    forall x: nat ensures next(x) >= 0 && RefsOf(after, x) == next(x) + Held(after, x) {
      HeldUpdate(cells, id, None, x);
      CountOne(Some(id), x);
      assert RefsOf(cells, x) == handles(x) + Held(cells, x);
    }
  }
}
