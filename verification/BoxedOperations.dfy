/**
 The list, dict and attribute operations of runtime/sere_mod.c on counted objects.

 Each operation changes the slots of one object by replacing a stretch of its slots. The caller need
 not hold the object itself: where references are released it must be able to reach it, which in a
 graph without cycles every living object is, and where none is the object must only be alive.
 `Edited` says what the object refers to afterwards and that every other survivor keeps its slots;
 the handles do not change unless the contract says so.
 */
module BoxedOperations {
  import opened Wrappers
  import opened ObjectGraph
  import opened ReferenceCounts

  // ---------------------------------------------------------------- slot arithmetic

  lemma Splice(p: seq<Ref>, m: seq<Ref>, n: seq<Ref>, s: seq<Ref>)
    ensures forall x: nat :: Count(p + n + s, x) + Count(m, x) == Count(p + m + s, x) + Count(n, x)
  {
    forall x: nat ensures Count(p + n + s, x) + Count(m, x) == Count(p + m + s, x) + Count(n, x) {
      CountConcat(p + n, s, x);
      CountConcat(p, n, x);
      CountConcat(p + m, s, x);
      CountConcat(p, m, x);
    }
  }

  /** Replacing the stretch `m` of the items by `n`. */
  lemma SpliceItems(obj: Object, a: seq<Ref>, m: seq<Ref>, n: seq<Ref>, b: seq<Ref>)
    requires obj.items == a + m + b
    ensures Exchanges(obj, obj.(items := a + n + b), n, m)
  {
    var p, s := AttrSlots(obj.attrs) + a, b + EntrySlots(obj.entries);
    Splice(p, m, n, s);
    assert obj.Slots() == p + m + s;
    assert obj.(items := a + n + b).Slots() == p + n + s;
  }

  /** The object without item `at`. */
  function WithoutItem(obj: Object, at: nat): Object
    requires at < |obj.items|
  {
    obj.(items := obj.items[..at] + obj.items[at + 1..])
  }

  lemma ItemLeaves(obj: Object, at: nat)
    requires at < |obj.items|
    ensures Exchanges(obj, WithoutItem(obj, at), [], [obj.items[at]])
  {
    SpliceItems(obj, obj.items[..at], [obj.items[at]], [], obj.items[at + 1..]);
    assert obj.items == obj.items[..at] + [obj.items[at]] + obj.items[at + 1..];
    assert obj.items[..at] + [] + obj.items[at + 1..] == obj.items[..at] + obj.items[at + 1..];
  }

  lemma {:induction false} AttrSlotsConcat(a: seq<Attr>, b: seq<Attr>)
    ensures AttrSlots(a + b) == AttrSlots(a) + AttrSlots(b)
  {
    if a == [] {
      assert a + b == b;
    } else {
      assert (a + b)[1..] == a[1..] + b;
      AttrSlotsConcat(a[1..], b);
    }
  }

  lemma {:induction false} EntrySlotsConcat(a: seq<Entry>, b: seq<Entry>)
    ensures EntrySlots(a + b) == EntrySlots(a) + EntrySlots(b)
  {
    if a == [] {
      assert a + b == b;
    } else {
      assert (a + b)[1..] == a[1..] + b;
      EntrySlotsConcat(a[1..], b);
    }
  }

  lemma AttrSlotsSplit(a: seq<Attr>, m: seq<Attr>, b: seq<Attr>, tail: seq<Ref>)
    ensures AttrSlots(a + m + b) + tail == AttrSlots(a) + AttrSlots(m) + (AttrSlots(b) + tail)
  {
    AttrSlotsConcat(a + m, b);
    AttrSlotsConcat(a, m);
  }

  lemma EntrySlotsSplit(a: seq<Entry>, m: seq<Entry>, b: seq<Entry>, front: seq<Ref>)
    ensures front + EntrySlots(a + m + b) == (front + EntrySlots(a)) + EntrySlots(m) + EntrySlots(b)
  {
    EntrySlotsConcat(a + m, b);
    EntrySlotsConcat(a, m);
  }

  lemma SpliceAttrs(obj: Object, a: seq<Attr>, m: seq<Attr>, n: seq<Attr>, b: seq<Attr>)
    requires obj.attrs == a + m + b
    ensures Exchanges(obj, obj.(attrs := a + n + b), AttrSlots(n), AttrSlots(m))
  {
    var tail := obj.items + EntrySlots(obj.entries);
    AttrSlotsSplit(a, m, b, tail);
    AttrSlotsSplit(a, n, b, tail);
    Splice(AttrSlots(a), AttrSlots(m), AttrSlots(n), AttrSlots(b) + tail);
    hide AttrSlots, EntrySlots, Count;
    assert obj.Slots() == AttrSlots(a + m + b) + tail;
    assert obj.(attrs := a + n + b).Slots() == AttrSlots(a + n + b) + tail;
  }

  lemma SpliceEntries(obj: Object, a: seq<Entry>, m: seq<Entry>, n: seq<Entry>, b: seq<Entry>)
    requires obj.entries == a + m + b
    ensures Exchanges(obj, obj.(entries := a + n + b), EntrySlots(n), EntrySlots(m))
  {
    var front := AttrSlots(obj.attrs) + obj.items;
    EntrySlotsSplit(a, m, b, front);
    EntrySlotsSplit(a, n, b, front);
    Splice(front + EntrySlots(a), EntrySlots(m), EntrySlots(n), EntrySlots(b));
  }

  /**
   `Sere_DecRef` as a module calls it: without cycles it frees exactly what the remaining handles
   no longer reach in the graph as it was.
   */
  method DropHandle(st: Store, id: nat, ghost rank: nat -> nat)
    requires st.Valid() && st.handles(id) > 0 && Acyclic(st.cells, rank)
    modifies st
    ensures st.Valid() && Gains(st.handles, old(st.handles), [Some(id)])
    ensures Released(old(st.cells), st.cells)
    ensures forall i: nat :: Alive(old(st.cells), i) ==>
              (Alive(st.cells, i) <==> Reachable(old(st.cells), st.handles, i))
  {
    st.DecRef(Some(id));
    forall i: nat | Alive(old(st.cells), i)
      ensures Alive(st.cells, i) <==> Reachable(old(st.cells), st.handles, i)
    {
      ReleaseIsExact(old(st.cells), st.cells, st.handles, rank, i);
    }
  }

  /** Once the caller holds nothing, a graph without cycles is completely freed. */
  lemma NothingLeaks(cells: Cells, handles: Handles, rank: nat -> nat, i: nat)
    requires Counted(cells, handles) && Acyclic(cells, rank) && forall x: nat :: handles(x) == 0
    ensures !Alive(cells, i)
  {
    AliveIffReachable(cells, handles, rank, i);
  }

  // ---------------------------------------------------------------- lists

  /** The position a possibly negative index stands for, if it is in range. */
  function Resolve(index: int, length: nat): Option<nat> {
    var resolved := if index < 0 then index + length else index;
    if 0 <= resolved < length then Some(resolved) else None
  }

  predicate Borrowed(cells: Cells, o: Ref) { o.Some? ==> Alive(cells, o.value) }

  ghost predicate SameHandles(a: Handles, b: Handles) { forall x: nat :: a(x) == b(x) }

  /** `Sere_List_Append`. */
  method ListAppend(st: Store, list: nat, item: Ref)
    requires st.Valid() && Alive(st.cells, list) && Borrowed(st.cells, item)
    modifies st
    ensures st.Valid() && SameHandles(old(st.handles), st.handles)
    ensures var was := old(st.cells)[list].value;
            Edited(old(st.cells), st.cells, list, was.(items := was.items + [item]))
  {
    var obj := st.cells[list].value;
    SpliceItems(obj, obj.items, [], [item], []);
    assert obj.items + [item] + [] == obj.items + [item] && obj.items == obj.items + [] + [];
    st.Exchange(list, obj.(items := obj.items + [item]), [item], []);
  }

  /** `Sere_List_Set`: a bad index changes nothing. */
  method ListSet(st: Store, list: nat, index: int, item: Ref) returns (ok: bool)
    requires st.Valid() && Alive(st.cells, list) && Borrowed(st.cells, item) && Reachable(st.cells, st.handles, list)
    modifies st
    ensures st.Valid() && SameHandles(old(st.handles), st.handles)
    ensures ok == Resolve(index, |old(st.cells)[list].value.items|).Some?
    ensures !ok ==> st.cells == old(st.cells)
    ensures ok ==>
              var was := old(st.cells)[list].value;
              Edited(old(st.cells), st.cells, list,
                     was.(items := was.items[Resolve(index, |was.items|).value := item]))
    ensures var items := old(st.cells)[list].value.items;
            && (ok <==> -|items| <= index < |items|)
            && (ok ==> st.cells[list].value.items == items[if index < 0 then |items| + index else index := item])
  {
    var obj := st.cells[list].value;
    var length := |obj.items|;
    var at := if index < 0 then index + length else index;
    if at < 0 || at >= length { return false; }
    var previous := obj.items[at];
    SpliceItems(obj, obj.items[..at], [previous], [item], obj.items[at + 1..]);
    assert obj.items == obj.items[..at] + [previous] + obj.items[at + 1..];
    assert obj.items[at := item] == obj.items[..at] + [item] + obj.items[at + 1..];
    st.Exchange(list, obj.(items := obj.items[at := item]), [item], [previous]);
    return true;
  }

  /** `Sere_List_Insert`: a negative index is refused. */
  method ListInsert(st: Store, list: nat, index: int, item: Ref) returns (ok: bool)
    requires st.Valid() && Alive(st.cells, list) && Borrowed(st.cells, item)
    modifies st
    ensures st.Valid() && SameHandles(old(st.handles), st.handles)
    ensures ok == (0 <= index <= |old(st.cells)[list].value.items|)
    ensures !ok ==> st.cells == old(st.cells)
    ensures ok ==>
              var was := old(st.cells)[list].value;
              Edited(old(st.cells), st.cells, list,
                     was.(items := was.items[..index] + [item] + was.items[index..]))
  {
    var obj := st.cells[list].value;
    if index < 0 || index > |obj.items| { return false; }
    SpliceItems(obj, obj.items[..index], [], [item], obj.items[index..]);
    assert obj.items == obj.items[..index] + [] + obj.items[index..];
    st.Exchange(list, obj.(items := obj.items[..index] + [item] + obj.items[index..]), [item], []);
    return true;
  }

  /** `Sere_List_RemoveAt`: refuses a bad index and also a slot that holds no object. */
  method ListRemoveAt(st: Store, list: nat, index: int) returns (ok: bool)
    requires st.Valid() && Alive(st.cells, list) && Reachable(st.cells, st.handles, list)
    modifies st
    ensures st.Valid() && SameHandles(old(st.handles), st.handles)
    ensures var items := old(st.cells)[list].value.items; var at := Resolve(index, |items|);
            ok == (at.Some? && items[at.value].Some?)
    ensures !ok ==> st.cells == old(st.cells)
    ensures ok ==>
              var was := old(st.cells)[list].value; var at := Resolve(index, |was.items|).value;
              Edited(old(st.cells), st.cells, list, WithoutItem(was, at))
    ensures var items := old(st.cells)[list].value.items; var at := if index < 0 then |items| + index else index;
            && (ok <==> 0 <= at < |items| && items[at].Some?)
            && (ok ==> st.cells[list].value.items == items[..at] + items[at + 1..])
  {
    var obj := st.cells[list].value;
    var length := |obj.items|;
    var at := if index < 0 then index + length else index;
    if at < 0 || at >= length || obj.items[at].None? { return false; }
    var item := obj.items[at];
    hide Exchanges, Counted, Reachable, Edited, WithoutItem;
    ItemLeaves(obj, at);
    st.Exchange(list, WithoutItem(obj, at), [], [item]);
    return true;
  }

  /** `Sere_List_Pop`: any negative index means the last item; the caller gets the reference. */
  method ListPop(st: Store, list: nat, index: int) returns (item: Ref)
    requires st.Valid() && Alive(st.cells, list) && Reachable(st.cells, st.handles, list)
    modifies st
    ensures st.Valid() && Gains(old(st.handles), st.handles, [item])
    ensures var items := old(st.cells)[list].value.items; var at := if index < 0 then |items| - 1 else index;
            item == if 0 <= at < |items| then items[at] else None
    ensures item.None? ==> st.cells == old(st.cells)
    ensures item.Some? ==>
              var was := old(st.cells)[list].value; var at := if index < 0 then |was.items| - 1 else index;
              Edited(old(st.cells), st.cells, list, WithoutItem(was, at))
  {
    hide Counted, Reachable, Edited, Count, WithoutItem;
    var obj := st.cells[list].value;
    CountsOfOne(None);
    if |obj.items| == 0 { return None; }
    var at := if index < 0 then |obj.items| - 1 else index;
    if at >= |obj.items| || obj.items[at].None? { return None; }
    item := obj.items[at];
    TakeOut(st, list, at);
  }

  /** Takes a reference to an item for the caller and takes the item off the list. */
  method TakeOut(st: Store, list: nat, at: nat)
    requires st.Valid() && Alive(st.cells, list) && Reachable(st.cells, st.handles, list)
    requires at < |st.cells[list].value.items|
    modifies st
    ensures st.Valid() && Gains(old(st.handles), st.handles, [old(st.cells)[list].value.items[at]])
    ensures Edited(old(st.cells), st.cells, list, WithoutItem(old(st.cells)[list].value, at))
  {
    hide Exchanges, Count, Counted, Reachable, Edited, WithoutItem;
    var obj := st.cells[list].value;
    var item := obj.items[at];
    ItemIsAlive(st.cells, st.handles, list, at);
    ItemLeaves(obj, at);
    st.IncRef(item);
    ghost var counted := st.cells;
    ExchangesSame(obj, counted[list].value, WithoutItem(obj, at), [], [item]);
    StillReachable(old(st.cells), counted, old(st.handles), st.handles, list);
    st.Exchange(list, WithoutItem(obj, at), [], [item]);
    RecountThenEdit(old(st.cells), counted, st.cells, list, WithoutItem(obj, at));
  }

  /** `Sere_List_Clear`. */
  method ListClear(st: Store, list: nat)
    requires st.Valid() && Alive(st.cells, list) && Reachable(st.cells, st.handles, list)
    modifies st
    ensures st.Valid() && SameHandles(old(st.handles), st.handles)
    ensures Edited(old(st.cells), st.cells, list, old(st.cells)[list].value.(items := []))
  {
    var obj := st.cells[list].value;
    SpliceItems(obj, [], obj.items, [], []);
    assert obj.items == [] + obj.items + [];
    st.Exchange(list, obj.(items := []), [], obj.items);
  }

  // ---------------------------------------------------------------- attributes

  predicate Has(attrs: seq<Attr>, name: string) { exists k :: 0 <= k < |attrs| && attrs[k].name == name }

  /** The first attribute with the name, or the number of attributes. */
  function FirstNamed(attrs: seq<Attr>, name: string): (k: nat)
    ensures k <= |attrs| && (k < |attrs| ==> attrs[k].name == name)
    ensures forall j :: 0 <= j < k ==> attrs[j].name != name
  {
    if attrs == [] || attrs[0].name == name then 0 else 1 + FirstNamed(attrs[1..], name)
  }

  lemma {:induction false} FirstNamedIs(attrs: seq<Attr>, name: string, k: nat)
    requires k <= |attrs| && (k < |attrs| ==> attrs[k].name == name)
    requires forall j :: 0 <= j < k ==> attrs[j].name != name
    ensures FirstNamed(attrs, name) == k
    decreases k
  {
    if k > 0 { FirstNamedIs(attrs[1..], name, k - 1); }
  }

  /** What `Sere_GetAttr` finds, if there is an attribute with the name. */
  function AttrFound(attrs: seq<Attr>, name: string): Option<Ref> {
    var k := FirstNamed(attrs, name);
    if k < |attrs| then Some(attrs[k].value) else None
  }

  /**
   What setting an attribute means for later lookups: the name has the value, every other name has
   what it had, and the attributes keep their order with a new one last.
   */
  ghost predicate SetsAttr(a: seq<Attr>, now: seq<Attr>, name: string, value: Ref) {
    && AttrFound(now, name) == Some(value)
    && (forall other: string :: other != name ==> AttrFound(now, other) == AttrFound(a, other))
    && (forall j :: 0 <= j < |a| && j < |now| ==> now[j].name == a[j].name)
    && |now| == |a| + (if FirstNamed(a, name) < |a| then 0 else 1)
  }

  lemma WithAttrSets(attrs: seq<Attr>, name: string, value: Ref)
    ensures SetsAttr(attrs, WithAttr(attrs, name, value), name, value)
  {
    var k := FirstNamed(attrs, name);
    hide FirstNamed, WithAttr, SetsAttr;
    if k < |attrs| {
      WithAttrFound(attrs, name, value, k);
      var now := attrs[k := Attr(name, value)];
      assert attrs[..k] + [Attr(name, value)] + attrs[k + 1..] == now;
      ChangedAttr(attrs, name, value, k);
    } else {
      WithAttrMissing(attrs, name, value);
      AddedAttr(attrs, name, value);
    }
  }

  lemma ChangedAttr(attrs: seq<Attr>, name: string, value: Ref, k: nat)
    requires k < |attrs| && k == FirstNamed(attrs, name)
    ensures SetsAttr(attrs, attrs[k := Attr(name, value)], name, value)
  {
    hide FirstNamed;
    var now := attrs[k := Attr(name, value)];
    FirstNamedIs(now, name, k);
    forall other: string | other != name ensures AttrFound(now, other) == AttrFound(attrs, other) {
      FirstNamedIs(now, other, FirstNamed(attrs, other));
    }
  }

  lemma AddedAttr(attrs: seq<Attr>, name: string, value: Ref)
    requires FirstNamed(attrs, name) == |attrs|
    ensures SetsAttr(attrs, attrs + [Attr(name, value)], name, value)
  {
    hide FirstNamed;
    var now := attrs + [Attr(name, value)];
    FirstNamedIs(now, name, |attrs|);
    forall other: string | other != name ensures AttrFound(now, other) == AttrFound(attrs, other) {
      var j := FirstNamed(attrs, other);
      FirstNamedIs(now, other, if j < |attrs| then j else |now|);
    }
  }

  /** What deleting an attribute means for later lookups of other names. */
  lemma WithoutAttrKeeps(obj: Object, k: nat, other: string)
    requires k < |obj.attrs| && other != obj.attrs[k].name
    ensures AttrFound(WithoutAttr(obj, k).attrs, other) == AttrFound(obj.attrs, other)
  {
    var a, now := obj.attrs, WithoutAttr(obj, k).attrs;
    var j := FirstNamed(a, other);
    hide FirstNamed;
    assert forall i :: 0 <= i < |now| ==> now[i] == a[if i < k then i else i + 1];
    FirstNamedIs(now, other, if j < k then j else if j < |a| then j - 1 else |now|);
  }

  /** `findAttr`: the first attribute with the name. */
  method FindAttr(attrs: seq<Attr>, name: string) returns (at: Option<nat>)
    ensures at.None? ==> forall k :: 0 <= k < |attrs| ==> attrs[k].name != name
    ensures at.Some? ==> at.value < |attrs| && attrs[at.value].name == name
    ensures at.Some? ==> forall k :: 0 <= k < at.value ==> attrs[k].name != name
  {
    var k := 0;
    while k < |attrs|
      invariant 0 <= k <= |attrs| && forall j :: 0 <= j < k ==> attrs[j].name != name
    {
      if attrs[k].name == name { return Some(k); }
      k := k + 1;
    }
    return None;
  }

  /** The attributes after `name` is set: the first one with the name changes, or one is added last. */
  function WithAttr(attrs: seq<Attr>, name: string, value: Ref): seq<Attr> {
    if attrs == [] then [Attr(name, value)]
    else if attrs[0].name == name then [Attr(name, value)] + attrs[1..]
    else [attrs[0]] + WithAttr(attrs[1..], name, value)
  }

  lemma {:induction false} WithAttrFound(attrs: seq<Attr>, name: string, value: Ref, k: nat)
    requires k < |attrs| && attrs[k].name == name && forall j :: 0 <= j < k ==> attrs[j].name != name
    ensures WithAttr(attrs, name, value) == attrs[..k] + [Attr(name, value)] + attrs[k + 1..]
    decreases k
  {
    if k > 0 { WithAttrFound(attrs[1..], name, value, k - 1); }
  }

  lemma {:induction false} WithAttrMissing(attrs: seq<Attr>, name: string, value: Ref)
    requires forall j :: 0 <= j < |attrs| ==> attrs[j].name != name
    ensures WithAttr(attrs, name, value) == attrs + [Attr(name, value)]
  {
    if attrs != [] { WithAttrMissing(attrs[1..], name, value); }
  }

  /** `Sere_SetAttr`. */
  method SetAttr(st: Store, id: nat, name: string, value: Ref)
    requires st.Valid() && Alive(st.cells, id) && Borrowed(st.cells, value)
    requires Has(st.cells[id].value.attrs, name) ==> Reachable(st.cells, st.handles, id)
    modifies st
    ensures st.Valid() && SameHandles(old(st.handles), st.handles)
    ensures var was := old(st.cells)[id].value;
            Edited(old(st.cells), st.cells, id, was.(attrs := WithAttr(was.attrs, name, value)))
    ensures SetsAttr(old(st.cells)[id].value.attrs, st.cells[id].value.attrs, name, value)
  {
    hide SetsAttr;
    var obj := st.cells[id].value;
    WithAttrSets(obj.attrs, name, value);
    var found := FindAttr(obj.attrs, name);
    var next := Attr(name, value);
    if found.Some? {
      var k := found.value;
      var previous := obj.attrs[k].value;
      WithAttrFound(obj.attrs, name, value, k);
      SpliceAttrs(obj, obj.attrs[..k], [obj.attrs[k]], [next], obj.attrs[k + 1..]);
      assert obj.attrs == obj.attrs[..k] + [obj.attrs[k]] + obj.attrs[k + 1..];
      assert AttrSlots([next]) == [value] && AttrSlots([obj.attrs[k]]) == [previous];
      st.Exchange(id, obj.(attrs := obj.attrs[..k] + [next] + obj.attrs[k + 1..]), [value], [previous]);
    } else {
      WithAttrMissing(obj.attrs, name, value);
      SpliceAttrs(obj, obj.attrs, [], [next], []);
      assert obj.attrs == obj.attrs + [] + [] && obj.attrs + [next] + [] == obj.attrs + [next];
      assert AttrSlots([next]) == [value];
      st.Exchange(id, obj.(attrs := obj.attrs + [next]), [value], []);
    }
  }

  /** The object without its `k`th attribute. */
  function WithoutAttr(obj: Object, k: nat): Object
    requires k < |obj.attrs|
  {
    obj.(attrs := obj.attrs[..k] + obj.attrs[k + 1..])
  }

  function SelfOnly(o: Ref, id: nat): seq<Ref> { if o == Some(id) then [o] else [] }

  lemma SelfOnlyNone(o: Ref, id: nat)
    ensures AllNone(SelfOnly(o, id)) <==> o != Some(id)
  {
    if o == Some(id) { assert o in SelfOnly(o, id); }
  }

  lemma AttrExchange(obj: Object, k: nat, id: nat, lost: seq<Ref>)
    requires k < |obj.attrs| && lost == (if obj.attrs[k].value == Some(id) then [] else [obj.attrs[k].value])
    ensures Balances(obj, WithoutAttr(obj, k), [], lost, SelfOnly(obj.attrs[k].value, id))
  {
    var attr := obj.attrs[k];
    SpliceAttrs(obj, obj.attrs[..k], [attr], [], obj.attrs[k + 1..]);
    assert obj.attrs == obj.attrs[..k] + [attr] + obj.attrs[k + 1..];
    assert WithoutAttr(obj, k).attrs == obj.attrs[..k] + [] + obj.attrs[k + 1..];
    assert AttrSlots([attr]) == [attr.value];
    hide AttrSlots, EntrySlots;
  }

  /**
   `Sere_DelAttr`, which does not release a reference the object holds on itself: the counts stay
   right exactly when the removed value is another one, and else that one reference leaks.
   */
  method DelAttr(st: Store, id: nat, name: string) returns (at: Option<nat>)
    requires st.Valid() && Alive(st.cells, id) && Reachable(st.cells, st.handles, id)
    modifies st
    ensures SameHandles(old(st.handles), st.handles)
    ensures at.None? ==> !Has(old(st.cells)[id].value.attrs, name) && st.Valid() && st.cells == old(st.cells)
    ensures at.Some? ==>
              var was := old(st.cells)[id].value; var k := at.value;
              && k < |was.attrs| && was.attrs[k].name == name && (forall j :: 0 <= j < k ==> was.attrs[j].name != name)
              && Edited(old(st.cells), st.cells, id, WithoutAttr(was, k))
              && Counted(st.cells, Plus(st.handles, SelfOnly(was.attrs[k].value, id)))
              && (st.Valid() <==> was.attrs[k].value != Some(id))
    ensures at.Some? ==>
              forall other: string :: other != name ==>
                AttrFound(st.cells[id].value.attrs, other) == AttrFound(old(st.cells)[id].value.attrs, other)
  {
    var obj := st.cells[id].value;
    at := FindAttr(obj.attrs, name);
    if at.None? { return; }
    var value := obj.attrs[at.value].value;
    var lost, leaked := if value == Some(id) then [] else [value], SelfOnly(value, id);
    hide Counted, Edited, Reachable, Balances, WithoutAttr, AllNone;
    SelfOnlyNone(value, id);
    AttrExchange(obj, at.value, id, lost);
    st.Replace(id, WithoutAttr(obj, at.value), [], lost, leaked);
    LeakIsExact(st.cells, st.handles, leaked);
    assert st.cells[id].value.attrs == WithoutAttr(obj, at.value).attrs by { EditedIs(old(st.cells), st.cells, id, WithoutAttr(obj, at.value)); }
    forall other: string | other != name
      ensures AttrFound(st.cells[id].value.attrs, other) == AttrFound(obj.attrs, other)
    {
      WithoutAttrKeeps(obj, at.value, other);
    }
  }

  lemma EditedIs(a: Cells, b: Cells, id: nat, obj: Object)
    requires Edited(a, b, id, obj)
    ensures Alive(b, id) && SameSlots(b[id].value, obj)
  {}

  /** The attribute values that are released, and those that are not because they name the object itself. */
  function Others(attrs: seq<Attr>, id: nat): seq<Ref> {
    if attrs == [] then []
    else (if attrs[0].value == Some(id) then [] else [attrs[0].value]) + Others(attrs[1..], id)
  }

  function Selves(attrs: seq<Attr>, id: nat): seq<Ref> {
    if attrs == [] then [] else SelfOnly(attrs[0].value, id) + Selves(attrs[1..], id)
  }

  /** No attribute of the object refers to the object itself. */
  predicate NoSelfAttr(attrs: seq<Attr>, id: nat) {
    forall k :: 0 <= k < |attrs| ==> attrs[k].value != Some(id)
  }

  lemma {:induction false} SelvesAreSelf(attrs: seq<Attr>, id: nat)
    ensures AllNone(Selves(attrs, id)) <==> NoSelfAttr(attrs, id)
  {
    if attrs != [] {
      SelvesAreSelf(attrs[1..], id);
      var a, r := SelfOnly(attrs[0].value, id), Selves(attrs[1..], id);
      assert forall o :: o in a + r <==> o in a || o in r;
      SelfOnlyNone(attrs[0].value, id);
      assert NoSelfAttr(attrs, id) <==> attrs[0].value != Some(id) && NoSelfAttr(attrs[1..], id) by {
        assert attrs == [attrs[0]] + attrs[1..];
      }
    }
  }

  lemma {:induction false} OthersAndSelves(attrs: seq<Attr>, id: nat, x: nat)
    ensures Count(Others(attrs, id), x) + Count(Selves(attrs, id), x) == Count(AttrSlots(attrs), x)
  {
    if attrs != [] {
      var one: seq<Ref>, rest := [attrs[0].value], attrs[1..];
      OthersAndSelves(rest, id, x);
      CountConcat(one, AttrSlots(rest), x);
      CountConcat(one, Others(rest, id), x);
      CountConcat(one, Selves(rest, id), x);
      assert [] + Others(rest, id) == Others(rest, id) && [] + Selves(rest, id) == Selves(rest, id);
    }
  }

  /** `Sere_ClearAttrs`: likewise, exactly the self-attributes leak. */
  method ClearAttrs(st: Store, id: nat)
    requires st.Valid() && Alive(st.cells, id) && Reachable(st.cells, st.handles, id)
    modifies st
    ensures SameHandles(old(st.handles), st.handles)
    ensures Edited(old(st.cells), st.cells, id, old(st.cells)[id].value.(attrs := []))
    ensures var attrs := old(st.cells)[id].value.attrs;
            && Counted(st.cells, Plus(st.handles, Selves(attrs, id)))
            && (st.Valid() <==> NoSelfAttr(attrs, id))
  {
    var obj := st.cells[id].value;
    var lost, leaked := Others(obj.attrs, id), Selves(obj.attrs, id);
    SpliceAttrs(obj, [], obj.attrs, [], []);
    assert obj.attrs == [] + obj.attrs + [];
    forall x: nat ensures Count(lost, x) + Count(leaked, x) == Count(AttrSlots(obj.attrs), x) {
      OthersAndSelves(obj.attrs, id, x);
    }
    hide Counted, Edited, Reachable, AttrSlots, EntrySlots, Others, Selves, NoSelfAttr;
    st.Replace(id, obj.(attrs := []), [], lost, leaked);
    LeakIsExact(st.cells, st.handles, leaked);
    SelvesAreSelf(obj.attrs, id);
  }

  // ---------------------------------------------------------------- dict entries

  /** When an entry's key counts as equal to an object. */
  type Equality = (Ref, nat) -> bool

  /** The first entry whose key is equal to `key`, or the number of entries. */
  function FirstSame(entries: seq<Entry>, same: Equality, key: nat): (k: nat)
    ensures k <= |entries| && (k < |entries| ==> same(entries[k].key, key))
    ensures forall j :: 0 <= j < k ==> !same(entries[j].key, key)
  {
    if entries == [] || same(entries[0].key, key) then 0 else 1 + FirstSame(entries[1..], same, key)
  }

  lemma {:induction false} FirstSameIs(entries: seq<Entry>, same: Equality, key: nat, k: nat)
    requires k <= |entries| && (k < |entries| ==> same(entries[k].key, key))
    requires forall j :: 0 <= j < k ==> !same(entries[j].key, key)
    ensures FirstSame(entries, same, key) == k
    decreases k
  {
    if k > 0 { FirstSameIs(entries[1..], same, key, k - 1); }
  }

  /** The comparisons of `dictFind`. */
  method FindEntry(entries: seq<Entry>, same: Equality, key: nat) returns (k: nat)
    ensures k == FirstSame(entries, same, key)
  {
    k := 0;
    while k < |entries| && !same(entries[k].key, key)
      invariant k <= |entries| && forall j :: 0 <= j < k ==> !same(entries[j].key, key)
    {
      k := k + 1;
    }
    FirstSameIs(entries, same, key, k);
  }

  /** The entries after `key` is set: the value of the entry with that key changes, or an entry is added in front. */
  function WithEntry(entries: seq<Entry>, same: Equality, key: nat, value: Ref): seq<Entry> {
    var k := FirstSame(entries, same, key);
    if k < |entries| then entries[k := Entry(entries[k].key, value)] else [Entry(Some(key), value)] + entries
  }

  /** What `Sere_Dict_Get` finds, if there is an entry with an equal key. */
  function EntryFound(entries: seq<Entry>, same: Equality, key: nat): Option<Ref> {
    var k := FirstSame(entries, same, key);
    if k < |entries| then Some(entries[k].value) else None
  }

  /**
   What storing a value means for later lookups: the key has the value, and every key not equal to
   the stored one has what it had. An entry that was there keeps its key object, and the entries
   become one more exactly when the key was absent.
   */
  ghost predicate Stores(e: seq<Entry>, now: seq<Entry>, same: Equality, key: nat, value: Ref) {
    var k := FirstSame(e, same, key);
    && (k < |e| || same(Some(key), key) ==> EntryFound(now, same, key) == Some(value))
    && (forall other: nat :: !same(if k < |e| then e[k].key else Some(key), other) ==>
          EntryFound(now, same, other) == EntryFound(e, same, other))
    && (k < |e| ==> |now| == |e| && forall j :: 0 <= j < |e| ==> now[j].key == e[j].key)
    && (k == |e| ==> |now| == |e| + 1 && now[0] == Entry(Some(key), value))
  }

  lemma WithEntryStores(e: seq<Entry>, same: Equality, key: nat, value: Ref)
    ensures Stores(e, WithEntry(e, same, key, value), same, key, value)
  {
    var k, now := FirstSame(e, same, key), WithEntry(e, same, key, value);
    hide FirstSame;
    if k < |e| || same(Some(key), key) { FirstSameIs(now, same, key, if k < |e| then k else 0); }
    forall other: nat | !same(if k < |e| then e[k].key else Some(key), other)
      ensures EntryFound(now, same, other) == EntryFound(e, same, other)
    {
      var j := FirstSame(e, same, other);
      FirstSameIs(now, same, other, if k < |e| then j else j + 1);
    }
  }

  /** What deleting an entry means for later lookups. */
  ghost predicate Removes(e: seq<Entry>, now: seq<Entry>, same: Equality, k: nat)
    requires k < |e|
  {
    && |now| == |e| - 1
    && (forall other: nat :: !same(e[k].key, other) ==> EntryFound(now, same, other) == EntryFound(e, same, other))
    && (forall key: nat :: (forall j :: 0 <= j < |e| && j != k ==> !same(e[j].key, key)) ==> EntryFound(now, same, key) == None)
  }

  lemma WithoutEntryRemoves(e: seq<Entry>, same: Equality, k: nat)
    requires k < |e|
    ensures Removes(e, e[..k] + e[k + 1..], same, k)
  {
    var now := e[..k] + e[k + 1..];
    hide FirstSame;
    assert forall i :: 0 <= i < |now| ==> now[i] == e[if i < k then i else i + 1];
    forall other: nat | !same(e[k].key, other) ensures EntryFound(now, same, other) == EntryFound(e, same, other) {
      var j := FirstSame(e, same, other);
      FirstSameIs(now, same, other, if j < k then j else if j < |e| then j - 1 else |now|);
    }
    forall key: nat | forall j :: 0 <= j < |e| && j != k ==> !same(e[j].key, key)
      ensures EntryFound(now, same, key) == None
    {
      FirstSameIs(now, same, key, |now|);
    }
  }

  /** `Sere_Dict_Set`; a null key is refused. */
  method DictSet(st: Store, dict: nat, same: Equality, key: Ref, value: Ref) returns (ok: bool)
    requires st.Valid() && Alive(st.cells, dict) && Borrowed(st.cells, key) && Borrowed(st.cells, value)
    requires var entries := st.cells[dict].value.entries;
             key.Some? && FirstSame(entries, same, key.value) < |entries| ==> Reachable(st.cells, st.handles, dict)
    modifies st
    ensures st.Valid() && SameHandles(old(st.handles), st.handles)
    ensures ok == key.Some? && (!ok ==> st.cells == old(st.cells))
    ensures ok ==>
              var was := old(st.cells)[dict].value;
              Edited(old(st.cells), st.cells, dict, was.(entries := WithEntry(was.entries, same, key.value, value)))
    ensures ok ==> Stores(old(st.cells)[dict].value.entries, st.cells[dict].value.entries, same, key.value, value)
  {
    if key.None? { return false; }
    hide Stores;
    var obj := st.cells[dict].value;
    var k := FindEntry(obj.entries, same, key.value);
    var next := obj.(entries := WithEntry(obj.entries, same, key.value, value));
    hide FirstSame, WithEntry, Exchanges, Edited, Counted, Reachable;
    if k < |obj.entries| {
      EntryChanges(obj, same, key.value, value);
      st.Exchange(dict, next, [value], [obj.entries[k].value]);
    } else {
      EntryComes(obj, same, key.value, value);
      st.Exchange(dict, next, [key, value], []);
    }
    EditedIs(old(st.cells), st.cells, dict, next);
    WithEntryStores(obj.entries, same, key.value, value);
    ok := true;
  }

  lemma EntryChanges(obj: Object, same: Equality, key: nat, value: Ref)
    requires FirstSame(obj.entries, same, key) < |obj.entries|
    ensures Exchanges(obj, obj.(entries := WithEntry(obj.entries, same, key, value)), [value],
                      [obj.entries[FirstSame(obj.entries, same, key)].value])
  {
    var k := FirstSame(obj.entries, same, key);
    var was := obj.entries[k];
    var next := Entry(was.key, value);
    hide FirstSame;
    SpliceEntries(obj, obj.entries[..k], [was], [next], obj.entries[k + 1..]);
    assert obj.entries == obj.entries[..k] + [was] + obj.entries[k + 1..];
    assert obj.entries[k := next] == obj.entries[..k] + [next] + obj.entries[k + 1..];
    KeyStays(was.key, was.value, value);
  }

  lemma EntryComes(obj: Object, same: Equality, key: nat, value: Ref)
    requires FirstSame(obj.entries, same, key) == |obj.entries|
    ensures Exchanges(obj, obj.(entries := WithEntry(obj.entries, same, key, value)), [Some(key), value], [])
  {
    var next := Entry(Some(key), value);
    hide FirstSame;
    SpliceEntries(obj, [], [], [next], obj.entries);
    assert obj.entries == [] + [] + obj.entries && [] + [next] + obj.entries == [next] + obj.entries;
    assert EntrySlots([next]) == [Some(key), value];
  }

  lemma KeyStays(key: Ref, previous: Ref, value: Ref)
    ensures forall x: nat ::
              Count(EntrySlots([Entry(key, value)]), x) - Count(EntrySlots([Entry(key, previous)]), x) ==
              Count([value], x) - Count([previous], x)
  {
    forall x: nat
      ensures Count(EntrySlots([Entry(key, value)]), x) - Count(EntrySlots([Entry(key, previous)]), x) ==
              Count([value], x) - Count([previous], x)
    {
      assert EntrySlots([Entry(key, value)]) == [key] + [value];
      assert EntrySlots([Entry(key, previous)]) == [key] + [previous];
      CountConcat([key], [value], x);
      CountConcat([key], [previous], x);
    }
  }

  /** `Sere_Dict_Del`: false when no key is equal. */
  method DictDel(st: Store, dict: nat, same: Equality, key: Ref) returns (ok: bool)
    requires st.Valid() && Alive(st.cells, dict) && Reachable(st.cells, st.handles, dict)
    modifies st
    ensures st.Valid() && SameHandles(old(st.handles), st.handles)
    ensures var entries := old(st.cells)[dict].value.entries;
            ok == (key.Some? && FirstSame(entries, same, key.value) < |entries|)
    ensures !ok ==> st.cells == old(st.cells)
    ensures ok ==>
              var was := old(st.cells)[dict].value; var k := FirstSame(was.entries, same, key.value);
              Edited(old(st.cells), st.cells, dict, was.(entries := was.entries[..k] + was.entries[k + 1..]))
    ensures ok ==>
              var was := old(st.cells)[dict].value.entries;
              Removes(was, st.cells[dict].value.entries, same, FirstSame(was, same, key.value))
  {
    if key.None? { return false; }
    hide Removes;
    var obj := st.cells[dict].value;
    var k := FindEntry(obj.entries, same, key.value);
    if k == |obj.entries| { return false; }
    hide FirstSame;
    var was := obj.entries[k];
    var kept := obj.entries[..k] + obj.entries[k + 1..];
    SpliceEntries(obj, obj.entries[..k], [was], [], obj.entries[k + 1..]);
    assert obj.entries == obj.entries[..k] + [was] + obj.entries[k + 1..];
    assert kept == obj.entries[..k] + [] + obj.entries[k + 1..];
    assert EntrySlots([was]) == [was.key, was.value];
    st.Exchange(dict, obj.(entries := kept), [], [was.key, was.value]);
    WithoutEntryRemoves(obj.entries, same, k);
    ok := true;
  }

  /** `dictReleaseEntries`. */
  method DictClear(st: Store, dict: nat)
    requires st.Valid() && Alive(st.cells, dict) && Reachable(st.cells, st.handles, dict)
    modifies st
    ensures st.Valid() && SameHandles(old(st.handles), st.handles)
    ensures Edited(old(st.cells), st.cells, dict, old(st.cells)[dict].value.(entries := []))
  {
    var obj := st.cells[dict].value;
    SpliceEntries(obj, [], obj.entries, [], []);
    assert obj.entries == [] + obj.entries + [];
    st.Exchange(dict, obj.(entries := []), [], EntrySlots(obj.entries));
  }

  // ---------------------------------------------------------------- connecting facts

  /** A slot of a living object names a living object. */
  lemma ItemIsAlive(cells: Cells, handles: Handles, id: nat, at: nat)
    requires Counted(cells, handles) && Alive(cells, id) && at < |cells[id].value.items|
    ensures Borrowed(cells, cells[id].value.items[at])
  {
    var obj := cells[id].value;
    var o := obj.items[at];
    assert obj.Slots()[|AttrSlots(obj.attrs)| + at] == o;
    if o.Some? {
      SlotIsHeld(cells, id, o.value);
      assert RefsOf(cells, o.value) > 0;
    }
  }

  lemma RecountThenEdit(a: Cells, b: Cells, c: Cells, id: nat, obj: Object)
    requires Recounted(a, b) && Edited(b, c, id, obj)
    ensures Edited(a, c, id, obj)
  {}

  /** In every counted graph, removing an attribute that names its own object without a release breaks the count. */
  lemma SelfAttrLeaks(cells: Cells, handles: Handles, id: nat, k: nat)
    requires Counted(cells, handles) && Alive(cells, id)
    requires k < |cells[id].value.attrs| && cells[id].value.attrs[k].value == Some(id)
    ensures var obj := cells[id].value;
            !Counted(cells[id := Some(obj.(attrs := obj.attrs[..k] + obj.attrs[k + 1..]))], handles)
  {
    var obj := cells[id].value;
    var now := obj.(attrs := obj.attrs[..k] + obj.attrs[k + 1..]);
    var after := cells[id := Some(now)];
    SpliceAttrs(obj, obj.attrs[..k], [obj.attrs[k]], [], obj.attrs[k + 1..]);
    assert obj.attrs == obj.attrs[..k] + [obj.attrs[k]] + obj.attrs[k + 1..];
    assert now.attrs == obj.attrs[..k] + [] + obj.attrs[k + 1..];
    assert AttrSlots([obj.attrs[k]]) == [Some(id)];
    CountsOfOne(Some(id));
    HeldUpdate(cells, id, Some(now), id);
    assert RefsOf(cells, id) == handles(id) + Held(cells, id);
    assert RefsOf(after, id) == RefsOf(cells, id);
  }

  /** Such graphs exist: an object with itself as an attribute, held once by the caller. */
  lemma SelfAttrExists(handles: Handles)
    requires forall x: nat :: handles(x) == if x == 0 then 1 else 0
    ensures Counted([Some(Object(2, [Attr("self", Some(0))], [], []))], handles)
  {
    var obj := Object(2, [Attr("self", Some(0))], [], []);
    var cells: Cells := [Some(obj)];
    assert cells[..0] == [] && obj.Slots() == [Some(0)];
    CountsOfOne(Some(0));
    forall x: nat ensures RefsOf(cells, x) == handles(x) + Held(cells, x) {
      assert Held(cells, x) == CellCount(cells[0], x);
    }
  }
}
