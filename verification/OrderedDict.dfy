/**
 `SereDict` of runtime/sere_rt.c: parallel arrays changed in place by probe loops.

 Each method is proved to do to the arrays what the function of the same routine in `OrderedTable`
 does to a table, and to refine the insertion-ordered list of entries.
 */
module OrderedDict {
  import opened Wrappers
  import opened OrderedTable

  lemma {:induction false} FirstIndex(xs: seq<nat>, x: nat) returns (p: nat)
    requires x in xs
    ensures p < |xs| && xs[p] == x && forall q :: 0 <= q < p ==> xs[q] != x
  {
    if xs[0] == x {
      p := 0;
    } else {
      assert x in xs[1..];
      p := FirstIndex(xs[1..], x);
      p := p + 1;
    }
  }

  lemma PlaceGrows<K, V>(t: Table<K, V>, hash: K -> nat, k: K, v: V)
    requires Shaped(t)
    ensures |Place(t, hash, k, v).order| <= |t.order| + 1
  {}

  lemma OrderIsLive<K, V>(t: Table<K, V>, hash: K -> nat)
    requires Wf(t, hash)
    ensures Shaped(t) && 2 * |t.order| <= t.Cap() && forall p :: 0 <= p < |t.order| ==> LiveAt(t, t.order[p])
  {}

  lemma ReinsertStep<K, V>(t: Table<K, V>, hash: K -> nat, into: Table<K, V>, p: nat)
    requires Shaped(t) && Shaped(into) && p < |t.order|
    ensures var next := Place(into, hash, t.keys[t.order[p]], t.vals[t.order[p]]);
            Shaped(next) && next.Cap() == into.Cap() && Reinsert(t, hash, into, p) == Reinsert(t, hash, next, p + 1)
  {}

  lemma ReinsertEnd<K, V>(t: Table<K, V>, hash: K -> nat, into: Table<K, V>)
    requires Shaped(t) && Shaped(into)
    ensures Reinsert(t, hash, into, |t.order|) == into
  {}

  class Dict<K(==), V> {
    var keys: array<K>
    var vals: array<V>
    var state: array<nat>
    var order: array<nat>
    var len: nat
    const hash: K -> nat
    const zeroKey: K
    const zeroVal: V

    ghost predicate Allocated()
      reads this
    {
      && keys.Length == vals.Length == state.Length == order.Length && len <= order.Length
      && keys as object != vals && keys as object != state && keys as object != order
      && vals as object != state && vals as object != order && state != order
    }

    ghost function Snapshot(): Table<K, V>
      requires len <= order.Length
      reads this, keys, vals, state, order
    {
      Table(keys[..], vals[..], state[..], order[..len])
    }

    ghost predicate Valid()
      reads this, keys, vals, state, order
    {
      Allocated() && Wf(Snapshot(), hash)
    }

    /** `sere_dict_new`: one growth from nothing gives eight blank slots. */
    constructor (hash: K -> nat, zeroKey: K, zeroVal: V)
      ensures Valid() && fresh(keys) && fresh(vals) && fresh(state) && fresh(order)
      ensures this.hash == hash && this.zeroKey == zeroKey && this.zeroVal == zeroVal
      ensures Snapshot() == Blank(8, zeroKey, zeroVal) && Entries(Snapshot()) == []
    {
      this.hash, this.zeroKey, this.zeroVal := hash, zeroKey, zeroVal;
      var cap := 8;
      keys := new K[cap](_ => zeroKey);
      vals := new V[cap](_ => zeroVal);
      state := new nat[cap](_ => 0);
      order := new nat[cap](_ => 0);
      len := 0;
      new;
      BlankWf(hash, 8, zeroKey, zeroVal);
      assert Snapshot() == Blank(8, zeroKey, zeroVal);
    }

    /** `sere_dict_get`. */
    method Get(k: K) returns (r: Option<V>)
      requires Valid()
      ensures r == Lookup(Entries(Snapshot()), k)
    {
      var cap := state.Length;
      var slot := hash(k) % cap;
      ghost var t := Snapshot();
      GetRefines(t, hash, k);
      var n := 0;
      while n < cap
        invariant 0 <= n <= cap && Probe(t, hash, k, n) == Probe(t, hash, k, 0)
      {
        var index := (slot + n) % cap;
        IndexIsMod(slot, n, cap);
        if state[index] == 0 { break; }
        if state[index] != 2 && keys[index] == k { return Some(vals[index]); }
        n := n + 1;
      }
      return None;
    }

    /** Writes a new entry into a free slot and appends the slot to the order. */
    method Fill(dest: nat, k: K, v: V)
      requires Allocated() && dest < keys.Length && len < order.Length
      modifies keys, vals, state, order, `len
      ensures Allocated() && len == old(len) + 1
      ensures var t := old(Snapshot());
              Snapshot() == Table(t.keys[dest := k], t.vals[dest := v], t.state[dest := 1], t.order + [dest])
    {
      keys[dest] := k;
      vals[dest] := v;
      state[dest] := 1;
      order[len] := dest;
      len := len + 1;
      ghost var t := old(Snapshot());
      assert keys[..] == t.keys[dest := k] && vals[..] == t.vals[dest := v];
      assert state[..] == t.state[dest := 1] && order[..len] == t.order + [dest];
    }

    /** The probe loop of `sere_dict_set`. */
    method PlaceKey(k: K, v: V)
      requires Allocated() && Shaped(Snapshot()) && len < order.Length
      modifies keys, vals, state, order, `len
      ensures Allocated() && Snapshot() == Place(old(Snapshot()), hash, k, v)
    {
      var cap := state.Length;
      var slot := hash(k) % cap;
      ghost var t := Snapshot();
      var tombstone := -1;
      var n := 0;
      while n < cap
        invariant 0 <= n <= cap && -1 <= tombstone < cap && Allocated() && len == old(len) && Snapshot() == t
        invariant Seek(t, hash, k, 0, None) ==
                  Seek(t, hash, k, n, if tombstone >= 0 then Some(tombstone) else None)
      {
        var index := (slot + n) % cap;
        IndexIsMod(slot, n, cap);
        assert t.state[index] == state[index] && t.keys[index] == keys[index];
        if state[index] == 0 {
          var dest := if tombstone >= 0 then tombstone else index;
          Fill(dest, k, v);
          return;
        }
        if state[index] == 2 {
          if tombstone < 0 { tombstone := index; }
        } else if keys[index] == k {
          vals[index] := v;
          assert vals[..] == t.vals[index := v] && keys[..] == t.keys && state[..] == t.state && order[..len] == t.order;
          return;
        }
        n := n + 1;
      }
    }

    /** `dictGrow`. */
    method GrowTable()
      requires Valid()
      modifies this
      ensures Allocated() && Snapshot() == Grow(old(Snapshot()), hash, zeroKey, zeroVal)
      ensures fresh(keys) && fresh(vals) && fresh(state) && fresh(order)
    {
      var oldKeys, oldVals, oldState, oldOrder, oldLen := keys, vals, state, order, len;
      ghost var t := Snapshot();
      Allocate(if state.Length == 0 then 8 else state.Length * 2);
      hide Reinsert, Findable, Listed;
      ReinsertAll(oldKeys, oldVals, oldState, oldOrder, oldLen, t);
    }

    /**
     The loop of `dictGrow`. It re-inserts through `sere_dict_set`, whose growth check is false
     throughout, so the probe loop follows directly.
     */
    method ReinsertAll(oldKeys: array<K>, oldVals: array<V>, oldState: array<nat>, oldOrder: array<nat>,
                       oldLen: nat, ghost t: Table<K, V>)
      requires Allocated() && len == 0 && keys.Length > 0 && keys.Length == 2 * t.Cap()
      requires {oldKeys as object, oldVals, oldState, oldOrder} !! {keys as object, vals, state, order}
      requires Wf(t, hash) && oldLen <= oldOrder.Length
      requires t == Table(oldKeys[..], oldVals[..], oldState[..], oldOrder[..oldLen])
      modifies keys, vals, state, order, `len
      ensures Allocated() && Snapshot() == Reinsert(t, hash, old(Snapshot()), 0)
    {
      ghost var blank := Snapshot();
      var position := 0;
      hide Wf, Place, Reinsert;
      while position < oldLen
        invariant 0 <= position <= oldLen && Allocated() && len <= position && Shaped(Snapshot())
        invariant Reinsert(t, hash, Snapshot(), position) == Reinsert(t, hash, blank, 0)
      {
        ReinsertSlot(oldKeys, oldVals, oldState, oldOrder, oldLen, t, position);
        position := position + 1;
      }
      ReinsertEnd(t, hash, Snapshot());
    }

    /** One round of that loop. */
    method ReinsertSlot(oldKeys: array<K>, oldVals: array<V>, oldState: array<nat>, oldOrder: array<nat>,
                        oldLen: nat, ghost t: Table<K, V>, position: nat)
      requires Allocated() && keys.Length == 2 * t.Cap() && len <= position < oldLen <= oldOrder.Length
      requires Wf(t, hash) && t == Table(oldKeys[..], oldVals[..], oldState[..], oldOrder[..oldLen])
      requires Shaped(Snapshot())
      modifies keys, vals, state, order, `len
      ensures Allocated() && len <= position + 1 && Shaped(Snapshot())
      ensures Reinsert(t, hash, Snapshot(), position + 1) == Reinsert(t, hash, old(Snapshot()), position)
    {
      OrderIsLive(t, hash);
      hide Wf, Place, Reinsert;
      var index := oldOrder[position];
      assert index == t.order[position] && LiveAt(t, index);
      assert oldState[index] == t.state[index] && oldKeys[index] == t.keys[index] && oldVals[index] == t.vals[index];
      if oldState[index] == 1 {
        assert !(len * 2 >= state.Length);
        ReinsertStep(t, hash, Snapshot(), position);
        PlaceGrows(Snapshot(), hash, oldKeys[index], oldVals[index]);
        PlaceKey(oldKeys[index], oldVals[index]);
      }
    }

    /** Blank arrays of the wanted capacity, as `calloc` returns them. */
    method Allocate(cap: nat)
      modifies this
      ensures Allocated() && fresh(keys) && fresh(vals) && fresh(state) && fresh(order)
      ensures keys.Length == cap && len == 0 && Snapshot() == Blank(cap, zeroKey, zeroVal)
    {
      keys := new K[cap](_ => zeroKey);
      vals := new V[cap](_ => zeroVal);
      state := new nat[cap](_ => 0);
      order := new nat[cap](_ => 0);
      len := 0;
      assert Snapshot() == Blank(cap, zeroKey, zeroVal);
    }

    /** `sere_dict_set`. */
    method SetKey(k: K, v: V)
      requires Valid()
      modifies this, keys, vals, state, order
      ensures Valid()
      ensures Snapshot() == Set(old(Snapshot()), hash, zeroKey, zeroVal, k, v)
      ensures var t := old(Snapshot());
              if Has(t, k) || NeedsGrowth(t) || HasEmpty(t)
              then Entries(Snapshot()) == Put(Entries(t), k, v)
              else Snapshot() == t
      ensures keys == old(keys) || fresh(keys)
      ensures vals == old(vals) || fresh(vals)
      ensures state == old(state) || fresh(state)
      ensures order == old(order) || fresh(order)
    {
      ghost var t := Snapshot();
      SetRefines(t, hash, zeroKey, zeroVal, k, v);
      if state.Length == 0 || len * 2 >= state.Length {
        GrowRefines(t, hash, zeroKey, zeroVal);
        GrowTable();
        assert |Snapshot().order| == |Entries(Snapshot())| == |t.order|;
      }
      PlaceKey(k, v);
    }

    /** `sere_dict_del`. */
    method DelKey(k: K) returns (removed: bool)
      requires Valid()
      modifies state, order, `len
      ensures Valid()
      ensures Snapshot() == Del(old(Snapshot()), hash, k)
      ensures Entries(Snapshot()) == Remove(Entries(old(Snapshot())), k)
      ensures removed == Has(old(Snapshot()), k)
    {
      ghost var t := Snapshot();
      DelRefines(t, hash, k);
      ProbeIsExact(t, hash, k);
      var found, index := FindSlot(k);
      hide Findable, Probe, Without, Remove;
      if !found { return false; }
      assert LiveAt(t, index);
      Unlist(index);
      return true;
    }

    /** The probe loop of `sere_dict_del`. */
    method FindSlot(k: K) returns (found: bool, index: nat)
      requires Valid()
      ensures var r := Probe(Snapshot(), hash, k, 0);
              found == r.Some? && (found ==> index == r.value)
    {
      var cap := state.Length;
      var slot := hash(k) % cap;
      ghost var t := Snapshot();
      var n := 0;
      index := 0;
      while n < cap
        invariant 0 <= n <= cap && Probe(t, hash, k, n) == Probe(t, hash, k, 0)
      {
        index := (slot + n) % cap;
        IndexIsMod(slot, n, cap);
        assert t.state[index] == state[index] && t.keys[index] == keys[index];
        if state[index] == 0 { return false, index; }
        if state[index] != 2 && keys[index] == k { return true, index; }
        n := n + 1;
      }
      found := false;
    }

    /** Turns a live slot into a tombstone and closes its gap in the order. */
    method Unlist(index: nat)
      requires Allocated() && index < state.Length && index in order[..len]
      modifies state, order, `len
      ensures Allocated() && state[..] == old(state[..])[index := 2]
      ensures order[..len] == Without(old(order[..len]), index)
    {
      ghost var was := order[..len];
      state[index] := 2;
      var position := 0;
      ghost var p := FirstIndex(was, index);
      while position < len && order[position] != index
        invariant 0 <= position <= p
      {
        position := position + 1;
      }
      WithoutAt(was, index, p);
      CloseGap(position);
      assert old(state[..])[index := 2] == state[..];
    }

    /** The `memmove` over the order array. */
    method CloseGap(position: nat)
      requires Allocated() && position < len
      modifies order, `len
      ensures Allocated() && order[..len] == old(order[..len])[..position] + old(order[..len])[position + 1..]
    {
      forall j | position <= j < len - 1 { order[j] := order[j + 1]; }
      len := len - 1;
    }

    /** `sere_dict_clear`. */
    method Clear()
      requires Valid()
      modifies state, `len
      ensures Valid() && Entries(Snapshot()) == [] && Tombs(Snapshot()) == {} && state.Length == old(state.Length)
    {
      forall i | 0 <= i < state.Length { state[i] := 0; }
      len := 0;
      assert forall s: nat :: !LiveAt(Snapshot(), s);
    }

    /** `sere_dict_keys`. */
    method KeyList() returns (r: seq<K>)
      requires Valid()
      ensures |r| == |Entries(Snapshot())| && forall p :: 0 <= p < |r| ==> r[p] == Entries(Snapshot())[p].0
    {
      r := [];
      var position := 0;
      while position < len
        invariant 0 <= position <= len && |r| == position
        invariant forall p :: 0 <= p < position ==> r[p] == Entries(Snapshot())[p].0
      {
        var index := order[position];
        assert LiveAt(Snapshot(), Snapshot().order[position]) && index == Snapshot().order[position];
        if state[index] == 1 { r := r + [keys[index]]; }
        position := position + 1;
      }
    }
  }

  /** One round of the loop of `sere_dict_copy`. */
  method CopySlot<K(==), V>(d: Dict<K, V>, out: Dict<K, V>, position: nat)
    requires d.Valid() && out.Valid() && d != out && out.hash == d.hash && position < d.len
    requires {d.keys as object, d.vals, d.state, d.order} !! {out.keys as object, out.vals, out.state, out.order}
    requires Tombs(out.Snapshot()) == {} && Entries(out.Snapshot()) == Entries(d.Snapshot())[..position]
    modifies out, out.keys, out.vals, out.state, out.order
    ensures d.Valid() && out.Valid() && Tombs(out.Snapshot()) == {}
    ensures Entries(out.Snapshot()) == Entries(d.Snapshot())[..position + 1]
    ensures out.keys == old(out.keys) || fresh(out.keys)
    ensures out.vals == old(out.vals) || fresh(out.vals)
    ensures out.state == old(out.state) || fresh(out.state)
    ensures out.order == old(out.order) || fresh(out.order)
  {
    ghost var t := d.Snapshot();
    OrderIsLive(t, d.hash);
    hide Wf, Set, Put, Tombs, NeedsGrowth;
    var index := d.order[position];
    assert index == t.order[position] && LiveAt(t, index);
    assert d.keys[index] == t.keys[index] && d.vals[index] == t.vals[index];
    CopyStep(t, out.Snapshot(), d.hash, out.zeroKey, out.zeroVal, position);
    if d.state[index] == 1 {
      out.SetKey(d.keys[index], d.vals[index]);
    }
  }

  /** `sere_dict_copy`. */
  method Copy<K(==), V>(d: Dict<K, V>) returns (out: Dict<K, V>)
    requires d.Valid()
    ensures fresh(out) && out.Valid() && out.hash == d.hash
    ensures Entries(out.Snapshot()) == Entries(d.Snapshot())
  {
    out := new Dict(d.hash, d.zeroKey, d.zeroVal);
    BlankWf(d.hash, 8, d.zeroKey, d.zeroVal);
    ghost var t := d.Snapshot();
    var position := 0;
    assert Entries(out.Snapshot()) == Entries(t)[..0];
    hide Wf, Set, Put, Tombs, NeedsGrowth;
    while position < d.len
      invariant 0 <= position <= d.len && out.Valid() && fresh(out)
      invariant fresh(out.keys) && fresh(out.vals) && fresh(out.state) && fresh(out.order)
      invariant out.hash == d.hash && Tombs(out.Snapshot()) == {}
      invariant Entries(out.Snapshot()) == Entries(t)[..position]
    {
      CopySlot(d, out, position);
      position := position + 1;
    }
    assert Entries(t)[..position] == Entries(t);
  }

  lemma CopyStep<K, V>(t: Table<K, V>, into: Table<K, V>, hash: K -> nat, zeroKey: K, zeroVal: V, p: nat)
    requires Wf(t, hash) && Wf(into, hash) && Tombs(into) == {} && p < |t.order|
    requires Entries(into) == Entries(t)[..p]
    ensures var k, v := t.keys[t.order[p]], t.vals[t.order[p]];
            var r := Set(into, hash, zeroKey, zeroVal, k, v);
            Tombs(r) == {} && Wf(r, hash) && Entries(r) == Entries(t)[..p + 1]
  {
    var k, v := t.keys[t.order[p]], t.vals[t.order[p]];
    SetWithoutTombs(into, hash, zeroKey, zeroVal, k, v);
    FreshKey(t, hash, into, p);
    NoEntry(into, hash, k);
    AssocMissing(Entries(into), k, v);
    assert Entries(t)[..p + 1] == Entries(t)[..p] + [(k, v)];
  }
}
