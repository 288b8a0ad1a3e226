/**
 Which slot `sere_dict_set` uses, and what setting and deleting one key again and again leaves.

 A new key goes to the first slot on its probe path that is not live. When that is a tombstone no
 empty slot is used up, so that a table does not fill while one key comes and goes.
 */
module SlotReuse {
  import opened Wrappers
  import opened Words
  import opened OrderedTable

  /** The slot `d` steps on the probe path of `k`. */
  function PathSlot<K, V>(t: Table<K, V>, hash: K -> nat, k: K, d: nat): (i: nat)
    requires t.Cap() > 0
    ensures i < t.Cap()
  {
    (hash(k) + d) % t.Cap()
  }

  /** The first slot on the probe path of `k` that is not live is `d` steps away. */
  ghost predicate FirstFree<K, V>(t: Table<K, V>, hash: K -> nat, k: K, d: nat)
    requires t.Cap() > 0
  {
    && d < t.Cap() && t.state[PathSlot(t, hash, k, d)] != 1
    && forall m :: 0 <= m < d ==> t.state[PathSlot(t, hash, k, m)] == 1
  }

  lemma SlotIsIndex<K, V>(t: Table<K, V>, hash: K -> nat, k: K, d: nat)
    requires d < t.Cap()
    ensures PathSlot(t, hash, k, d) == Index(Home(hash, k, t.Cap()), d, t.Cap())
  {
    var cap, h := t.Cap(), hash(k);
    IndexIsMod(h % cap, d, cap);
    SumMod(h, d, cap);
  }

  lemma SumMod(h: nat, d: nat, cap: nat)
    requires cap > 0
    ensures (h + d) % cap == (h % cap + d) % cap
  {
    var q, m := h / cap, h % cap + d;
    DivMod(h, cap);
    DivMod(m, cap);
    Distribute(q + m / cap, m / cap, cap);
    DivModUnique(h + d, cap, q + m / cap, m % cap);
  }

  lemma ShapeOf<K, V>(t: Table<K, V>, hash: K -> nat)
    requires Wf(t, hash)
    ensures Shaped(t)
  {}

  // ---------------------------------------------------------------- the slot of a new key

  /** With a tombstone in hand the search ends there once it meets an empty slot. */
  lemma {:induction false} SeekHolds<K, V>(t: Table<K, V>, hash: K -> nat, k: K, n: nat, x: nat, e: nat)
    requires Shaped(t) && !Has(t, k) && n <= e < t.Cap() && x < t.Cap()
    requires t.state[Index(Home(hash, k, t.Cap()), e, t.Cap())] == 0
    requires forall s :: 0 <= s < t.Cap() ==> t.state[s] <= 2
    ensures Seek(t, hash, k, n, Some(x)) == Insert(x)
    decreases e - n
  {
    var i := Index(Home(hash, k, t.Cap()), n, t.Cap());
    if t.state[i] == 1 { assert LiveAt(t, i); }
    if t.state[i] != 0 { SeekHolds(t, hash, k, n + 1, x, e); }
  }

  lemma {:induction false} SeekStops<K, V>(t: Table<K, V>, hash: K -> nat, k: K, n: nat, d: nat, e: nat)
    requires Shaped(t) && !Has(t, k) && FirstFree(t, hash, k, d) && n <= d <= e < t.Cap()
    requires t.state[Index(Home(hash, k, t.Cap()), e, t.Cap())] == 0
    requires forall s :: 0 <= s < t.Cap() ==> t.state[s] <= 2
    ensures Seek(t, hash, k, n, None) == Insert(PathSlot(t, hash, k, d))
    decreases d - n
  {
    hide PathSlot;
    SlotIsIndex(t, hash, k, n);
    var i := PathSlot(t, hash, k, n);
    if n < d {
      assert LiveAt(t, i);
      SeekStops(t, hash, k, n + 1, d, e);
    } else if t.state[i] == 2 {
      assert n < e by { if n == e { SlotIsIndex(t, hash, k, e); } }
      SeekHolds(t, hash, k, n + 1, i, e);
    }
  }

  lemma NothingBefore<K, V>(t: Table<K, V>, hash: K -> nat, k: K, d: nat, e: nat)
    requires e < t.Cap() && FirstFree(t, hash, k, d) && t.state[PathSlot(t, hash, k, e)] != 1
    ensures d <= e
  {}

  /** A new key that is stored without growth goes to the first slot on its path that is not live. */
  lemma NewKeyTakesFirstFree<K, V>(t: Table<K, V>, hash: K -> nat, zeroKey: K, zeroVal: V, k: K, v: V, d: nat)
    requires Wf(t, hash) && !Has(t, k) && !NeedsGrowth(t) && HasEmpty(t) && FirstFree(t, hash, k, d)
    ensures var i := PathSlot(t, hash, k, d);
            Set(t, hash, zeroKey, zeroVal, k, v) ==
            Table(t.keys[i := k], t.vals[i := v], t.state[i := 1], t.order + [i])
  {
    var cap, home := t.Cap(), Home(hash, k, t.Cap());
    var s: nat :| s < cap && t.state[s] == 0;
    var e := Dist(home, s, cap);
    SlotIsIndex(t, hash, k, e);
    NothingBefore(t, hash, k, d, e);
    SeekStops(t, hash, k, 0, d, e);
  }

  ghost function Empties<K, V>(t: Table<K, V>): set<nat> {
    set s: nat | s < t.Cap() && t.state[s] == 0
  }

  /** If that slot is a tombstone, no empty slot is used up and exactly this tombstone is. */
  lemma TombstoneIsReused<K, V>(t: Table<K, V>, hash: K -> nat, zeroKey: K, zeroVal: V, k: K, v: V, d: nat)
    requires Wf(t, hash) && !Has(t, k) && !NeedsGrowth(t) && HasEmpty(t) && FirstFree(t, hash, k, d)
    requires t.state[PathSlot(t, hash, k, d)] == 2
    ensures var r := Set(t, hash, zeroKey, zeroVal, k, v); var i := PathSlot(t, hash, k, d);
            Empties(r) == Empties(t) && Tombs(r) == Tombs(t) - {i} && i in Tombs(t)
  {
    NewKeyTakesFirstFree(t, hash, zeroKey, zeroVal, k, v, d);
    hide Set, PathSlot, FirstFree, Wf;
  }

  lemma {:induction false} FreeOnPath<K, V>(t: Table<K, V>, hash: K -> nat, k: K, limit: nat) returns (d: nat)
    requires limit < t.Cap() && t.state[PathSlot(t, hash, k, limit)] != 1
    ensures d <= limit && FirstFree(t, hash, k, d)
    decreases limit
  {
    hide PathSlot;
    if m :| 0 <= m < limit && t.state[PathSlot(t, hash, k, m)] != 1 {
      d := FreeOnPath(t, hash, k, m);
    } else {
      d := limit;
    }
  }

  /** A table with an empty slot has a first free slot on every path. */
  lemma SomeFirstFree<K, V>(t: Table<K, V>, hash: K -> nat, k: K) returns (d: nat)
    requires HasEmpty(t)
    ensures FirstFree(t, hash, k, d)
  {
    var s: nat :| s < t.Cap() && t.state[s] == 0;
    var e := Dist(Home(hash, k, t.Cap()), s, t.Cap());
    SlotIsIndex(t, hash, k, e);
    d := FreeOnPath(t, hash, k, e);
  }

  // ---------------------------------------------------------------- one key that comes and goes

  /** The table after setting and deleting `k`, `n` times, with any values. */
  function Rounds<K(==), V>(t: Table<K, V>, hash: K -> nat, zeroKey: K, zeroVal: V, k: K, vs: nat -> V, n: nat): (r: Table<K, V>)
    requires Shaped(t)
    ensures Shaped(r)
  {
    if n == 0 then t
    else Del(Set(Rounds(t, hash, zeroKey, zeroVal, k, vs, n - 1), hash, zeroKey, zeroVal, k, vs(n - 1)), hash, k)
  }

  /** The key is absent, and the first free slot on its path is a tombstone that it left. */
  ghost predicate Settled<K, V>(t: Table<K, V>, hash: K -> nat, k: K) {
    && Wf(t, hash) && !Has(t, k) && !NeedsGrowth(t) && HasEmpty(t)
    && exists d :: FirstFree(t, hash, k, d) && t.state[PathSlot(t, hash, k, d)] == 2
  }

  /** Deleting a key leaves its slot as a tombstone on its path. */
  lemma DeletedSlot<K, V>(t: Table<K, V>, hash: K -> nat, k: K) returns (i: nat)
    requires Wf(t, hash) && Has(t, k)
    ensures i < t.Cap() && t.state[i] == 1 && t.keys[i] == k && PathClear(t, hash, k, i)
    ensures Del(t, hash, k).state == t.state[i := 2] && Del(t, hash, k).keys == t.keys
    ensures 2 * |Del(t, hash, k).order| < t.Cap()
  {
    ProbeIsExact(t, hash, k);
    i := Probe(t, hash, k, 0).value;
    assert LiveAt(t, i);
    var p := HasEntry(t, hash, i);
    WithoutAt(t.order, i, p);
  }

  lemma DeletedIsAbsent<K, V>(t: Table<K, V>, r: Table<K, V>, hash: K -> nat, k: K, i: nat)
    requires Wf(t, hash) && Shaped(r) && i < t.Cap() && t.state[i] == 1 && t.keys[i] == k
    requires r.state == t.state[i := 2] && r.keys == t.keys
    ensures !Has(r, k)
  {
    forall s: nat | LiveAt(r, s) ensures r.keys[s] != k {
      assert s != i && LiveAt(t, s) && LiveAt(t, i);
    }
  }

  /** Where the first free slot on the path of a key is, once its own slot is a tombstone. */
  lemma TombOnPath<K, V>(t: Table<K, V>, r: Table<K, V>, hash: K -> nat, k: K, i: nat) returns (d: nat)
    requires t.Cap() > 0 && i < t.Cap() && PathClear(t, hash, k, i) && r.state == t.state[i := 2]
    requires forall s :: 0 <= s < t.Cap() ==> t.state[s] <= 2
    ensures FirstFree(r, hash, k, d) && r.state[PathSlot(r, hash, k, d)] == 2
  {
    hide PathSlot;
    var e := Dist(Home(hash, k, t.Cap()), i, t.Cap());
    SlotIsIndex(r, hash, k, e);
    d := FreeOnPath(r, hash, k, e);
    SlotIsIndex(r, hash, k, d);
    if d < e { assert t.state[Index(Home(hash, k, t.Cap()), d, t.Cap())] != 0; }
  }

  lemma DelSettles<K, V>(t: Table<K, V>, hash: K -> nat, k: K)
    requires Wf(t, hash) && Has(t, k) && HasEmpty(t)
    ensures Settled(Del(t, hash, k), hash, k)
  {
    var r := Del(t, hash, k);
    DelRefines(t, hash, k);
    var i := DeletedSlot(t, hash, k);
    DeletedIsAbsent(t, r, hash, k, i);
    var d := TombOnPath(t, r, hash, k, i);
    var s: nat :| s < t.Cap() && t.state[s] == 0;
    assert r.state[s] == 0;
    hide Del, Entries, Remove, FirstFree, PathSlot, PathClear;
  }

  lemma StoredIsThere<K, V>(t: Table<K, V>, hash: K -> nat, zeroKey: K, zeroVal: V, k: K, v: V)
    requires Wf(t, hash) && (Has(t, k) || NeedsGrowth(t) || HasEmpty(t))
    ensures var u := Set(t, hash, zeroKey, zeroVal, k, v); Wf(u, hash) && Has(u, k)
  {
    SetRefines(t, hash, zeroKey, zeroVal, k, v);
    var u := Set(t, hash, zeroKey, zeroVal, k, v);
    LookupPut(Entries(t), k, v, k);
    GetRefines(u, hash, k);
    ProbeIsExact(u, hash, k);
  }

  lemma SettledRound<K, V>(t: Table<K, V>, hash: K -> nat, zeroKey: K, zeroVal: V, k: K, v: V)
    requires Settled(t, hash, k)
    ensures Settled(Del(Set(t, hash, zeroKey, zeroVal, k, v), hash, k), hash, k)
  {
    var d :| FirstFree(t, hash, k, d) && t.state[PathSlot(t, hash, k, d)] == 2;
    TombstoneIsReused(t, hash, zeroKey, zeroVal, k, v, d);
    var u := Set(t, hash, zeroKey, zeroVal, k, v);
    var s: nat :| s < t.Cap() && t.state[s] == 0;
    assert s in Empties(t);
    StoredIsThere(t, hash, zeroKey, zeroVal, k, v);
    hide Set, Wf, Has, FirstFree, PathSlot, Settled, Del;
    DelSettles(u, hash, k);
  }

  /** The first set of `k` leaves an empty slot. */
  ghost predicate LeavesRoom<K, V>(t: Table<K, V>, hash: K -> nat, k: K)
    requires Shaped(t)
  {
    || Has(t, k) || NeedsGrowth(t)
    || (exists d :: FirstFree(t, hash, k, d) && t.state[PathSlot(t, hash, k, d)] == 2)
    || TwoEmpty(t)
  }

  lemma GrownHasRoom<K, V>(t: Table<K, V>, hash: K -> nat, zeroKey: K, zeroVal: V, k: K, v: V)
    requires Wf(t, hash) && NeedsGrowth(t)
    ensures HasEmpty(Set(t, hash, zeroKey, zeroVal, k, v))
  {
    var g := Grow(t, hash, zeroKey, zeroVal);
    GrowRefines(t, hash, zeroKey, zeroVal);
    SetWithoutTombs(g, hash, zeroKey, zeroVal, k, v);
    var u := Set(t, hash, zeroKey, zeroVal, k, v);
    assert u == Set(g, hash, zeroKey, zeroVal, k, v);
    hide Set, Grow, Entries, Put;
    if !HasEmpty(u) { SlotsCovered(u); }
  }

  lemma SetLeavesRoom<K, V>(t: Table<K, V>, hash: K -> nat, zeroKey: K, zeroVal: V, k: K, v: V)
    requires Wf(t, hash) && HasEmpty(t)
    ensures HasEmpty(Set(t, hash, zeroKey, zeroVal, k, v)) <==> LeavesRoom(t, hash, k)
  {
    var u := Set(t, hash, zeroKey, zeroVal, k, v);
    if NeedsGrowth(t) {
      GrownHasRoom(t, hash, zeroKey, zeroVal, k, v);
    } else if Has(t, k) {
      PlaceOld(t, hash, k, v);
      assert u.state == t.state;
    } else {
      var d := SomeFirstFree(t, hash, k);
      NewKeyTakesFirstFree(t, hash, zeroKey, zeroVal, k, v, d);
      hide Set;
      RoomBesides(t, u, hash, k, d);
    }
  }

  lemma OneFirstFree<K, V>(t: Table<K, V>, hash: K -> nat, k: K, d: nat, e: nat)
    requires t.Cap() > 0 && FirstFree(t, hash, k, d) && FirstFree(t, hash, k, e)
    ensures d == e
  {}

  ghost predicate TwoEmpty<K, V>(t: Table<K, V>) {
    exists s: nat, u: nat :: s < u < t.Cap() && t.state[s] == 0 && t.state[u] == 0
  }

  lemma OtherEmpty<K, V>(t: Table<K, V>, u: Table<K, V>, i: nat)
    requires i < t.Cap() && t.state[i] == 0 && u.state == t.state[i := 1]
    ensures HasEmpty(u) <==> TwoEmpty(t)
  {
    if s: nat :| s < u.Cap() && u.state[s] == 0 {
      var a, b := if s < i then s else i, if s < i then i else s;
      assert a < b < t.Cap() && t.state[a] == 0 && t.state[b] == 0;
    }
    if a: nat, b: nat :| a < b < t.Cap() && t.state[a] == 0 && t.state[b] == 0 {
      assert u.state[if a == i then b else a] == 0;
    }
  }

  lemma RoomBesides<K, V>(t: Table<K, V>, u: Table<K, V>, hash: K -> nat, k: K, d: nat)
    requires Wf(t, hash) && HasEmpty(t) && FirstFree(t, hash, k, d) && !Has(t, k) && !NeedsGrowth(t)
    requires u.state == t.state[PathSlot(t, hash, k, d) := 1]
    ensures HasEmpty(u) <==> LeavesRoom(t, hash, k)
  {
    var i := PathSlot(t, hash, k, d);
    assert t.state[i] == 0 || t.state[i] == 2;
    if t.state[i] == 2 {
      var s: nat :| s < t.Cap() && t.state[s] == 0;
      assert u.state[s] == 0;
    } else {
      OtherEmpty(t, u, i);
      hide PathSlot, FirstFree, HasEmpty, TwoEmpty, Wf, Has;
      forall e | FirstFree(t, hash, k, e) ensures e == d { OneFirstFree(t, hash, k, d, e); }
    }
  }

  /**
   From a table with an empty slot, setting and deleting one key any number of times leaves an empty
   slot, and so the next set of the key is stored, if and only if the first set leaves one: the key
   is there, the table grows, its path meets a tombstone first, or another slot is empty.
   */
  lemma {:induction false} RoundsLeaveRoom<K, V>(t: Table<K, V>, hash: K -> nat, zeroKey: K, zeroVal: V, k: K,
                                                 vs: nat -> V, n: nat)
    requires Wf(t, hash) && HasEmpty(t) && LeavesRoom(t, hash, k)
    ensures var r := Rounds(t, hash, zeroKey, zeroVal, k, vs, n);
            Wf(r, hash) && HasEmpty(r) && (n > 0 ==> Settled(r, hash, k))
    decreases n
  {
    hide Wf, HasEmpty, Has, LeavesRoom, Set, Del;
    ShapeOf(t, hash);
    if n > 0 {
      var r := Rounds(t, hash, zeroKey, zeroVal, k, vs, n - 1);
      RoundsLeaveRoom(t, hash, zeroKey, zeroVal, k, vs, n - 1);
      if n == 1 {
        SetLeavesRoom(t, hash, zeroKey, zeroVal, k, vs(0));
        StoredIsThere(t, hash, zeroKey, zeroVal, k, vs(0));
        DelSettles(Set(t, hash, zeroKey, zeroVal, k, vs(0)), hash, k);
      } else {
        SettledRound(r, hash, zeroKey, zeroVal, k, vs(n - 1));
      }
    }
  }

  /** Otherwise the second set of the key is lost. */
  lemma SecondSetIsLost<K, V>(t: Table<K, V>, hash: K -> nat, zeroKey: K, zeroVal: V, k: K, vs: nat -> V, v: V)
    requires Wf(t, hash) && HasEmpty(t) && !LeavesRoom(t, hash, k)
    ensures var r := Rounds(t, hash, zeroKey, zeroVal, k, vs, 1);
            Wf(r, hash) && Set(r, hash, zeroKey, zeroVal, k, v) == r && !Has(r, k)
  {
    var u := Set(t, hash, zeroKey, zeroVal, k, vs(0));
    assert Rounds(t, hash, zeroKey, zeroVal, k, vs, 0) == t;
    SetLeavesRoom(t, hash, zeroKey, zeroVal, k, vs(0));
    StoredIsThere(t, hash, zeroKey, zeroVal, k, vs(0));
    var r := Del(u, hash, k);
    DelRefines(u, hash, k);
    var i := DeletedSlot(u, hash, k);
    DeletedIsAbsent(u, r, hash, k, i);
    assert !HasEmpty(r);
    hide Set, Del, Wf, Entries, Remove;
    SetRefines(r, hash, zeroKey, zeroVal, k, v);
    SmallIsNotGrown(r, i);
  }

  lemma SmallIsNotGrown<K, V>(r: Table<K, V>, i: nat)
    requires i < r.Cap() && 2 * |r.order| < r.Cap()
    ensures !NeedsGrowth(r)
  {}

  /** The next set of the key after any number of rounds is stored for good, exactly under that condition. */
  lemma NextSetIsStored<K, V>(t: Table<K, V>, hash: K -> nat, zeroKey: K, zeroVal: V, k: K, vs: nat -> V)
    requires Wf(t, hash) && HasEmpty(t)
    ensures (forall n: nat :: var r := Rounds(t, hash, zeroKey, zeroVal, k, vs, n);
               Lookup(Entries(Set(r, hash, zeroKey, zeroVal, k, vs(n))), k) == Some(vs(n)))
            <==> LeavesRoom(t, hash, k)
  {
    hide Wf, HasEmpty, Has, LeavesRoom, Set, Del, Rounds, Entries, Lookup;
    ShapeOf(t, hash);
    if LeavesRoom(t, hash, k) {
      forall n: nat
        ensures var r := Rounds(t, hash, zeroKey, zeroVal, k, vs, n);
                Lookup(Entries(Set(r, hash, zeroKey, zeroVal, k, vs(n))), k) == Some(vs(n))
      {
        var r := Rounds(t, hash, zeroKey, zeroVal, k, vs, n);
        RoundsLeaveRoom(t, hash, zeroKey, zeroVal, k, vs, n);
        SetRefines(r, hash, zeroKey, zeroVal, k, vs(n));
        LookupPut(Entries(r), k, vs(n), k);
      }
    } else {
      var r := Rounds(t, hash, zeroKey, zeroVal, k, vs, 1);
      SecondSetIsLost(t, hash, zeroKey, zeroVal, k, vs, vs(1));
      GetRefines(r, hash, k);
      AbsentIsNone(r, hash, k);
    }
  }

  lemma AbsentIsNone<K, V>(t: Table<K, V>, hash: K -> nat, k: K)
    requires Wf(t, hash) && !Has(t, k)
    ensures Probe(t, hash, k, 0) == None
  {
    ProbeIsExact(t, hash, k);
  }

  /** Setting doubles the capacity exactly when at least half of the slots are live. */
  lemma GrowsAtHalf<K, V>(t: Table<K, V>, hash: K -> nat, zeroKey: K, zeroVal: V, k: K, v: V)
    requires Wf(t, hash)
    ensures Set(t, hash, zeroKey, zeroVal, k, v).Cap() == if 2 * |t.order| >= t.Cap() then 2 * t.Cap() else t.Cap()
  {}
}
