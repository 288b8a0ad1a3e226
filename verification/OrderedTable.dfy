/**
 The insertion-ordered open-addressing table of runtime/sere_rt.c, as a value.

 `state` is 0 for an empty slot, 1 for a live one and 2 for a tombstone. `order` lists the live
 slots in insertion order. The functions are what each C routine does to the table; the lemmas
 relate them to an insertion-ordered association list.
 */
module OrderedTable {
  import opened Wrappers

  datatype Table<K, V> = Table(keys: seq<K>, vals: seq<V>, state: seq<nat>, order: seq<nat>) {
    function Cap(): nat { |state| }
  }

  // ---------------------------------------------------------------- probing

  /** The slot `n` steps after `home`, around the end of the table. */
  function Index(home: nat, n: nat, cap: nat): (r: nat)
    requires home < cap && n < cap
    ensures r < cap
  {
    if home + n < cap then home + n else home + n - cap
  }

  function Dist(home: nat, s: nat, cap: nat): (d: nat)
    requires home < cap && s < cap
    ensures d < cap && Index(home, d, cap) == s
  {
    if s >= home then s - home else s + cap - home
  }

  /** The source's `(slot + n) % cap`. */
  lemma IndexIsMod(home: nat, n: nat, cap: nat)
    requires home < cap && n < cap
    ensures (home + n) % cap == Index(home, n, cap)
  {
    if home + n >= cap {
      assert home + n == cap * 1 + (home + n - cap);
    }
  }

  function Home<K>(hash: K -> nat, k: K, cap: nat): (r: nat)
    requires cap > 0
    ensures r < cap
  {
    hash(k) % cap
  }

  ghost predicate Shaped<K, V>(t: Table<K, V>) {
    && t.Cap() > 0 && |t.keys| == t.Cap() && |t.vals| == t.Cap()
    && forall p :: 0 <= p < |t.order| ==> t.order[p] < t.Cap()
  }

  /** `sere_dict_get` and the search of `sere_dict_del`. */
  function Probe<K(==), V>(t: Table<K, V>, hash: K -> nat, k: K, n: nat): (r: Option<nat>)
    requires t.Cap() > 0 && |t.keys| == t.Cap() && n <= t.Cap()
    ensures r.Some? ==> r.value < t.Cap() && t.state[r.value] == 1 && t.keys[r.value] == k
    decreases t.Cap() - n
  {
    if n == t.Cap() then None
    else
      var i := Index(Home(hash, k, t.Cap()), n, t.Cap());
      if t.state[i] == 0 then None
      else if t.state[i] == 1 && t.keys[i] == k then Some(i)
      else Probe(t, hash, k, n + 1)
  }

  datatype Spot = Update(i: nat) | Insert(i: nat) | Full

  /** The search of `sere_dict_set`, which remembers the first tombstone it passes. */
  function Seek<K(==), V>(t: Table<K, V>, hash: K -> nat, k: K, n: nat, tomb: Option<nat>): (r: Spot)
    requires t.Cap() > 0 && |t.keys| == t.Cap() && n <= t.Cap() && (tomb.Some? ==> tomb.value < t.Cap())
    ensures !r.Full? ==> r.i < t.Cap()
    decreases t.Cap() - n
  {
    if n == t.Cap() then Full
    else
      var i := Index(Home(hash, k, t.Cap()), n, t.Cap());
      if t.state[i] == 0 then Insert(if tomb.Some? then tomb.value else i)
      else if t.state[i] == 2 then Seek(t, hash, k, n + 1, if tomb.None? then Some(i) else tomb)
      else if t.keys[i] == k then Update(i)
      else Seek(t, hash, k, n + 1, tomb)
  }

  // ---------------------------------------------------------------- the operations

  /** The part of `sere_dict_set` after the growth check. */
  function Place<K(==), V>(t: Table<K, V>, hash: K -> nat, k: K, v: V): (r: Table<K, V>)
    requires Shaped(t)
    ensures Shaped(r) && r.Cap() == t.Cap()
  {
    match Seek(t, hash, k, 0, None)
    case Update(i) => t.(vals := t.vals[i := v])
    case Insert(i) =>
      Table(t.keys[i := k], t.vals[i := v], t.state[i := 1], t.order + [i])
    case Full => t
  }

  function Blank<K, V>(cap: nat, zeroKey: K, zeroVal: V): Table<K, V> {
    Table(seq(cap, _ => zeroKey), seq(cap, _ => zeroVal), seq(cap, _ => 0), [])
  }

  function GrownCap(cap: nat): nat { if cap == 0 then 8 else cap * 2 }

  predicate NeedsGrowth<K, V>(t: Table<K, V>) { t.Cap() == 0 || |t.order| * 2 >= t.Cap() }

  /** Places the entries of `t` from position `p` of the order on into `into`. */
  function Reinsert<K(==), V>(t: Table<K, V>, hash: K -> nat, into: Table<K, V>, p: nat): (r: Table<K, V>)
    requires Shaped(t) && Shaped(into) && p <= |t.order|
    ensures Shaped(r) && r.Cap() == into.Cap()
    decreases |t.order| - p
  {
    if p == |t.order| then into
    else Reinsert(t, hash, Place(into, hash, t.keys[t.order[p]], t.vals[t.order[p]]), p + 1)
  }

  /** `dictGrow`. */
  function Grow<K(==), V>(t: Table<K, V>, hash: K -> nat, zeroKey: K, zeroVal: V): (r: Table<K, V>)
    requires Shaped(t)
    ensures Shaped(r) && r.Cap() == 2 * t.Cap()
  {
    Reinsert(t, hash, Blank(GrownCap(t.Cap()), zeroKey, zeroVal), 0)
  }

  /** `sere_dict_set`. */
  function Set<K(==), V>(t: Table<K, V>, hash: K -> nat, zeroKey: K, zeroVal: V, k: K, v: V): (r: Table<K, V>)
    requires Shaped(t)
    ensures Shaped(r)
  {
    Place(if NeedsGrowth(t) then Grow(t, hash, zeroKey, zeroVal) else t, hash, k, v)
  }

  /** The order without the first occurrence of slot `i`. */
  function Without(order: seq<nat>, i: nat): (r: seq<nat>)
    ensures forall x :: x in r ==> x in order
  {
    if order == [] then []
    else if order[0] == i then order[1..]
    else [order[0]] + Without(order[1..], i)
  }

  /** `sere_dict_del`. */
  function Del<K(==), V>(t: Table<K, V>, hash: K -> nat, k: K): (r: Table<K, V>)
    requires Shaped(t)
    ensures Shaped(r)
  {
    match Probe(t, hash, k, 0)
    case Some(i) =>
      var order := Without(t.order, i);
      assert forall p :: 0 <= p < |order| ==> order[p] in t.order;
      t.(state := t.state[i := 2], order := order)
    case None => t
  }

  // ---------------------------------------------------------------- the invariant

  /** Every slot a search for `k` passes before slot `s` is in use or a tombstone. */
  ghost predicate PathClear<K, V>(t: Table<K, V>, hash: K -> nat, k: K, s: nat)
    requires s < t.Cap()
  {
    var home := Home(hash, k, t.Cap());
    forall m :: 0 <= m < Dist(home, s, t.Cap()) ==> t.state[Index(home, m, t.Cap())] != 0
  }

  ghost predicate LiveAt<K, V>(t: Table<K, V>, s: nat) { s < t.Cap() && t.state[s] == 1 }

  /** `order` lists exactly the live slots, once each. */
  ghost predicate Listed<K, V>(t: Table<K, V>) {
    && (forall p :: 0 <= p < |t.order| ==> LiveAt(t, t.order[p]))
    && (forall p, q :: 0 <= p < q < |t.order| ==> t.order[p] != t.order[q])
    && (forall s: nat :: LiveAt(t, s) ==> s in t.order)
  }

  ghost predicate Findable<K, V>(t: Table<K, V>, hash: K -> nat)
    requires Shaped(t)
  {
    && (forall s: nat :: LiveAt(t, s) ==> PathClear(t, hash, t.keys[s], s))
    && (forall s: nat, u: nat :: LiveAt(t, s) && LiveAt(t, u) && t.keys[s] == t.keys[u] ==> s == u)
  }

  ghost predicate Wf<K, V>(t: Table<K, V>, hash: K -> nat) {
    && Shaped(t) && Listed(t) && Findable(t, hash)
    && 2 * |t.order| <= t.Cap() && t.Cap() % 2 == 0
    && forall s :: 0 <= s < t.Cap() ==> t.state[s] <= 2
  }

  ghost predicate Has<K, V>(t: Table<K, V>, k: K)
    requires Shaped(t)
  {
    exists s: nat :: LiveAt(t, s) && t.keys[s] == k
  }

  ghost predicate HasEmpty<K, V>(t: Table<K, V>) {
    exists s: nat :: s < t.Cap() && t.state[s] == 0
  }

  // ---------------------------------------------------------------- searching is right

  lemma {:induction false} ProbeFinds<K, V>(t: Table<K, V>, hash: K -> nat, k: K, n: nat, s: nat)
    requires Shaped(t) && Findable(t, hash) && LiveAt(t, s) && t.keys[s] == k
    requires n <= Dist(Home(hash, k, t.Cap()), s, t.Cap())
    ensures Probe(t, hash, k, n) == Some(s)
    decreases t.Cap() - n
  {
    var home, cap := Home(hash, k, t.Cap()), t.Cap();
    assert PathClear(t, hash, k, s);
    if n < Dist(home, s, cap) {
      var i := Index(home, n, cap);
      assert t.state[i] != 0;
      if t.state[i] == 1 && t.keys[i] == k {
        assert LiveAt(t, i);
      } else {
        ProbeFinds(t, hash, k, n + 1, s);
      }
    }
  }

  /** A search finds the slot of the key if it is in the table, and nothing otherwise. */
  lemma ProbeIsExact<K, V>(t: Table<K, V>, hash: K -> nat, k: K)
    requires Shaped(t) && Findable(t, hash)
    ensures Probe(t, hash, k, 0).Some? <==> Has(t, k)
    ensures forall s: nat :: LiveAt(t, s) && t.keys[s] == k ==> Probe(t, hash, k, 0) == Some(s)
  {
    forall s: nat | LiveAt(t, s) && t.keys[s] == k ensures Probe(t, hash, k, 0) == Some(s) {
      ProbeFinds(t, hash, k, 0, s);
    }
    var r := Probe(t, hash, k, 0);
    if r.Some? { assert LiveAt(t, r.value); }
  }

  lemma {:induction false} SeekFinds<K, V>(t: Table<K, V>, hash: K -> nat, k: K, n: nat, tomb: Option<nat>, s: nat)
    requires Shaped(t) && Findable(t, hash) && LiveAt(t, s) && t.keys[s] == k
    requires n <= Dist(Home(hash, k, t.Cap()), s, t.Cap()) && (tomb.Some? ==> tomb.value < t.Cap())
    requires forall u :: 0 <= u < t.Cap() ==> t.state[u] <= 2
    ensures Seek(t, hash, k, n, tomb) == Update(s)
    decreases t.Cap() - n
  {
    var home, cap := Home(hash, k, t.Cap()), t.Cap();
    assert PathClear(t, hash, k, s);
    if n < Dist(home, s, cap) {
      var i := Index(home, n, cap);
      assert t.state[i] != 0;
      if t.state[i] == 1 && t.keys[i] == k {
        assert LiveAt(t, i);
      } else {
        SeekFinds(t, hash, k, n + 1, if t.state[i] == 2 && tomb.None? then Some(i) else tomb, s);
      }
    }
  }

  /** What the search for an absent key knows after `n` steps. */
  ghost predicate Passed<K, V>(t: Table<K, V>, home: nat, n: nat, tomb: Option<nat>)
    requires home < t.Cap() && n <= t.Cap()
  {
    && (forall m :: 0 <= m < n ==> t.state[Index(home, m, t.Cap())] != 0)
    && (tomb.Some? ==> tomb.value < t.Cap() && t.state[tomb.value] == 2 && Dist(home, tomb.value, t.Cap()) < n)
  }

  lemma {:induction false} SeekPlaces<K, V>(t: Table<K, V>, hash: K -> nat, k: K, n: nat, tomb: Option<nat>)
    requires Shaped(t) && n <= t.Cap() && !Has(t, k) && forall s :: 0 <= s < t.Cap() ==> t.state[s] <= 2
    requires Passed(t, Home(hash, k, t.Cap()), n, tomb)
    ensures var spot := Seek(t, hash, k, n, tomb);
            && !spot.Update?
            && (spot.Insert? ==> t.state[spot.i] != 1 && PathClear(t, hash, k, spot.i))
            && (spot.Full? <==> forall m :: n <= m < t.Cap() ==>
                  t.state[Index(Home(hash, k, t.Cap()), m, t.Cap())] != 0)
    decreases t.Cap() - n
  {
    var home, cap := Home(hash, k, t.Cap()), t.Cap();
    if n < cap {
      var i := Index(home, n, cap);
      if t.state[i] == 0 {
        var dest := if tomb.Some? then tomb.value else i;
        assert Dist(home, dest, cap) <= n;
      } else {
        if t.state[i] == 1 { assert LiveAt(t, i); }
        SeekPlaces(t, hash, k, n + 1, if t.state[i] == 2 && tomb.None? then Some(i) else tomb);
      }
    }
  }

  /** For an absent key the search ends at a free slot exactly when the table has an empty one. */
  lemma SeekAbsent<K, V>(t: Table<K, V>, hash: K -> nat, k: K)
    requires Shaped(t) && !Has(t, k) && forall s :: 0 <= s < t.Cap() ==> t.state[s] <= 2
    ensures var spot := Seek(t, hash, k, 0, None);
            && !spot.Update? && (spot.Insert? <==> HasEmpty(t))
            && (spot.Insert? ==> t.state[spot.i] != 1 && PathClear(t, hash, k, spot.i))
  {
    var home, cap := Home(hash, k, t.Cap()), t.Cap();
    SeekPlaces(t, hash, k, 0, None);
    if HasEmpty(t) {
      var s: nat :| s < cap && t.state[s] == 0;
      assert t.state[Index(home, Dist(home, s, cap), cap)] == 0;
    }
  }

  // ---------------------------------------------------------------- the association list

  /** The entries in insertion order. */
  function Entries<K, V>(t: Table<K, V>): seq<(K, V)>
    requires Shaped(t)
  {
    seq(|t.order|, p requires 0 <= p < |t.order| => (t.keys[t.order[p]], t.vals[t.order[p]]))
  }

  function Lookup<K(==), V>(e: seq<(K, V)>, k: K): Option<V> {
    if e == [] then None else if e[0].0 == k then Some(e[0].1) else Lookup(e[1..], k)
  }

  function Put<K(==), V>(e: seq<(K, V)>, k: K, v: V): seq<(K, V)> {
    if e == [] then [(k, v)]
    else if e[0].0 == k then [(k, v)] + e[1..]
    else [e[0]] + Put(e[1..], k, v)
  }

  function Remove<K(==), V>(e: seq<(K, V)>, k: K): seq<(K, V)> {
    if e == [] then []
    else if e[0].0 == k then e[1..]
    else [e[0]] + Remove(e[1..], k)
  }

  /** Position `p` is the first one with key `k`. */
  ghost predicate FirstAt<K, V>(e: seq<(K, V)>, k: K, p: nat) {
    p < |e| && e[p].0 == k && forall q :: 0 <= q < p ==> e[q].0 != k
  }

  lemma {:induction false} PutAt<K, V>(e: seq<(K, V)>, k: K, v: V, p: nat)
    requires FirstAt(e, k, p)
    ensures Lookup(e, k) == Some(e[p].1) && Put(e, k, v) == e[p := (k, v)]
    decreases p
  {
    if p > 0 {
      assert FirstAt(e[1..], k, p - 1);
      PutAt(e[1..], k, v, p - 1);
      assert e[p := (k, v)] == [e[0]] + e[1..][p - 1 := (k, v)];
    }
  }

  lemma {:induction false} RemoveAt<K, V>(e: seq<(K, V)>, k: K, p: nat)
    requires FirstAt(e, k, p)
    ensures Remove(e, k) == e[..p] + e[p + 1..]
    decreases p
  {
    if p > 0 {
      assert FirstAt(e[1..], k, p - 1);
      RemoveAt(e[1..], k, p - 1);
    }
  }

  lemma {:induction false} AssocMissing<K, V>(e: seq<(K, V)>, k: K, v: V)
    requires forall q :: 0 <= q < |e| ==> e[q].0 != k
    ensures Lookup(e, k) == None && Put(e, k, v) == e + [(k, v)] && Remove(e, k) == e
    decreases |e|
  {
    if e != [] {
      AssocMissing(e[1..], k, v);
      assert e == [e[0]] + e[1..];
    }
  }

  lemma {:induction false} WithoutAt(order: seq<nat>, i: nat, p: nat)
    requires p < |order| && order[p] == i && forall q :: 0 <= q < p ==> order[q] != i
    ensures Without(order, i) == order[..p] + order[p + 1..]
    decreases p
  {
    if p > 0 { WithoutAt(order[1..], i, p - 1); }
  }

  // ---------------------------------------------------------------- counting slots

  lemma {:induction false} Upto(n: nat) returns (s: set<nat>)
    ensures |s| == n && forall i: nat :: i in s <==> i < n
  {
    if n == 0 {
      s := {};
    } else {
      var r := Upto(n - 1);
      s := r + {n - 1};
    }
  }

  function Elements(xs: seq<nat>): set<nat> { set x | x in xs }

  lemma {:induction false} ElementsBound(xs: seq<nat>)
    ensures |Elements(xs)| <= |xs|
  {
    if xs == [] {
      assert Elements(xs) == {};
    } else {
      ElementsBound(xs[1..]);
      assert Elements(xs) == Elements(xs[1..]) + {xs[0]};
    }
  }

  lemma {:induction false} SubsetSize(a: set<nat>, b: set<nat>)
    requires a <= b
    ensures |a| <= |b|
  {
    assert b == a + (b - a);
  }

  ghost function Tombs<K, V>(t: Table<K, V>): set<nat> {
    set s: nat | s < t.Cap() && t.state[s] == 2
  }

  lemma SlotsCovered<K, V>(t: Table<K, V>)
    requires Listed(t) && !HasEmpty(t) && forall s :: 0 <= s < t.Cap() ==> t.state[s] <= 2
    ensures t.Cap() <= |t.order| + |Tombs(t)|
  {
    var all := Upto(t.Cap());
    var used := Elements(t.order) + Tombs(t);
    forall s | s in all ensures s in used {
      assert t.state[s] != 0;
      if t.state[s] == 1 { assert LiveAt(t, s); }
    }
    SubsetSize(all, used);
    ElementsBound(t.order);
    assert |used| == |Elements(t.order)| + |Tombs(t)| - |Elements(t.order) * Tombs(t)|;
  }

  /** As long as at most half the slots are tombstones, a table that need not grow has a free one. */
  lemma FewTombsLeaveRoom<K, V>(t: Table<K, V>, hash: K -> nat)
    requires Wf(t, hash) && !NeedsGrowth(t) && 2 * |Tombs(t)| <= t.Cap()
    ensures HasEmpty(t)
  {
    if !HasEmpty(t) { SlotsCovered(t); }
  }

  // ---------------------------------------------------------------- refinement

  /** The entry of a live slot stands in the list at the slot's position in the order. */
  lemma HasEntry<K, V>(t: Table<K, V>, hash: K -> nat, s: nat) returns (p: nat)
    requires Wf(t, hash) && LiveAt(t, s)
    ensures p < |t.order| && t.order[p] == s && FirstAt(Entries(t), t.keys[s], p)
  {
    p :| p < |t.order| && t.order[p] == s;
    forall q | 0 <= q < p ensures Entries(t)[q].0 != t.keys[s] {
      assert LiveAt(t, t.order[q]);
    }
  }

  lemma NoEntry<K, V>(t: Table<K, V>, hash: K -> nat, k: K)
    requires Wf(t, hash) && !Has(t, k)
    ensures forall q :: 0 <= q < |Entries(t)| ==> Entries(t)[q].0 != k
  {
    forall q | 0 <= q < |Entries(t)| ensures Entries(t)[q].0 != k {
      assert LiveAt(t, t.order[q]);
    }
  }

  /** `sere_dict_get` agrees with the list. */
  lemma GetRefines<K, V>(t: Table<K, V>, hash: K -> nat, k: K)
    requires Wf(t, hash)
    ensures var i := Probe(t, hash, k, 0);
            Lookup(Entries(t), k) == if i.Some? then Some(t.vals[i.value]) else None
  {
    ProbeIsExact(t, hash, k);
    var i := Probe(t, hash, k, 0);
    if i.Some? {
      assert LiveAt(t, i.value);
      var p := HasEntry(t, hash, i.value);
      PutAt(Entries(t), k, t.vals[i.value], p);
    } else {
      NoEntry(t, hash, k);
      if t.Cap() > 0 { AssocMissing(Entries(t), k, t.vals[0]); }
    }
  }

  lemma PlaceOld<K, V>(t: Table<K, V>, hash: K -> nat, k: K, v: V)
    requires Wf(t, hash) && Has(t, k)
    ensures Wf(Place(t, hash, k, v), hash) && Entries(Place(t, hash, k, v)) == Put(Entries(t), k, v)
    ensures Place(t, hash, k, v).state == t.state && Place(t, hash, k, v).order == t.order
  {
    var s: nat :| LiveAt(t, s) && t.keys[s] == k;
    SeekFinds(t, hash, k, 0, None, s);
    var r := Place(t, hash, k, v);
    var p := HasEntry(t, hash, s);
    PutAt(Entries(t), k, v, p);
    forall u: nat | LiveAt(r, u) ensures PathClear(r, hash, r.keys[u], u) {
      assert LiveAt(t, u) && PathClear(t, hash, t.keys[u], u);
    }
    assert Entries(r) == Entries(t)[p := (k, v)];
    assert forall u: nat :: LiveAt(r, u) <==> LiveAt(t, u);
  }

  lemma PlaceNew<K, V>(t: Table<K, V>, hash: K -> nat, k: K, v: V)
    requires Wf(t, hash) && !Has(t, k) && HasEmpty(t) && 2 * (|t.order| + 1) <= t.Cap()
    ensures Wf(Place(t, hash, k, v), hash) && Entries(Place(t, hash, k, v)) == Put(Entries(t), k, v)
    ensures |Place(t, hash, k, v).order| == |t.order| + 1
    ensures Tombs(t) == {} ==> Tombs(Place(t, hash, k, v)) == {}
  {
    SeekAbsent(t, hash, k);
    var d := Seek(t, hash, k, 0, None).i;
    PlacedWf(t, hash, k, v, d);
    NoEntry(t, hash, k);
    AssocMissing(Entries(t), k, v);
    var r := Place(t, hash, k, v);
    assert Entries(r) == Entries(t) + [(k, v)] by {
      forall p | 0 <= p < |t.order| ensures Entries(r)[p] == Entries(t)[p] {
        assert LiveAt(t, t.order[p]);
      }
    }
  }

  lemma PlacedWf<K, V>(t: Table<K, V>, hash: K -> nat, k: K, v: V, d: nat)
    requires Wf(t, hash) && !Has(t, k) && 2 * (|t.order| + 1) <= t.Cap()
    requires d < t.Cap() && t.state[d] != 1 && PathClear(t, hash, k, d)
    ensures Wf(Table(t.keys[d := k], t.vals[d := v], t.state[d := 1], t.order + [d]), hash)
  {
    var r := Table(t.keys[d := k], t.vals[d := v], t.state[d := 1], t.order + [d]);
    forall s: nat | LiveAt(r, s) ensures s in r.order && PathClear(r, hash, r.keys[s], s) {
      if s != d { assert LiveAt(t, s) && PathClear(t, hash, t.keys[s], s); }
      else { assert r.order[|t.order|] == d; }
    }
    forall p | 0 <= p < |r.order| ensures LiveAt(r, r.order[p]) {
      if p < |t.order| { assert LiveAt(t, t.order[p]); }
    }
    forall s: nat, u: nat | LiveAt(r, s) && LiveAt(r, u) && r.keys[s] == r.keys[u] ensures s == u {
      if s != d { assert LiveAt(t, s); }
      if u != d { assert LiveAt(t, u); }
    }
  }

  /** A new key that finds no free slot is not written at all. */
  lemma PlaceFull<K, V>(t: Table<K, V>, hash: K -> nat, k: K, v: V)
    requires Wf(t, hash) && !Has(t, k) && !HasEmpty(t)
    ensures Place(t, hash, k, v) == t
  {
    SeekAbsent(t, hash, k);
  }

  // ---------------------------------------------------------------- growth

  lemma {:induction false} ReinsertRefines<K, V>(t: Table<K, V>, hash: K -> nat, into: Table<K, V>, p: nat)
    requires Wf(t, hash) && Wf(into, hash) && into.Cap() == 2 * t.Cap() && Tombs(into) == {}
    requires p <= |t.order| && Entries(into) == Entries(t)[..p]
    ensures var r := Reinsert(t, hash, into, p);
            Wf(r, hash) && Entries(r) == Entries(t) && Tombs(r) == {}
    decreases |t.order| - p
  {
    if p == |t.order| {
      assert Entries(t)[..p] == Entries(t);
    } else {
      hide Wf, Tombs, Place, Entries;
      ReinsertOne(t, hash, into, p);
      ReinsertRefines(t, hash, Place(into, hash, t.keys[t.order[p]], t.vals[t.order[p]]), p + 1);
    }
  }

  /** One entry more in the wider table. */
  lemma ReinsertOne<K, V>(t: Table<K, V>, hash: K -> nat, into: Table<K, V>, p: nat)
    requires Wf(t, hash) && Wf(into, hash) && into.Cap() == 2 * t.Cap() && Tombs(into) == {}
    requires p < |t.order| && Entries(into) == Entries(t)[..p]
    ensures t.order[p] < |t.keys| && t.order[p] < |t.vals|
    ensures var next := Place(into, hash, t.keys[t.order[p]], t.vals[t.order[p]]);
            Wf(next, hash) && next.Cap() == into.Cap() && Tombs(next) == {} && Entries(next) == Entries(t)[..p + 1]
  {
    var k, v := t.keys[t.order[p]], t.vals[t.order[p]];
    assert |into.order| == |Entries(into)| == p;
    assert LiveAt(t, t.order[p]);
    assert !Has(into, k) by { FreshKey(t, hash, into, p); }
    assert HasEmpty(into) by { if !HasEmpty(into) { SlotsCovered(into); } }
    hide Has, HasEmpty, PathClear;
    PlaceNew(into, hash, k, v);
    NoEntry(into, hash, k);
    AssocMissing(Entries(into), k, v);
    assert Entries(t)[..p + 1] == Entries(t)[..p] + [(k, v)];
  }

  lemma FreshKey<K, V>(t: Table<K, V>, hash: K -> nat, into: Table<K, V>, p: nat)
    requires Wf(t, hash) && Wf(into, hash) && p < |t.order| && Entries(into) == Entries(t)[..p]
    ensures !Has(into, t.keys[t.order[p]])
  {
    forall s: nat | LiveAt(into, s) ensures into.keys[s] != t.keys[t.order[p]] {
      var q := HasEntry(into, hash, s);
      assert Entries(into)[q] == Entries(t)[q];
      assert LiveAt(t, t.order[q]) && LiveAt(t, t.order[p]) && t.order[q] != t.order[p];
    }
  }

  lemma BlankWf<K, V>(hash: K -> nat, cap: nat, zeroKey: K, zeroVal: V)
    requires cap > 0 && cap % 2 == 0
    ensures var b := Blank(cap, zeroKey, zeroVal);
            Wf(b, hash) && Entries(b) == [] && Tombs(b) == {}
  {
    var b := Blank(cap, zeroKey, zeroVal);
    assert forall s: nat :: !LiveAt(b, s);
  }

  /** Growing keeps the entries and their order and drops every tombstone. */
  lemma GrowRefines<K, V>(t: Table<K, V>, hash: K -> nat, zeroKey: K, zeroVal: V)
    requires Wf(t, hash)
    ensures var r := Grow(t, hash, zeroKey, zeroVal);
            Wf(r, hash) && Entries(r) == Entries(t) && HasEmpty(r) && !NeedsGrowth(r) && Tombs(r) == {}
  {
    var blank := Blank(2 * t.Cap(), zeroKey, zeroVal);
    BlankWf(hash, 2 * t.Cap(), zeroKey, zeroVal);
    assert Entries(t)[..0] == [];
    ReinsertRefines(t, hash, blank, 0);
    var r := Grow(t, hash, zeroKey, zeroVal);
    assert |r.order| == |Entries(r)| == |t.order|;
    if !HasEmpty(r) { SlotsCovered(r); }
  }

  // ---------------------------------------------------------------- the three operations

  /**
   `sere_dict_set` stores the entry when the key is present, when the table grows first or when an
   empty slot remains; otherwise it silently leaves the table as it was.
   */
  lemma SetRefines<K, V>(t: Table<K, V>, hash: K -> nat, zeroKey: K, zeroVal: V, k: K, v: V)
    requires Wf(t, hash)
    ensures var r := Set(t, hash, zeroKey, zeroVal, k, v);
            && Wf(r, hash)
            && (if Has(t, k) || NeedsGrowth(t) || HasEmpty(t) then Entries(r) == Put(Entries(t), k, v) else r == t)
  {
    var g := if NeedsGrowth(t) then Grow(t, hash, zeroKey, zeroVal) else t;
    if NeedsGrowth(t) { GrowRefines(t, hash, zeroKey, zeroVal); }
    assert |g.order| == |Entries(g)|;
    if Has(g, k) {
      PlaceOld(g, hash, k, v);
    } else if HasEmpty(g) {
      PlaceNew(g, hash, k, v);
    } else {
      PlaceFull(g, hash, k, v);
    }
  }

  /** `sere_dict_del` removes exactly the entry of the key. */
  lemma DelRefines<K, V>(t: Table<K, V>, hash: K -> nat, k: K)
    requires Wf(t, hash)
    ensures var r := Del(t, hash, k);
            Wf(r, hash) && Entries(r) == Remove(Entries(t), k)
  {
    ProbeIsExact(t, hash, k);
    var i := Probe(t, hash, k, 0);
    if i.Some? {
      assert LiveAt(t, i.value);
      var p := HasEntry(t, hash, i.value);
      WithoutAt(t.order, i.value, p);
      DeletedWf(t, hash, p);
      RemoveAt(Entries(t), k, p);
      DeletedEntries(t, p);
    } else {
      NoEntry(t, hash, k);
      AssocMissing(Entries(t), k, t.vals[0]);
    }
  }

  lemma DeletedEntries<K, V>(t: Table<K, V>, p: nat)
    requires Shaped(t) && p < |t.order|
    ensures var r := t.(state := t.state[t.order[p] := 2], order := t.order[..p] + t.order[p + 1..]);
            Shaped(r) && Entries(r) == Entries(t)[..p] + Entries(t)[p + 1..]
  {
    var r := t.(state := t.state[t.order[p] := 2], order := t.order[..p] + t.order[p + 1..]);
    var e := Entries(t)[..p] + Entries(t)[p + 1..];
    forall q | 0 <= q < |r.order| ensures r.order[q] < t.Cap() && Entries(r)[q] == e[q] {
      assert r.order[q] == t.order[if q < p then q else q + 1];
    }
    assert |Entries(r)| == |e|;
  }

  lemma WithoutElements(xs: seq<nat>, p: nat)
    requires p < |xs| && forall a, b :: 0 <= a < b < |xs| ==> xs[a] != xs[b]
    ensures var ys := xs[..p] + xs[p + 1..];
            && (forall a, b :: 0 <= a < b < |ys| ==> ys[a] != ys[b])
            && (forall x :: x in ys <==> x in xs && x != xs[p])
  {
    var ys := xs[..p] + xs[p + 1..];
    forall x ensures x in ys <==> x in xs && x != xs[p] {
      if x in xs && x != xs[p] {
        var a :| 0 <= a < |xs| && xs[a] == x;
        assert ys[if a < p then a else a - 1] == x;
      }
    }
  }

  lemma DeletedWf<K, V>(t: Table<K, V>, hash: K -> nat, p: nat)
    requires Wf(t, hash) && p < |t.order|
    ensures Wf(t.(state := t.state[t.order[p] := 2], order := t.order[..p] + t.order[p + 1..]), hash)
  {
    WithoutElements(t.order, p);
    var order := t.order[..p] + t.order[p + 1..];
    assert |order| == |t.order| - 1;
    DeletedWfFor(t, hash, p, order);
  }

  lemma DeletedWfFor<K, V>(t: Table<K, V>, hash: K -> nat, p: nat, order: seq<nat>)
    requires Wf(t, hash) && p < |t.order| && |order| == |t.order| - 1
    requires forall a, b :: 0 <= a < b < |order| ==> order[a] != order[b]
    requires forall x :: x in order <==> x in t.order && x != t.order[p]
    ensures Wf(t.(state := t.state[t.order[p] := 2], order := order), hash)
  {
    var i := t.order[p];
    var r := t.(state := t.state[i := 2], order := order);
    assert LiveAt(t, i);
    forall s: nat | LiveAt(r, s) ensures s in r.order && PathClear(r, hash, r.keys[s], s) {
      assert LiveAt(t, s) && PathClear(t, hash, t.keys[s], s);
    }
    forall q | 0 <= q < |r.order| ensures LiveAt(r, r.order[q]) {
      assert r.order[q] in t.order;
    }
    forall s: nat, u: nat | LiveAt(r, s) && LiveAt(r, u) && r.keys[s] == r.keys[u] ensures s == u {
      assert LiveAt(t, s) && LiveAt(t, u);
    }
  }

  /** A table in which nothing was ever deleted accepts every entry. */
  lemma SetWithoutTombs<K, V>(t: Table<K, V>, hash: K -> nat, zeroKey: K, zeroVal: V, k: K, v: V)
    requires Wf(t, hash) && Tombs(t) == {}
    ensures var r := Set(t, hash, zeroKey, zeroVal, k, v);
            Wf(r, hash) && Tombs(r) == {} && Entries(r) == Put(Entries(t), k, v)
  {
    var g := if NeedsGrowth(t) then Grow(t, hash, zeroKey, zeroVal) else t;
    if NeedsGrowth(t) {
      GrowRefines(t, hash, zeroKey, zeroVal);
    } else {
      FewTombsLeaveRoom(t, hash);
    }
    assert |g.order| == |Entries(g)|;
    if Has(g, k) {
      PlaceOld(g, hash, k, v);
      assert Tombs(Place(g, hash, k, v)) == Tombs(g);
    } else {
      PlaceNew(g, hash, k, v);
    }
  }

  // ---------------------------------------------------------------- what the list operations mean

  lemma {:induction false} LookupPut<K, V>(e: seq<(K, V)>, k: K, v: V, j: K)
    ensures Lookup(Put(e, k, v), j) == if j == k then Some(v) else Lookup(e, j)
    decreases |e|
  {
    if e != [] && e[0].0 != k {
      LookupPut(e[1..], k, v, j);
      assert ([e[0]] + Put(e[1..], k, v))[1..] == Put(e[1..], k, v);
    }
  }

  lemma {:induction false} LookupRemove<K, V>(e: seq<(K, V)>, k: K, j: K)
    requires forall a, b :: 0 <= a < b < |e| ==> e[a].0 != e[b].0
    ensures Lookup(Remove(e, k), j) == if j == k then None else Lookup(e, j)
    decreases |e|
  {
    if e != [] {
      if e[0].0 == k {
        if j == k { LookupAbsent(e[1..], k); }
      } else {
        LookupRemove(e[1..], k, j);
        assert ([e[0]] + Remove(e[1..], k))[1..] == Remove(e[1..], k);
      }
    }
  }

  lemma {:induction false} LookupAbsent<K, V>(e: seq<(K, V)>, k: K)
    requires forall q :: 0 <= q < |e| ==> e[q].0 != k
    ensures Lookup(e, k) == None
    decreases |e|
  {
    if e != [] { LookupAbsent(e[1..], k); }
  }

  // ---------------------------------------------------------------- a reachable table that loses an entry

  /** The table after setting and deleting each of the keys 0, 1, .. i-1 in turn. */
  function Rounds(hash: nat -> nat, i: nat): (t: Table<nat, nat>)
    ensures Shaped(t)
  {
    if i == 0 then Blank<nat, nat>(8, 0, 0)
    else Del(Set(Rounds(hash, i - 1), hash, 0, 0, i - 1, 0), hash, i - 1)
  }

  /** A table of eight slots that holds no entry, with tombstones in the first `i` of them. */
  ghost predicate Filled(t: Table<nat, nat>, i: nat) {
    && |t.state| == 8 && |t.keys| == 8 && |t.vals| == 8 && t.order == []
    && forall s :: 0 <= s < 8 ==> t.state[s] == if s < i then 2 else 0
  }

  lemma SetFills(t: Table<nat, nat>, hash: nat -> nat, i: nat)
    requires Filled(t, i) && i < 8 && hash(i) == i
    ensures var u := Set(t, hash, 0, 0, i, 0);
            u.state == t.state[i := 1] && u.keys == t.keys[i := i] && u.order == [i] && |u.vals| == 8
  {
    assert Home(hash, i, 8) == i && Index(i, 0, 8) == i;
    assert Seek(t, hash, i, 0, None) == Insert(i);
  }

  lemma DelFills(t: Table<nat, nat>, u: Table<nat, nat>, hash: nat -> nat, i: nat)
    requires Filled(t, i) && i < 8 && hash(i) == i && Shaped(u)
    requires u.state == t.state[i := 1] && u.keys == t.keys[i := i] && u.order == [i] && |u.vals| == 8
    ensures Filled(Del(u, hash, i), i + 1)
  {
    assert Home(hash, i, 8) == i && Index(i, 0, 8) == i;
    assert Probe(u, hash, i, 0) == Some(i);
    assert Without([i], i) == [];
  }

  lemma {:induction false} RoundsFill(hash: nat -> nat, i: nat)
    requires i <= 8 && forall k: nat :: hash(k) == k
    ensures Wf(Rounds(hash, i), hash) && Filled(Rounds(hash, i), i)
  {
    hide Wf, Filled, Set, Del, Entries, Put, Remove, Blank;
    if i == 0 {
      BlankWf<nat, nat>(hash, 8, 0, 0);
      BlankFilled();
    } else {
      RoundsFill(hash, i - 1);
      var t := Rounds(hash, i - 1);
      var u := Set(t, hash, 0, 0, i - 1, 0);
      SetRefines(t, hash, 0, 0, i - 1, 0);
      SetFills(t, hash, i - 1);
      DelRefines(u, hash, i - 1);
      DelFills(t, u, hash, i - 1);
    }
  }

  lemma BlankFilled()
    ensures Filled(Blank<nat, nat>(8, 0, 0), 0)
  {}

  /**
   After eight set/delete pairs every slot of the first table is a tombstone. The table is empty,
   does not ask to grow, and loses the next new key.
   */
  lemma SetCanLoseAnEntry(hash: nat -> nat, v: nat)
    requires forall k: nat :: hash(k) == k
    ensures var t := Rounds(hash, 8);
            && Wf(t, hash) && Entries(t) == [] && !NeedsGrowth(t)
            && Set(t, hash, 0, 0, 8, v) == t && Lookup(Entries(Set(t, hash, 0, 0, 8, v)), 8) == None
  {
    hide *;
    var t := Rounds(hash, 8);
    RoundsFill(hash, 8);
    FilledIsFull(t);
    SetRefines(t, hash, 0, 0, 8, v);
    NothingFound<nat, nat>(8);
  }

  lemma FilledIsFull(t: Table<nat, nat>)
    requires Filled(t, 8)
    ensures Entries(t) == [] && !NeedsGrowth(t) && !HasEmpty(t) && !Has(t, 8)
  {
    assert forall s: nat :: !LiveAt(t, s);
  }

  lemma NothingFound<K, V>(k: K)
    ensures Lookup<K, V>([], k) == None
  {}
}
