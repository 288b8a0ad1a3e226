/**
 The boxed dict of runtime/sere_mod.c: an array of bucket chains that refines a map from what keys
 stand for to values, through every rehash. Who holds references to keys and values is the subject
 of `BoxedOperations`.
 */
module ChainedDict {
  import opened BoxedKeys

  const INITIAL_CAPACITY: nat := 16
  const LOAD_FACTOR: nat := 4

  class DictEntry {
    const key: Boxed
    var value: Boxed?
    var next: DictEntry?

    constructor (key: Boxed, value: Boxed?, next: DictEntry?)
      ensures this.key == key && this.value == value && this.next == next
    {
      this.key, this.value, this.next := key, value, next;
    }
  }

  // ---------------------------------------------------------------- chains

  function At(chain: seq<DictEntry>, i: nat): DictEntry? { if i < |chain| then chain[i] else null }

  /** A chain of entries from its first one on. */
  ghost predicate Linked(head: DictEntry?, chain: seq<DictEntry>)
    reads chain`next
  {
    && head == At(chain, 0)
    && forall i {:trigger chain[i].next} :: 0 <= i < |chain| ==> chain[i].next == At(chain, i + 1)
  }

  function SlotOf(key: Boxed, capacity: nat): (s: nat)
    requires capacity > 0
    ensures s < capacity
  {
    ObjectHash(key) % capacity
  }

  /** No two equal keys in a chain. */
  predicate Distinct(chain: seq<DictEntry>) {
    forall i, j :: 0 <= i < j < |chain| ==> MeaningOf(chain[i].key) != MeaningOf(chain[j].key)
  }

  predicate InSlot(chain: seq<DictEntry>, slot: nat, capacity: nat)
    requires capacity > 0
  {
    forall i :: 0 <= i < |chain| ==> SlotOf(chain[i].key, capacity) == slot
  }

  /** Every entry of a set stands in the chain of its key's hash, and the chains hold nothing else. */
  ghost predicate Placed(chains: seq<seq<DictEntry>>, repr: set<DictEntry>) {
    && |chains| > 0
    && (forall s, i :: 0 <= s < |chains| && 0 <= i < |chains[s]| ==> chains[s][i] in repr)
    && (forall e <- repr :: e in chains[SlotOf(e.key, |chains|)])
    && (forall s :: 0 <= s < |chains| ==> Distinct(chains[s]) && InSlot(chains[s], s, |chains|))
  }

  /** The chains from number `from` on are linked behind their buckets, within a set of entries. */
  ghost predicate AllLinked(heads: seq<DictEntry?>, chains: seq<seq<DictEntry>>, from: nat, scope: set<DictEntry>)
    reads scope`next
  {
    && |chains| == |heads|
    && (forall s, i :: from <= s < |chains| && 0 <= i < |chains[s]| ==> chains[s][i] in scope)
    && (forall s :: from <= s < |chains| ==> Linked(heads[s], chains[s]))
  }

  lemma PlacedSome(chains: seq<seq<DictEntry>>, repr: set<DictEntry>)
    requires Placed(chains, repr)
    ensures |chains| > 0
  {}

  /** The entries hold exactly the pairs of the map. */
  ghost predicate Holds(repr: set<DictEntry>, m: map<Meaning, Boxed?>)
    reads repr`value
  {
    && (forall e <- repr :: MeaningOf(e.key) in m && m[MeaningOf(e.key)] == e.value)
    && (forall k <- m :: exists e <- repr :: MeaningOf(e.key) == k)
  }

  /** A key in another slot stands for something else. */
  lemma ElsewhereIsOther(a: Boxed, b: Boxed, capacity: nat)
    requires capacity > 0
    ensures MeaningOf(a) == MeaningOf(b) ==> SlotOf(a, capacity) == SlotOf(b, capacity)
  {
    if MeaningOf(a) == MeaningOf(b) { SameMeaningSameHash(a, b); }
  }

  lemma PlacedMore(chains: seq<seq<DictEntry>>, repr: set<DictEntry>, entry: DictEntry, slot: nat)
    requires Placed(chains, repr) && slot == SlotOf(entry.key, |chains|)
    requires forall e <- repr :: MeaningOf(e.key) != MeaningOf(entry.key)
    ensures Placed(chains[slot := [entry] + chains[slot]], repr + {entry})
  {
    hide MeaningOf, ObjectHash;
    var next := chains[slot := [entry] + chains[slot]];
    assert entry == next[slot][0];
    forall e <- repr ensures e in next[SlotOf(e.key, |next|)] {
      var s := SlotOf(e.key, |chains|);
      var i :| 0 <= i < |chains[s]| && chains[s][i] == e;
      if s == slot { assert next[s][i + 1] == e; }
    }
  }

  lemma HoldsMore(repr: set<DictEntry>, m: map<Meaning, Boxed?>, entry: DictEntry)
    requires Holds(repr, m) && MeaningOf(entry.key) !in m
    ensures Holds(repr + {entry}, m[MeaningOf(entry.key) := entry.value])
    ensures |m[MeaningOf(entry.key) := entry.value]| == |m| + 1
  {
    hide MeaningOf;
    var now := m[MeaningOf(entry.key) := entry.value];
    forall k <- now ensures exists e <- repr + {entry} :: MeaningOf(e.key) == k {
      if k != MeaningOf(entry.key) {
        var e :| e in repr && MeaningOf(e.key) == k;
        assert e in repr + {entry};
      } else {
        assert entry in repr + {entry};
      }
    }
  }

  lemma LinkedMore(entry: DictEntry, chain: seq<DictEntry>)
    requires Linked(entry.next, chain)
    ensures Linked(entry, [entry] + chain)
  {
    var longer := [entry] + chain;
    forall i | 0 <= i < |longer| ensures longer[i].next == At(longer, i + 1) {
      if i > 0 { assert longer[i] == chain[i - 1] && chain[i - 1].next == At(chain, i); }
    }
  }

  lemma LinkedAt(head: DictEntry?, chain: seq<DictEntry>, i: nat)
    requires Linked(head, chain) && i < |chain|
    ensures chain[i].next == At(chain, i + 1)
  {}

  lemma FoundInChain(chains: seq<seq<DictEntry>>, repr: set<DictEntry>, m: map<Meaning, Boxed?>, s: nat, i: nat)
    requires Placed(chains, repr) && Holds(repr, m) && s < |chains| && i < |chains[s]|
    ensures var e := chains[s][i];
            e in repr && MeaningOf(e.key) in m && m[MeaningOf(e.key)] == e.value
  {}

  /** A key that is not in its chain is nowhere. */
  lemma NotInChain(chains: seq<seq<DictEntry>>, repr: set<DictEntry>, m: map<Meaning, Boxed?>, s: nat, key: Boxed)
    requires Placed(chains, repr) && Holds(repr, m) && s == SlotOf(key, |chains|)
    requires forall j :: 0 <= j < |chains[s]| ==> MeaningOf(chains[s][j].key) != MeaningOf(key)
    ensures MeaningOf(key) !in m
  {
    hide MeaningOf, ObjectHash;
    forall e <- repr ensures MeaningOf(e.key) != MeaningOf(key) { ElsewhereIsOther(e.key, key, |chains|); }
  }

  /** Two entries with equal keys are one. */
  lemma OneEntryPerKey(chains: seq<seq<DictEntry>>, repr: set<DictEntry>, entry: DictEntry)
    requires Placed(chains, repr) && entry in repr
    ensures forall e <- repr :: MeaningOf(e.key) == MeaningOf(entry.key) ==> e == entry
  {
    hide ObjectHash, MeaningOf;
    forall e <- repr ensures MeaningOf(e.key) == MeaningOf(entry.key) ==> e == entry {
      ElsewhereIsOther(e.key, entry.key, |chains|);
    }
  }

  /** A chain without its entry number `i`. */
  function Without(chain: seq<DictEntry>, i: nat): (r: seq<DictEntry>)
    requires i < |chain|
    ensures |r| == |chain| - 1 && forall j :: 0 <= j < |r| ==> r[j] == chain[if j < i then j else j + 1]
  {
    chain[..i] + chain[i + 1..]
  }

  lemma OneChain(chains: seq<seq<DictEntry>>, repr: set<DictEntry>, s: nat)
    requires Placed(chains, repr) && s < |chains|
    ensures Distinct(chains[s])
  {}

  lemma EntryIn(chains: seq<seq<DictEntry>>, repr: set<DictEntry>, s: nat, i: nat)
    requires Placed(chains, repr) && s < |chains| && i < |chains[s]|
    ensures chains[s][i] in repr && (i > 0 ==> chains[s][i - 1] in repr)
  {}

  lemma PlacedLess(chains: seq<seq<DictEntry>>, repr: set<DictEntry>, s: nat, i: nat)
    requires Placed(chains, repr) && s < |chains| && i < |chains[s]|
    ensures Placed(chains[s := Without(chains[s], i)], repr - {chains[s][i]})
  {
    hide ObjectHash, MeaningOf;
    var entry, next := chains[s][i], chains[s := Without(chains[s], i)];
    forall e <- repr - {entry} ensures e in next[SlotOf(e.key, |next|)] {
      var u := SlotOf(e.key, |chains|);
      var j :| 0 <= j < |chains[u]| && chains[u][j] == e;
      if u == s { assert next[s][if j < i then j else j - 1] == e; }
    }
  }

  lemma HoldsLess(repr: set<DictEntry>, m: map<Meaning, Boxed?>, entry: DictEntry)
    requires Holds(repr, m) && entry in repr
    requires forall e <- repr :: MeaningOf(e.key) == MeaningOf(entry.key) ==> e == entry
    ensures Holds(repr - {entry}, m - {MeaningOf(entry.key)})
    ensures |m| == |m - {MeaningOf(entry.key)}| + 1
  {
    hide MeaningOf;
    var k := MeaningOf(entry.key);
    assert m == (m - {k})[k := m[k]];
    forall j <- m - {k} ensures exists e <- repr - {entry} :: MeaningOf(e.key) == j {
      var e :| e in repr && MeaningOf(e.key) == j;
      assert e in repr - {entry};
    }
  }

  /** Redirecting the entry before number `i` past it takes it out of the chain. */
  method Bypass(ghost head: DictEntry?, ghost chain: seq<DictEntry>, ghost i: nat, before: DictEntry, entry: DictEntry)
    requires Linked(head, chain) && Distinct(chain) && 0 < i < |chain| && before == chain[i - 1] && entry == chain[i]
    modifies before`next
    ensures Linked(head, Without(chain, i))
  {
    hide MeaningOf;
    ghost var r := Without(chain, i);
    before.next := entry.next;
    forall j | 0 <= j < |r| ensures r[j].next == At(r, j + 1) {
      ghost var k := if j < i then j else j + 1;
      assert old(chain[i].next) == At(chain, i + 1);
      assert old(chain[k].next) == At(chain, k + 1);
      assert k != i - 1 ==> chain[k] != before;
    }
  }

  // ---------------------------------------------------------------- rehashing

  /** The entries of the chains before chain `s`: those a rehash has moved when it comes to that chain. */
  ghost function Moved(chains: seq<seq<DictEntry>>, repr: set<DictEntry>, s: nat): set<DictEntry>
    requires |chains| > 0
  {
    set e <- repr | SlotOf(e.key, |chains|) < s
  }

  lemma MovedEnds(chains: seq<seq<DictEntry>>, repr: set<DictEntry>)
    requires |chains| > 0
    ensures Moved(chains, repr, 0) == {} && Moved(chains, repr, |chains|) == repr
  {}

  /** Different meanings on both sides. */
  ghost predicate Strangers(moved: set<DictEntry>, chain: seq<DictEntry>) {
    forall e, i :: e in moved && 0 <= i < |chain| ==> MeaningOf(e.key) != MeaningOf(chain[i].key)
  }

  lemma MovedChain(chains: seq<seq<DictEntry>>, repr: set<DictEntry>, s: nat)
    requires Placed(chains, repr) && s < |chains|
    ensures var chain := chains[s];
            && Moved(chains, repr, s + 1) == Moved(chains, repr, s) + (set e <- chain)
            && Distinct(chain) && Strangers(Moved(chains, repr, s), chain) && (forall e <- chain :: e in repr)
  {
    hide ObjectHash, MeaningOf;
    forall e, i | e in Moved(chains, repr, s) && 0 <= i < |chains[s]|
      ensures MeaningOf(e.key) != MeaningOf(chains[s][i].key)
    {
      ElsewhereIsOther(e.key, chains[s][i].key, |chains|);
    }
  }

  /** One entry goes to the front of its chain in the wider array. */
  method MoveEntry(entry: DictEntry, wider: array<DictEntry?>, ghost chains: seq<seq<DictEntry>>,
                   ghost moved: set<DictEntry>) returns (ghost next: seq<seq<DictEntry>>)
    requires Placed(chains, moved) && AllLinked(wider[..], chains, 0, moved)
    requires forall e <- moved :: MeaningOf(e.key) != MeaningOf(entry.key)
    modifies wider, entry`next
    ensures Placed(next, moved + {entry}) && AllLinked(wider[..], next, 0, moved + {entry})
  {
    hide ObjectHash, MeaningOf, Linked, AllLinked;
    PlacedSome(chains, moved);
    AllSized(wider[..], chains, moved);
    var target := SlotOf(entry.key, wider.Length);
    PlacedMore(chains, moved, entry, target);
    hide Placed;
    assert entry !in moved;
    entry.next := wider[target];
    OneMore(wider[..], chains, moved, target, entry);
    wider[target] := entry;
    next := chains[target := [entry] + chains[target]];
  }

  lemma AllSized(heads: seq<DictEntry?>, chains: seq<seq<DictEntry>>, repr: set<DictEntry>)
    requires AllLinked(heads, chains, 0, repr)
    ensures |chains| == |heads|
  {}

  ghost function NoEntries(capacity: nat): (chains: seq<seq<DictEntry>>)
    requires capacity > 0
    ensures |chains| == capacity && Placed(chains, {}) && forall t :: 0 <= t < capacity ==> chains[t] == []
  {
    seq(capacity, _ => [])
  }

  lemma StrangersStep(moved: set<DictEntry>, chain: seq<DictEntry>)
    requires Strangers(moved, chain) && Distinct(chain) && chain != []
    ensures Distinct(chain[1..]) && Strangers(moved + {chain[0]}, chain[1..]) && chain[0] !in chain[1..]
    ensures forall e <- moved :: MeaningOf(e.key) != MeaningOf(chain[0].key)
    ensures moved + {chain[0]} + (set e <- chain[1..]) == moved + (set e <- chain)
  {
    hide MeaningOf;
    assert forall e <- chain :: e == chain[0] || e in chain[1..];
  }

  /** The inner loop of `dictGrow`: moves one chain to the wider array. */
  method MoveChain(head: DictEntry?, wider: array<DictEntry?>, ghost chain: seq<DictEntry>,
                   ghost wide: seq<seq<DictEntry>>, ghost moved: set<DictEntry>)
      returns (ghost next: seq<seq<DictEntry>>)
    requires Linked(head, chain) && Distinct(chain) && Strangers(moved, chain)
    requires Placed(wide, moved) && AllLinked(wider[..], wide, 0, moved)
    modifies wider, chain`next
    ensures Placed(next, moved + (set e <- chain)) && AllLinked(wider[..], next, 0, moved + (set e <- chain))
  {
    next := wide;
    var entry := head;
    ghost var rest: seq<DictEntry>, done: set<DictEntry> := chain, moved;
    hide ObjectHash, MeaningOf, Placed, Strangers, Distinct, AllLinked;
    while entry != null
      invariant Linked(entry, rest) && Distinct(rest) && Strangers(done, rest) && forall e <- rest :: e in chain
      invariant done + (set e <- rest) == moved + (set e <- chain)
      invariant Placed(next, done) && AllLinked(wider[..], next, 0, done)
      decreases |rest|
    {
      StrangersStep(done, rest);
      var following := entry.next;
      next := MoveEntry(entry, wider, next, done);
      done := done + {entry};
      entry := following;
      rest := rest[1..];
    }
    assert rest == [] && done + (set e <- rest) == done;
  }

  lemma ChainFor(heads: seq<DictEntry?>, chains: seq<seq<DictEntry>>, repr: set<DictEntry>, key: Boxed)
    requires Placed(chains, repr) && AllLinked(heads, chains, 0, repr)
    ensures |heads| == |chains| > 0
    ensures var s := SlotOf(key, |chains|); Linked(heads[s], chains[s])
  {}

  lemma NoneLinked(heads: seq<DictEntry?>, chains: seq<seq<DictEntry>>)
    requires |chains| == |heads| && forall s :: 0 <= s < |chains| ==> heads[s] == null && chains[s] == []
    ensures AllLinked(heads, chains, 0, {})
  {}

  lemma NothingHeld()
    ensures Holds({}, map[])
  {}

  /** The chains other than chain `s`, which is set aside. */
  lemma SetAside(heads: seq<DictEntry?>, chains: seq<seq<DictEntry>>, repr: set<DictEntry>, s: nat)
    requires Placed(chains, repr) && AllLinked(heads, chains, 0, repr) && s < |chains|
    ensures |heads| == |chains| && Linked(heads[s], chains[s])
    ensures AllLinked(heads[s := null], chains[s := []], 0, repr - (set e <- chains[s]))
  {
    hide MeaningOf, ObjectHash, Linked;
    assert Linked(null, []) by { NoLinks(); }
  }

  lemma NoLinks()
    ensures Linked(null, [])
  {}

  /** A linked chain takes the place that was kept for it. */
  lemma PutBack(heads: seq<DictEntry?>, chains: seq<seq<DictEntry>>, scope: set<DictEntry>, s: nat,
                head: DictEntry?, chain: seq<DictEntry>)
    requires s < |chains| == |heads| && AllLinked(heads[s := null], chains[s := []], 0, scope) && Linked(head, chain)
    ensures AllLinked(heads[s := head], chains[s := chain], 0, scope + (set e <- chain))
  {
    hide Linked;
    var h, c := heads[s := head], chains[s := chain];
    forall u | 0 <= u < |c| ensures Linked(h[u], c[u]) {
      if u != s { assert Linked(heads[s := null][u], chains[s := []][u]); }
    }
  }

  /** A new entry in front of its chain. */
  lemma OneMore(heads: seq<DictEntry?>, chains: seq<seq<DictEntry>>, repr: set<DictEntry>, s: nat, entry: DictEntry)
    requires Placed(chains, repr) && AllLinked(heads, chains, 0, repr) && s < |chains| == |heads|
    requires entry.next == heads[s]
    ensures AllLinked(heads[s := entry], chains[s := [entry] + chains[s]], 0, repr + {entry})
  {
    hide MeaningOf, ObjectHash;
    SetAside(heads, chains, repr, s);
    LinkedMore(entry, chains[s]);
    hide Linked, AllLinked;
    PutBack(heads, chains, repr - (set e <- chains[s]), s, entry, [entry] + chains[s]);
    InRepr(chains, repr, s);
    assert repr - (set e <- chains[s]) + (set e <- [entry] + chains[s]) == repr + {entry};
  }

  lemma InRepr(chains: seq<seq<DictEntry>>, repr: set<DictEntry>, s: nat)
    requires Placed(chains, repr) && s < |chains|
    ensures forall e <- chains[s] :: e in repr
  {}

  /** A chain that lost its entry number `i`. */
  lemma OneLess(heads: seq<DictEntry?>, chains: seq<seq<DictEntry>>, repr: set<DictEntry>, s: nat, i: nat, head: DictEntry?)
    requires Placed(chains, repr) && s < |chains| == |heads| && i < |chains[s]|
    requires AllLinked(heads[s := null], chains[s := []], 0, repr - (set e <- chains[s]))
    requires Linked(head, Without(chains[s], i))
    ensures AllLinked(heads[s := head], chains[s := Without(chains[s], i)], 0, repr - {chains[s][i]})
  {
    hide MeaningOf, ObjectHash, Linked, AllLinked;
    var chain, less := chains[s], Without(chains[s], i);
    PutBack(heads, chains, repr - (set e <- chain), s, head, less);
    InRepr(chains, repr, s);
    assert Distinct(chain);
    hide Placed;
    OthersStay(chain, i);
    hide Without;
    assert repr - (set e <- chain) + (set e <- less) == repr - {chain[i]};
  }

  lemma OthersStay(chain: seq<DictEntry>, i: nat)
    requires Distinct(chain) && i < |chain|
    ensures (set e <- Without(chain, i)) == (set e <- chain) - {chain[i]}
  {
    hide MeaningOf;
    var less := Without(chain, i);
    forall e <- chain | e != chain[i] ensures e in less {
      var j :| 0 <= j < |chain| && chain[j] == e;
      assert less[if j < i then j else j - 1] == e;
    }
    forall e <- less ensures e in chain && e != chain[i] {
      var j :| 0 <= j < |less| && less[j] == e;
      assert chain[if j < i then j else j + 1] == e;
    }
  }

  lemma LinkedTail(head: DictEntry?, chain: seq<DictEntry>)
    requires Linked(head, chain) && chain != []
    ensures Linked(chain[0].next, Without(chain, 0))
  {
    var r := Without(chain, 0);
    forall j | 0 <= j < |r| ensures r[j].next == At(r, j + 1) {
      assert chain[j + 1].next == At(chain, j + 2);
    }
  }

  // ---------------------------------------------------------------- the dict

  class Dict {
    var buckets: array<DictEntry?>
    var count: nat
    ghost var chains: seq<seq<DictEntry>>
    ghost var repr: set<DictEntry>
    ghost var m: map<Meaning, Boxed?>

    ghost predicate Valid()
      reads this, buckets, repr
    {
      && Placed(chains, repr) && AllLinked(buckets[..], chains, 0, repr)
      && Holds(repr, m) && count == |m| && count < buckets.Length * LOAD_FACTOR
    }

    /** `Sere_Dict_New`. */
    constructor ()
      ensures Valid() && m == map[] && fresh(buckets) && fresh(repr) && buckets.Length == INITIAL_CAPACITY
    {
      buckets := new DictEntry?[INITIAL_CAPACITY](_ => null);
      count, chains, repr, m := 0, NoEntries(INITIAL_CAPACITY), {}, map[];
    }

    /** `dictFind`. */
    method Find(key: Boxed) returns (r: DictEntry?)
      requires Valid()
      ensures r == null <==> MeaningOf(key) !in m
      ensures r != null ==> r in repr && MeaningOf(r.key) == MeaningOf(key) && r.value == m[MeaningOf(key)]
    {
      hide MeaningOf, ObjectHash, ObjectsEqual, Placed, Holds, Linked, AllLinked, SlotOf;
      ChainFor(buckets[..], chains, repr, key);
      var slot := SlotOf(key, buckets.Length);
      ghost var chain := chains[slot];
      ghost var i := 0;
      r := buckets[slot];
      ghost var head := r;
      while r != null
        invariant 0 <= i <= |chain| && r == At(chain, i) && Linked(head, chain)
        invariant forall j :: 0 <= j < i ==> MeaningOf(chain[j].key) != MeaningOf(key)
        decreases |chain| - i
      {
        LinkedAt(head, chain, i);
        EqualMeansSame(r.key, key);
        if ObjectsEqual(r.key, key) {
          FoundInChain(chains, repr, m, slot, i);
          return;
        }
        r := r.next;
        i := i + 1;
      }
      NotInChain(chains, repr, m, slot, key);
    }

    /** `Sere_Dict_Get`. */
    method Get(key: Boxed?) returns (r: Boxed?)
      requires Valid()
      ensures r == if key != null && MeaningOf(key) in m then m[MeaningOf(key)] else null
    {
      if key == null { return null; }
      var entry := Find(key);
      r := if entry == null then null else entry.value;
    }

    /** `Sere_Dict_Has`. */
    method Has(key: Boxed?) returns (r: bool)
      requires Valid()
      ensures r == (key != null && MeaningOf(key) in m)
    {
      if key == null { return false; }
      var entry := Find(key);
      r := entry != null;
    }

    /** `Sere_Dict_Set`. */
    method Set(key: Boxed?, value: Boxed?) returns (ok: bool)
      requires Valid()
      modifies this, buckets, repr
      ensures Valid() && ok == (key != null)
      ensures m == if key == null then old(m) else old(m)[MeaningOf(key) := value]
      ensures (buckets == old(buckets) || fresh(buckets)) && fresh(repr - old(repr))
    {
      hide MeaningOf, Placed, Holds, AllLinked;
      if key == null { return false; }
      var found := Find(key);
      ok := true;
      if found != null {
        Overwrite(found, value);
        return;
      }
      Prepend(key, value);
      Grow();
    }

    method Overwrite(found: DictEntry, value: Boxed?)
      requires Valid() && found in repr && MeaningOf(found.key) in m
      modifies this`m, found`value
      ensures Valid() && m == old(m)[MeaningOf(found.key) := value]
    {
      hide MeaningOf, Placed, AllLinked, Holds;
      ghost var k := MeaningOf(found.key);
      OneEntryPerKey(chains, repr, found);
      HoldsLess(repr, m, found);
      found.value := value;
      HoldsMore(repr - {found}, m - {k}, found);
      assert repr - {found} + {found} == repr && (m - {k})[k := value] == m[k := value];
      m := m[k := value];
    }

    /** `Sere_Dict_Del`: `before` owns the link that is followed, or the bucket does. */
    method Del(key: Boxed?) returns (removed: bool)
      requires Valid()
      modifies this`count, this`chains, this`repr, this`m, buckets, repr
      ensures Valid() && repr <= old(repr) && removed == (key != null && MeaningOf(key) in old(m))
      ensures m == if key == null then old(m) else old(m) - {MeaningOf(key)}
    {
      hide MeaningOf, ObjectHash, ObjectsEqual, Placed, Holds, Linked, AllLinked, SlotOf;
      if key == null { return false; }
      ChainFor(buckets[..], chains, repr, key);
      var slot := SlotOf(key, buckets.Length);
      ghost var chain := chains[slot];
      ghost var i := 0;
      var before: DictEntry? := null;
      var entry := buckets[slot];
      ghost var head := entry;
      while entry != null
        invariant 0 <= i <= |chain| && entry == At(chain, i) && Linked(head, chain)
        invariant before == if i == 0 then null else chain[i - 1]
        invariant forall j :: 0 <= j < i ==> MeaningOf(chain[j].key) != MeaningOf(key)
        modifies {}
        decreases |chain| - i
      {
        LinkedAt(head, chain, i);
        EqualMeansSame(entry.key, key);
        if ObjectsEqual(entry.key, key) {
          break;
        }
        before := entry;
        entry := entry.next;
        i := i + 1;
      }
      if entry == null {
        NotInChain(chains, repr, m, slot, key);
        return false;
      }
      FoundInChain(chains, repr, m, slot, i);
      Unlink(slot, i, before, entry);
      removed := true;
    }

    /** Takes one entry out of its chain and of the map. */
    method Unlink(slot: nat, ghost i: nat, before: DictEntry?, entry: DictEntry)
      requires Valid() && slot < |chains| && i < |chains[slot]| && entry == chains[slot][i] && entry in repr
      requires before == (if i == 0 then null else chains[slot][i - 1]) && count > 0
      modifies this`count, this`chains, this`repr, this`m, buckets, repr`next
      ensures Valid() && repr == old(repr) - {entry} && m == old(m) - {MeaningOf(entry.key)}
    {
      hide MeaningOf, ObjectHash, Placed, Holds, AllLinked, Linked;
      PlacedLess(chains, repr, slot, i);
      OneEntryPerKey(chains, repr, entry);
      HoldsLess(repr, m, entry);
      Redirect(slot, i, before, entry);
      count := count - 1;
      m := m - {MeaningOf(entry.key)};
      repr := repr - {entry};
      chains := chains[slot := Without(chains[slot], i)];
    }

    /** The write through the link. */
    method Redirect(slot: nat, ghost i: nat, before: DictEntry?, entry: DictEntry)
      requires Placed(chains, repr) && AllLinked(buckets[..], chains, 0, repr)
      requires slot < |chains| && i < |chains[slot]| && entry == chains[slot][i]
      requires before == if i == 0 then null else chains[slot][i - 1]
      modifies buckets, repr`next
      ensures AllLinked(buckets[..], chains[slot := Without(chains[slot], i)], 0, repr - {entry})
    {
      ghost var was, chain := buckets[..], chains[slot];
      EntryIn(chains, repr, slot, i);
      SetAside(was, chains, repr, slot);
      OneChain(chains, repr, slot);
      hide MeaningOf, ObjectHash, Placed, AllLinked, Linked, Distinct;
      if before == null {
        LinkedTail(was[slot], chain);
        buckets[slot] := entry.next;
      } else {
        Bypass(was[slot], chain, i, before, entry);
      }
      OneLess(was, chains, repr, slot, i, buckets[slot]);
      assert buckets[..] == was[slot := buckets[slot]];
    }

    /** `Sere_Dict_Clear`. */
    method Clear()
      requires Valid()
      modifies this`count, this`chains, this`repr, this`m, buckets
      ensures Valid() && m == map[] && repr == {}
    {
      hide Placed, Holds, AllLinked;
      PlacedSome(chains, repr);
      AllSized(buckets[..], chains, repr);
      forall s | 0 <= s < buckets.Length { buckets[s] := null; }
      NoneLinked(buckets[..], NoEntries(buckets.Length));
      NothingHeld();
      count, chains, repr, m := 0, NoEntries(buckets.Length), {}, map[];
    }

    /** A new entry goes to the front of its chain. */
    method Prepend(key: Boxed, value: Boxed?)
      requires Valid() && MeaningOf(key) !in m
      modifies this`count, this`chains, this`repr, this`m, buckets
      ensures Placed(chains, repr) && AllLinked(buckets[..], chains, 0, repr) && fresh(repr - old(repr))
      ensures Holds(repr, m) && count == |m| == old(count) + 1 && m == old(m)[MeaningOf(key) := value]
    {
      hide MeaningOf, ObjectHash, Placed, Holds, Linked, AllLinked;
      KeysAreHeld(repr, m);
      ChainFor(buckets[..], chains, repr, key);
      var slot := SlotOf(key, buckets.Length);
      var entry := new DictEntry(key, value, buckets[slot]);
      PlacedMore(chains, repr, entry, slot);
      HoldsMore(repr, m, entry);
      OneMore(buckets[..], chains, repr, slot, entry);
      buckets[slot] := entry;
      count := count + 1;
      chains := chains[slot := [entry] + chains[slot]];
      repr := repr + {entry};
      m := m[MeaningOf(key) := value];
    }

    lemma KeysAreHeld(repr: set<DictEntry>, m: map<Meaning, Boxed?>)
      requires Holds(repr, m)
      ensures forall e <- repr :: MeaningOf(e.key) in m
    {}

    /** `dictGrow`. */
    method Grow()
      requires Placed(chains, repr) && AllLinked(buckets[..], chains, 0, repr)
      requires Holds(repr, m) && count == |m| && count < 2 * buckets.Length * LOAD_FACTOR
      modifies this`buckets, this`chains, repr`next
      ensures Valid() && (buckets == old(buckets) || fresh(buckets))
    {
      hide Placed, Holds, AllLinked;
      if count < buckets.Length * LOAD_FACTOR { return; }
      var capacity := buckets.Length * 2;
      var wider := new DictEntry?[capacity](_ => null);
      ghost var wide := Rehash(buckets, wider, chains, repr);
      buckets := wider;
      chains := wide;
    }
  }

  lemma LinkedBelow(heads: seq<DictEntry?>, chains: seq<seq<DictEntry>>, repr: set<DictEntry>)
    requires Placed(chains, repr) && AllLinked(heads, chains, 0, repr)
    ensures AllLinked(heads, chains, 0, repr - Moved(chains, repr, 0)) && |chains| == |heads| > 0
  {
    MovedEnds(chains, repr);
  }

  /** The chain at hand leaves the ones a rehash has still to move. */
  lemma LinkedRest(heads: seq<DictEntry?>, chains: seq<seq<DictEntry>>, repr: set<DictEntry>, s: nat)
    requires Placed(chains, repr) && s < |chains| && AllLinked(heads, chains, s, repr - Moved(chains, repr, s))
    ensures s < |heads| && Linked(heads[s], chains[s])
    ensures AllLinked(heads, chains, s + 1, repr - Moved(chains, repr, s + 1))
    ensures forall e <- chains[s] :: e in Moved(chains, repr, s + 1)
  {
    hide ObjectHash, MeaningOf, Linked;
  }

  /** One round of the outer loop of `dictGrow`. */
  method RehashChain(narrow: array<DictEntry?>, wider: array<DictEntry?>, ghost chains: seq<seq<DictEntry>>,
                     ghost repr: set<DictEntry>, slot: nat, ghost wide: seq<seq<DictEntry>>)
      returns (ghost next: seq<seq<DictEntry>>)
    requires Placed(chains, repr) && slot < |chains| && narrow != wider
    requires AllLinked(narrow[..], chains, slot, repr - Moved(chains, repr, slot))
    requires var moved := Moved(chains, repr, slot); Placed(wide, moved) && AllLinked(wider[..], wide, 0, moved)
    modifies wider, repr`next
    ensures AllLinked(narrow[..], chains, slot + 1, repr - Moved(chains, repr, slot + 1))
    ensures var moved := Moved(chains, repr, slot + 1); Placed(next, moved) && AllLinked(wider[..], next, 0, moved)
  {
    MovedChain(chains, repr, slot);
    LinkedRest(narrow[..], chains, repr, slot);
    hide Moved, Placed, AllLinked, Linked, Distinct, Strangers;
    next := MoveChain(narrow[slot], wider, chains[slot], wide, Moved(chains, repr, slot));
  }

  /** The outer loop of `dictGrow`. */
  method Rehash(narrow: array<DictEntry?>, wider: array<DictEntry?>, ghost chains: seq<seq<DictEntry>>,
                ghost repr: set<DictEntry>) returns (ghost wide: seq<seq<DictEntry>>)
    requires Placed(chains, repr) && AllLinked(narrow[..], chains, 0, repr) && narrow != wider
    requires wider.Length > 0 && forall t :: 0 <= t < wider.Length ==> wider[t] == null
    modifies wider, repr`next
    ensures Placed(wide, repr) && AllLinked(wider[..], wide, 0, repr)
  {
    hide Moved, Placed, AllLinked;
    wide := NoEntries(wider.Length);
    LinkedBelow(narrow[..], chains, repr);
    MovedEnds(chains, repr);
    NoneLinked(wider[..], wide);
    for slot := 0 to narrow.Length
      invariant AllLinked(narrow[..], chains, slot, repr - Moved(chains, repr, slot))
      invariant Placed(wide, Moved(chains, repr, slot)) && AllLinked(wider[..], wide, 0, Moved(chains, repr, slot))
    {
      wide := RehashChain(narrow, wider, chains, repr, slot, wide);
    }
  }
}
