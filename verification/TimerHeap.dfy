/** The timer min-heap of runtime/sere_async.c, changed in place by swaps. */
module TimerHeap {

  /** A waker and the clock value before which it must not run. */
  datatype Job = Job(waker: nat, due: int)

  function Parent(i: nat): nat
    requires i > 0
  {
    (i - 1) / 2
  }

  ghost predicate HeapOrdered(s: seq<Job>) {
    forall i :: 0 < i < |s| ==> s[Parent(i)].due <= s[i].due
  }

  /** Ordered except between `k` and its parent; `k`'s children are above `k`'s parent. */
  ghost predicate OrderedAbove(s: seq<Job>, k: nat) {
    && (forall i :: 0 < i < |s| && i != k ==> s[Parent(i)].due <= s[i].due)
    && (k > 0 ==> forall i :: 0 < i < |s| && Parent(i) == k ==> s[Parent(k)].due <= s[i].due)
  }

  /** Ordered except between `k` and its children. */
  ghost predicate OrderedBelow(s: seq<Job>, k: nat) {
    && (forall i :: 0 < i < |s| && Parent(i) != k ==> s[Parent(i)].due <= s[i].due)
    && (k > 0 ==> forall i :: 0 < i < |s| && Parent(i) == k ==> s[Parent(k)].due <= s[i].due)
  }

  function Swapped(s: seq<Job>, i: nat, j: nat): seq<Job>
    requires i < |s| && j < |s|
  {
    s[i := s[j]][j := s[i]]
  }

  lemma {:induction false} RootIsLeast(s: seq<Job>, i: nat)
    requires HeapOrdered(s) && i < |s|
    ensures s[0].due <= s[i].due
    decreases i
  {
    if i > 0 { RootIsLeast(s, Parent(i)); }
  }

  lemma SwapKeepsAbove(s: seq<Job>, k: nat)
    requires 0 < k < |s| && OrderedAbove(s, k) && s[Parent(k)].due > s[k].due
    ensures OrderedAbove(Swapped(s, Parent(k), k), Parent(k))
  {
    var j, t := Parent(k), Swapped(s, Parent(k), k);
    forall i | 0 < i < |t| && i != j ensures t[Parent(i)].due <= t[i].due {
      if i != k && Parent(i) == k {
        assert t[k] == s[j] && t[i] == s[i];
      } else if i != k && Parent(i) == j {
        assert s[j].due <= s[i].due;
      }
    }
    if j > 0 {
      forall i | 0 < i < |t| && Parent(i) == j ensures t[Parent(j)].due <= t[i].due {
        assert s[Parent(j)].due <= s[j].due && t[Parent(j)] == s[Parent(j)];
      }
    }
  }

  lemma SwapKeepsBelow(s: seq<Job>, k: nat, c: nat)
    requires k < |s| && OrderedBelow(s, k) && 0 < c < |s| && Parent(c) == k && s[c].due < s[k].due
    requires forall i :: 0 < i < |s| && Parent(i) == k ==> s[c].due <= s[i].due
    ensures OrderedBelow(Swapped(s, k, c), c)
  {}

  lemma SiftedDown(s: seq<Job>, k: nat)
    requires OrderedBelow(s, k) && forall i :: 0 < i < |s| && Parent(i) == k ==> s[k].due <= s[i].due
    ensures HeapOrdered(s)
  {}

  lemma SwapKeepsMultiset(s: seq<Job>, i: nat, j: nat)
    requires i < |s| && j < |s|
    ensures multiset(Swapped(s, i, j)) == multiset(s)
  {}

  class Timers {
    var items: array<Job>
    var len: nat

    ghost predicate Shaped()
      reads this
    {
      len <= items.Length
    }

    ghost function Contents(): seq<Job>
      requires Shaped()
      reads this, items
    {
      items[..len]
    }

    ghost predicate Valid()
      reads this, items
    {
      Shaped() && HeapOrdered(Contents())
    }

    constructor ()
      ensures Valid() && fresh(items) && Contents() == []
    {
      items := new Job[0];
      len := 0;
    }

    method Swap(i: nat, j: nat)
      requires Shaped() && i < len && j < len
      modifies items
      ensures Contents() == Swapped(old(Contents()), i, j)
      ensures multiset(Contents()) == multiset(old(Contents()))
    {
      SwapKeepsMultiset(Contents(), i, j);
      items[i], items[j] := items[j], items[i];
      assert Contents() == Swapped(old(Contents()), i, j);
    }

    /** `timerSiftUp`. */
    method SiftUp(start: nat)
      requires Shaped() && start < len && OrderedAbove(Contents(), start)
      modifies items
      ensures Valid() && multiset(Contents()) == multiset(old(Contents()))
    {
      var index: nat := start;
      while index > 0
        invariant index < len && OrderedAbove(Contents(), index)
        invariant multiset(Contents()) == multiset(old(Contents()))
      {
        var parent := (index - 1) / 2;
        if items[parent].due <= items[index].due { break; }
        SwapKeepsAbove(Contents(), index);
        Swap(parent, index);
        index := parent;
      }
    }

    /** `timerSiftDown`. */
    method SiftDown(start: nat)
      requires Shaped() && (start < len || (start == 0 && len == 0)) && OrderedBelow(Contents(), start)
      modifies items
      ensures Valid() && multiset(Contents()) == multiset(old(Contents()))
    {
      var index: nat := start;
      while true
        invariant (index < len || (index == 0 && len == 0)) && OrderedBelow(Contents(), index)
        invariant multiset(Contents()) == multiset(old(Contents()))
        decreases len - index
      {
        var smallest := Smallest(index);
        if smallest == index { SiftedDown(Contents(), index); break; }
        SwapKeepsBelow(Contents(), index, smallest);
        hide HeapOrdered, OrderedBelow, Swapped;
        Swap(index, smallest);
        index := smallest;
      }
    }

    /** The child of `index` with the least deadline, if that is below the deadline of `index`. */
    method Smallest(index: nat) returns (smallest: nat)
      requires Shaped() && (index < len || (index == 0 && len == 0))
      ensures smallest == index || (smallest < len && 0 < smallest && Parent(smallest) == index)
      ensures smallest != index ==> items[smallest].due < items[index].due
      ensures forall i :: 0 < i < len && Parent(i) == index ==> items[smallest].due <= items[i].due
    {
      var left := index * 2 + 1;
      var right := left + 1;
      smallest := index;
      if left < len && items[left].due < items[smallest].due { smallest := left; }
      if right < len && items[right].due < items[smallest].due { smallest := right; }
    }

    /** `timerPush`. */
    method Push(job: Job)
      requires Valid()
      modifies this, items
      ensures Valid() && multiset(Contents()) == multiset(old(Contents())) + multiset{job}
      ensures items == old(items) || fresh(items)
    {
      ghost var was := Contents();
      if len == items.Length { Grow(); }
      items[len] := job;
      len := len + 1;
      assert Contents() == was + [job];
      SiftUp(len - 1);
    }

    /** The `realloc` in `timerPush`. */
    method Grow()
      requires Shaped() && len == items.Length
      modifies this
      ensures Shaped() && fresh(items) && Contents() == old(Contents()) && len == old(len) && len < items.Length
    {
      var cap := if items.Length == 0 then 64 else items.Length * 2;
      var full := items;
      var grown := new Job[cap](_ => Job(0, 0));
      forall i | 0 <= i < len { grown[i] := full[i]; }
      items := grown;
    }

    /** `timerPopEarliest`. */
    method PopEarliest() returns (job: Job)
      requires Valid() && len > 0
      modifies this, items
      ensures Valid() && items == old(items) && len == old(len) - 1
      ensures job == old(Contents())[0]
      ensures multiset(Contents()) == multiset(old(Contents())) - multiset{job}
      ensures forall other :: other in old(Contents()) ==> job.due <= other.due
    {
      ghost var was := Contents();
      job := items[0];
      forall other | other in was ensures job.due <= other.due {
        var i :| 0 <= i < |was| && was[i] == other;
        RootIsLeast(was, i);
      }
      len := len - 1;
      items[0] := items[len];
      LastToRoot(was, Contents());
      SiftDown(0);
    }
  }

  /** Moving the last element over the root leaves order below the root and drops one root. */
  lemma LastToRoot(s: seq<Job>, r: seq<Job>)
    requires HeapOrdered(s) && |s| > 0 && |r| == |s| - 1
    requires |r| > 0 ==> r == s[..|s| - 1][0 := s[|s| - 1]]
    ensures OrderedBelow(r, 0) && multiset(r) == multiset(s) - multiset{s[0]}
  {
    assert s == s[..|s| - 1] + [s[|s| - 1]];
  }
}
