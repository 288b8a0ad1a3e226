/** The ready queue of runtime/sere_async.c: a ring over a growing array. */
module ReadyQueue {
  import opened Wrappers

  /** The slot `i` places after `head` in a ring of `cap` slots, the source's `(head + i) % cap`. */
  function Slot(head: nat, i: nat, cap: nat): (r: nat)
    requires head < cap && i <= cap
    ensures r < cap
  {
    if head + i < cap then head + i else head + i - cap
  }

  lemma SlotIsMod(head: nat, i: nat, cap: nat)
    requires head < cap && i <= cap
    ensures (head + i) % cap == Slot(head, i, cap)
  {
    if head + i >= cap {
      assert head + i == cap * 1 + (head + i - cap);
    }
  }

  class Queue<T> {
    var items: array<T>
    var head: nat
    var tail: nat
    var count: nat
    const blank: T

    ghost predicate Valid()
      reads this, items
    {
      items.Length > 0 && head < items.Length && count <= items.Length
      && tail == Slot(head, count, items.Length)
    }

    /** The queued elements, first to be popped first. */
    ghost function Contents(): (c: seq<T>)
      requires Valid()
      reads this, items
      ensures |c| == count
    {
      seq(count, i requires 0 <= i < count && Valid() reads this, items => items[Slot(head, i, items.Length)])
    }

    /** `queueInit`. */
    constructor (blank: T)
      ensures Valid() && fresh(items) && Contents() == []
    {
      this.blank := blank;
      items := new T[64](_ => blank);
      head, tail, count := 0, 0, 0;
    }

    /** `queueGrow`: doubles the ring and unrolls it to the front. */
    method Grow()
      requires Valid() && count == items.Length
      modifies this
      ensures Valid() && fresh(items) && Contents() == old(Contents()) && count < items.Length && count == old(count)
    {
      var cap := items.Length;
      var b := blank;
      var grown := new T[cap * 2](_ => b);
      ghost var was := Contents();
      var i := 0;
      while i < count
        invariant 0 <= i <= count && forall j :: 0 <= j < i ==> grown[j] == was[j]
        modifies grown
      {
        SlotIsMod(head, i, cap);
        grown[i] := items[(head + i) % cap];
        i := i + 1;
      }
      items := grown;
      head, tail := 0, count;
      assert Contents() == was;
    }

    /** `queuePush`. */
    method Push(x: T)
      requires Valid()
      modifies this, items
      ensures Valid() && Contents() == old(Contents()) + [x]
      ensures items == old(items) || fresh(items)
    {
      if count == items.Length { Grow(); }
      ghost var was := Contents();
      items[tail] := x;
      SlotIsMod(tail, 1, items.Length);
      tail := (tail + 1) % items.Length;
      count := count + 1;
      assert Contents() == was + [x];
    }

    /** `queuePop`. */
    method Pop() returns (x: Option<T>)
      requires Valid()
      modifies this
      ensures Valid() && items == old(items)
      ensures old(Contents()) == [] ==> x == None && Contents() == []
      ensures old(Contents()) != [] ==> x == Some(old(Contents())[0]) && Contents() == old(Contents())[1..]
    {
      if count == 0 { return None; }
      ghost var was := Contents();
      x := Some(items[head]);
      SlotIsMod(head, 1, items.Length);
      head := (head + 1) % items.Length;
      count := count - 1;
      assert Contents() == was[1..];
    }
  }
}
