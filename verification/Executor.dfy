/**
 The executor of runtime/sere_async.c on its ring queue and timer heap.

 Each operation is one step of `ExecutorModel`. A waker's body and the clock are the environment:
 the caller says which operations a called waker performs and what the clock reads each time the
 source reads it, at a sleep and after an idle wait; `clock` is the latest reading. The constructor
 initialises the ring, which the source does only when the loop first starts.
 */
module Executor {
  import opened Wrappers
  import opened Words
  import opened ReadyQueue
  import opened TimerHeap
  import opened ExecutorModel

  /** What a waker may do when it is called, for a sleep after some time; `None` is a null function pointer. */
  datatype Action = DoPost(waker: Option<nat>) | DoSleep(waker: Option<nat>, ms: Int64, elapsed: nat)

  /** The environment's part of one turn of the loop: the waker's actions, or how long the idle wait took. */
  datatype Turn = Turn(actions: seq<Action>, elapsed: nat)

  class Async {
    const ready: Queue<Job>
    const timers: Timers
    var clock: int
    ghost var ran: seq<Call>
    ghost var scheduled: multiset<Job>

    ghost predicate Valid()
      reads this, ready, ready.items, timers, timers.items
    {
      ready.Valid() && timers.Valid() && ready.items != timers.items
    }

    ghost function Model(): State
      requires Valid()
      reads this, ready, ready.items, timers, timers.items
    {
      State(ready.Contents(), multiset(timers.Contents()), ran, scheduled, clock)
    }

    constructor ()
      ensures Valid() && Model() == Initial && Inv(Model())
      ensures fresh(ready) && fresh(ready.items) && fresh(timers) && fresh(timers.items)
    {
      ready := new Queue(Job(0, 0));
      timers := new Timers();
      clock, ran, scheduled := 0, [], multiset{};
      InitialInv();
    }

    /** The arrays may be replaced by larger ones, and nothing else is touched. */
    twostate predicate Framed()
      reads this, ready, timers
    {
      && (ready.items == old(ready.items) || fresh(ready.items))
      && (timers.items == old(timers.items) || fresh(timers.items))
    }

    /** `sere_async_post`. */
    method PostWaker(waker: Option<nat>)
      requires Valid()
      modifies this, ready, ready.items
      ensures Valid() && Framed()
      ensures waker.None? ==> Model() == old(Model())
      ensures waker.Some? ==> Next(old(Model()), Post(waker.value), Model())
    {
      if waker.None? { return; }
      var job := Job(waker.value, clock);
      ready.Push(job);
      scheduled := scheduled + multiset{job};
    }

    /**
     `sere_async_sleep_ms`; `now` is what the clock reads at this call. The sum may leave 64 bits,
     and then the deadline is in the past.
     */
    method SleepMs(waker: Option<nat>, ms: Int64, now: int)
      requires Valid() && clock <= now <= INT64_MAX
      modifies this, ready, ready.items, timers, timers.items
      ensures Valid() && Framed()
      ensures waker.None? ==> Model() == old(Model())
      ensures waker.Some? ==> Next(old(Model()), Sleep(waker.value, ms, now), Model())
    {
      if waker.None? { return; }
      if ms <= 0 {
        PostWaker(waker);
        return;
      }
      clock := now;
      AddTimer(Job(waker.value, Wrap64(now + ms)));
    }

    method AddTimer(job: Job)
      requires Valid()
      modifies `scheduled, timers, timers.items
      ensures Valid() && Framed()
      ensures var s := old(Model());
              Model() == s.(timers := s.timers + multiset{job}, scheduled := s.scheduled + multiset{job})
    {
      hide HeapOrdered;
      timers.Push(job);
      scheduled := scheduled + multiset{job};
    }

    /** One turn of the loop that finds a waker: pops and calls it. */
    method CallFirst() returns (called: Option<Job>)
      requires Valid()
      modifies this, ready
      ensures Valid() && ready.items == old(ready.items)
      ensures called.None? <==> old(Model()).ready == []
      ensures called.None? ==> Model() == old(Model())
      ensures called.Some? ==> called == Some(old(Model()).ready[0]) && Next(old(Model()), RunFirst, Model())
    {
      called := ready.Pop();
      if called.Some? { ran := ran + [Call(called.value, clock)]; }
    }

    /** One turn of the inner loop: the earliest timer moves to the ready queue. */
    method MoveEarliest(ghost batch: seq<Job>, ghost all: multiset<Job>, now: int) returns (ghost first: Job)
      requires Valid() && ready.Contents() == batch && Moved(batch, timers.Contents(), all, now)
      requires timers.len > 0 && timers.items[0].due <= now
      modifies ready, ready.items, timers, timers.items
      ensures Valid() && Framed() && ready.Contents() == batch + [first]
      ensures Moved(batch + [first], timers.Contents(), all, now)
      ensures timers.len == old(timers.len) - 1
    {
      hide HeapOrdered, Moved;
      ghost var before := timers.Contents();
      assert before[0] == timers.items[0];
      var earliest := timers.PopEarliest();
      first := earliest;
      MovedStep(batch, before, timers.Contents(), first, all, now);
      ready.Push(earliest);
    }

    /** The inner loop that moves expired timers to the ready queue. */
    method MoveExpired(now: int) returns (ghost batch: seq<Job>)
      requires Valid() && ready.Contents() == []
      modifies ready, ready.items, timers, timers.items
      ensures Valid() && Framed() && ready.Contents() == batch
      ensures Moved(batch, timers.Contents(), multiset(old(timers.Contents())), now)
      ensures forall j :: j in timers.Contents() ==> j.due > now
    {
      batch := [];
      ghost var all := multiset(timers.Contents());
      assert Moved(batch, timers.Contents(), all, now);
      hide Moved;
      while timers.len > 0 && timers.items[0].due <= now
        invariant Valid() && Framed() && ready.Contents() == batch
        invariant Moved(batch, timers.Contents(), all, now)
        decreases timers.len
      {
        ghost var first := MoveEarliest(batch, all, now);
        batch := batch + [first];
      }
      RestIsLater(timers.Contents(), now);
    }

    /** The turn of the loop that finds nothing ready; `now` is the clock read after waiting. */
    method ExpireTimers(now: int) returns (ghost batch: seq<Job>)
      requires Valid() && ready.Contents() == [] && timers.len > 0 && clock <= now <= INT64_MAX
      modifies this, ready, ready.items, timers, timers.items
      ensures Valid() && Framed()
      ensures Next(old(Model()), Expire(now, batch), Model())
    {
      hide HeapOrdered, Moved, Next;
      ghost var before := Model();
      ghost var was := timers.Contents();
      assert |was| == timers.len;
      clock := now;
      batch := MoveExpired(now);
      MovedIsStep(before, was, batch, timers.Contents(), now);
    }

    // ---------------------------------------------------------------- the loop

    /** The operations a called waker performs. */
    method Perform(actions: seq<Action>)
      requires Valid() && Inv(Model())
      modifies this, ready, ready.items, timers, timers.items
      ensures Valid() && Framed() && Inv(Model()) && History(old(Model())) <= History(Model())
    {
      var k := 0;
      hide Inv, Next, History;
      while k < |actions|
        invariant 0 <= k <= |actions|
        invariant Valid() && Framed() && Inv(Model()) && History(old(Model())) <= History(Model())
      {
        ghost var before := Model();
        ClockFits(before);
        match actions[k] {
          case DoPost(waker) =>
            PostWaker(waker);
            if waker.Some? { StepIsSafe(before, Post(waker.value), Model()); }
          case DoSleep(waker, ms, elapsed) =>
            var now := Later(clock, elapsed);
            SleepMs(waker, ms, now);
            if waker.Some? { StepIsSafe(before, Sleep(waker.value, ms, now), Model()); }
        }
        k := k + 1;
      }
    }

    /** One turn of the outer loop. */
    method LoopTurn(turn: Turn) returns (done: bool)
      requires Valid() && Inv(Model())
      modifies this, ready, ready.items, timers, timers.items
      ensures Valid() && Framed() && Inv(Model()) && History(old(Model())) <= History(Model())
      ensures done ==> Model().ready == [] && Model().timers == multiset{}
    {
      hide Inv, Next, History;
      ghost var before := Model();
      var called := CallFirst();
      if called.Some? {
        StepIsSafe(before, RunFirst, Model());
        Perform(turn.actions);
        return false;
      }
      if timers.len == 0 { return true; }
      ClockFits(before);
      ghost var batch := ExpireTimers(Later(clock, turn.elapsed));
      StepIsSafe(before, Expire(Later(before.clock, turn.elapsed), batch), Model());
      return false;
    }

    /**
     `sere_async_run` against an environment that answers `turns`. When it returns by itself, both
     structures are empty and everything ever scheduled was called.
     */
    method Run(turns: seq<Turn>) returns (done: bool)
      requires Valid() && Inv(Model())
      modifies this, ready, ready.items, timers, timers.items
      ensures Valid() && Inv(Model()) && History(old(Model())) <= History(Model())
      ensures done ==> Model().ready == [] && Model().timers == multiset{}
      ensures done ==> Model().scheduled == multiset(Jobs(Model().ran))
    {
      var k := 0;
      done := false;
      hide Inv, History;
      while k < |turns| && !done
        invariant 0 <= k <= |turns|
        invariant Valid() && Framed() && Inv(Model()) && History(old(Model())) <= History(Model())
        invariant done ==> Model().ready == [] && Model().timers == multiset{}
      {
        done := LoopTurn(turns[k]);
        k := k + 1;
      }
      if done { EmptyMeansCalled(Model()); }
    }
  }

  /** What the clock reads after some time; it never reads more than 64 bits hold. */
  function Later(clock: int, elapsed: nat): (now: int)
    requires clock <= INT64_MAX
    ensures clock <= now <= INT64_MAX
  {
    if clock + elapsed <= INT64_MAX then clock + elapsed else INT64_MAX
  }

  lemma ClockFits(s: State)
    requires Inv(s)
    ensures 0 <= s.clock <= INT64_MAX
  {}

  lemma StepIsSafe(s: State, e: Event, t: State)
    requires Inv(s) && Next(s, e, t)
    ensures Inv(t) && History(s) <= History(t)
  {
    StepKeepsInv(s, e, t);
    StepExtendsHistory(s, e, t);
  }

  lemma EmptyMeansCalled(s: State)
    requires Inv(s) && s.ready == [] && s.timers == multiset{}
    ensures s.scheduled == multiset(Jobs(s.ran))
  {
    assert History(s) == Jobs(s.ran);
  }

  /** The jobs moved so far and the timers left, after some turns of the inner loop. */
  ghost predicate Moved(batch: seq<Job>, rest: seq<Job>, all: multiset<Job>, now: int) {
    && multiset(batch) + multiset(rest) == all
    && SortedByDue(batch) && (forall j :: j in batch ==> j.due <= now)
    && forall i, j :: i in batch && j in rest ==> i.due <= j.due
  }

  lemma MovedStep(batch: seq<Job>, before: seq<Job>, after: seq<Job>, first: Job, all: multiset<Job>, now: int)
    requires Moved(batch, before, all, now) && before != [] && before[0] == first && first.due <= now
    requires multiset(after) == multiset(before) - multiset{first}
    requires forall other :: other in before ==> first.due <= other.due
    ensures Moved(batch + [first], after, all, now)
  {
    forall j | j in after ensures j in before { assert j in multiset(after); }
    assert first in multiset(before);
    assert multiset(batch + [first]) == multiset(batch) + multiset{first};
  }

  /** Moving every expired timer is one step of the model. */
  lemma MovedIsStep(s: State, was: seq<Job>, batch: seq<Job>, rest: seq<Job>, now: int)
    requires s.ready == [] && s.timers == multiset(was) && was != [] && s.clock <= now <= INT64_MAX
    requires Moved(batch, rest, multiset(was), now) && forall j :: j in rest ==> j.due > now
    ensures Next(s, Expire(now, batch), s.(ready := batch, timers := multiset(rest), clock := now))
  {
    assert was[0] in multiset(was);
    assert multiset(was) - multiset(batch) == multiset(rest);
    forall j | j in multiset(was) - multiset(batch) ensures j.due > now { assert j in multiset(rest); }
  }

  lemma RestIsLater(rest: seq<Job>, now: int)
    requires HeapOrdered(rest) && (|rest| > 0 ==> rest[0].due > now)
    ensures forall j :: j in rest ==> j.due > now
  {
    forall j | j in rest ensures j.due > now {
      var i :| 0 <= i < |rest| && rest[i] == j;
      RootIsLeast(rest, i);
    }
  }
}
