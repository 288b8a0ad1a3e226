/**
 The cooperative executor of runtime/sere_async.c as a step system over an abstract clock.

 A job is a waker with the clock value before which it must not run; a posted waker is due at
 once. A sleep's deadline is a 64-bit sum. `ran` records each call of a waker and `scheduled` everything that was ever scheduled.
 */
module ExecutorModel {
  import opened Words
  import opened TimerHeap

  datatype Call = Call(job: Job, at: int)

  datatype State = State(ready: seq<Job>, timers: multiset<Job>, ran: seq<Call>,
                         scheduled: multiset<Job>, clock: int)

  datatype Event =
    | Post(waker: nat)
    | Sleep(waker: nat, ms: int, now: int)
    | RunFirst
    | Expire(now: int, batch: seq<Job>)

  function Ready(s: State, job: Job): State {
    s.(ready := s.ready + [job], scheduled := s.scheduled + multiset{job})
  }

  predicate SortedByDue(s: seq<Job>) {
    forall i, j :: 0 <= i < j < |s| ==> s[i].due <= s[j].due
  }

  /** The end of a sleep of `ms` from `now`. */
  function Deadline(now: int, ms: int): int { Wrap64(now + ms) }

  ghost predicate Next(s: State, e: Event, t: State) {
    match e
    case Post(w) => t == Ready(s, Job(w, s.clock))
    case Sleep(w, ms, now) =>
      if ms <= 0 then t == Ready(s, Job(w, s.clock))
      else
        var job := Job(w, Deadline(now, ms));
        && s.clock <= now <= INT64_MAX && IsInt64(ms)
        && t == s.(timers := s.timers + multiset{job}, scheduled := s.scheduled + multiset{job}, clock := now)
    case RunFirst =>
      && s.ready != []
      && t == s.(ready := s.ready[1..], ran := s.ran + [Call(s.ready[0], s.clock)])
    case Expire(now, batch) =>
      && s.ready == [] && s.timers != multiset{} && s.clock <= now <= INT64_MAX
      && multiset(batch) <= s.timers && SortedByDue(batch)
      && (forall j :: j in batch ==> j.due <= now)
      && (forall j :: j in s.timers - multiset(batch) ==> j.due > now)
      && t == s.(ready := batch, timers := s.timers - multiset(batch), clock := now)
  }

  function Jobs(calls: seq<Call>): seq<Job> {
    seq(|calls|, i requires 0 <= i < |calls| => calls[i].job)
  }

  /** Every job that entered the ready queue so far, in the order it entered. */
  function History(s: State): seq<Job> {
    Jobs(s.ran) + s.ready
  }

  /** Nothing scheduled is lost or doubled: it was called, is ready, or waits on a timer. */
  ghost predicate Conserved(s: State) {
    s.scheduled == multiset(History(s)) + s.timers
  }

  /** Nothing is ready or was called before it was due, and call times never go back. */
  ghost predicate Timely(s: State) {
    && (forall i :: 0 <= i < |s.ready| ==> s.ready[i].due <= s.clock)
    && (forall i :: 0 <= i < |s.ran| ==> s.ran[i].job.due <= s.ran[i].at <= s.clock)
    && (forall i, j :: 0 <= i < j < |s.ran| ==> s.ran[i].at <= s.ran[j].at)
  }

  ghost predicate Inv(s: State) { Conserved(s) && Timely(s) && 0 <= s.clock <= INT64_MAX }

  const Initial: State := State([], multiset{}, [], multiset{}, 0)

  lemma InitialInv()
    ensures Inv(Initial)
  {}

  /** Every step only appends to the history: the ready queue is first in, first out. */
  lemma StepExtendsHistory(s: State, e: Event, t: State)
    requires Next(s, e, t)
    ensures History(s) <= History(t)
    ensures e.RunFirst? ==> History(s) == History(t)
  {
    if e.RunFirst? {
      assert History(s) == History(t);
    }
  }

  /** The jobs a step adds at the end of the queueing order. */
  function Queued(s: State, e: Event): seq<Job> {
    match e
    case Post(w) => [Job(w, s.clock)]
    case Sleep(w, ms, now) => if ms <= 0 then [Job(w, s.clock)] else []
    case RunFirst => []
    case Expire(now, batch) => batch
  }

  lemma StepHistory(s: State, e: Event, t: State)
    requires Next(s, e, t)
    ensures History(t) == History(s) + Queued(s, e)
  {
    if e.RunFirst? { StepExtendsHistory(s, e, t); }
  }

  lemma MoveBatch(timers: multiset<Job>, batch: multiset<Job>)
    requires batch <= timers
    ensures batch + (timers - batch) == timers
  {}

  lemma StepConserves(s: State, e: Event, t: State)
    requires Conserved(s) && Next(s, e, t)
    ensures Conserved(t)
  {
    StepHistory(s, e, t);
    var h, q := History(s), Queued(s, e);
    assert multiset(h + q) == multiset(h) + multiset(q);
    hide History;
    if e.Expire? { MoveBatch(s.timers, multiset(e.batch)); }
  }

  lemma StepIsTimely(s: State, e: Event, t: State)
    requires Timely(s) && Next(s, e, t)
    ensures Timely(t)
  {
    hide Deadline, SortedByDue;
    match e
    case RunFirst => CalledInTime(s, t);
    case _ =>
  }

  lemma CalledInTime(s: State, t: State)
    requires Timely(s) && Next(s, RunFirst, t)
    ensures Timely(t)
  {
    var n := |s.ran|;
    assert t.ran[n] == Call(s.ready[0], s.clock) && forall i :: 0 <= i < n ==> t.ran[i] == s.ran[i];
    assert forall i :: 0 <= i < |t.ready| ==> t.ready[i] == s.ready[i + 1];
  }

  lemma StepKeepsInv(s: State, e: Event, t: State)
    requires Inv(s) && Next(s, e, t)
    ensures Inv(t)
  {
    StepConserves(s, e, t);
    StepIsTimely(s, e, t);
  }

  ghost predicate IsRun(states: seq<State>, events: seq<Event>) {
    && |states| == |events| + 1
    && forall k :: 0 <= k < |events| ==> Next(states[k], events[k], states[k + 1])
  }

  /**
   Over every run: the invariant holds at every state, and the history at an earlier state is a
   prefix of the history at a later one.
   */
  lemma {:induction false} RunKeepsInv(states: seq<State>, events: seq<Event>, i: nat, k: nat)
    requires IsRun(states, events) && Inv(states[0]) && i <= k < |states|
    ensures Inv(states[k]) && History(states[i]) <= History(states[k])
    decreases k
  {
    hide Inv, Next, History;
    if k > 0 {
      StepKeepsInv(states[k - 1], events[k - 1], states[k]) by {
        RunKeepsInv(states, events, k - 1, k - 1);
      }
      if i < k {
        RunKeepsInv(states, events, i, k - 1);
        StepExtendsHistory(states[k - 1], events[k - 1], states[k]);
      }
    }
  }

  /**
   What a run guarantees at any state: the jobs called so far are a prefix of the queueing order,
   no job was called before it was due, and call times never go back.
   */
  lemma RunIsFair(states: seq<State>, events: seq<Event>, k: nat)
    requires IsRun(states, events) && Inv(states[0]) && k < |states|
    ensures Jobs(states[k].ran) <= History(states[|states| - 1])
    ensures forall c :: c in states[k].ran ==> c.job.due <= c.at
    ensures states[k].ready == [] && states[k].timers == multiset{} ==>
              states[k].scheduled == multiset(Jobs(states[k].ran))
  {
    RunKeepsInv(states, events, k, |states| - 1);
    RunKeepsInv(states, events, 0, k);
    assert Jobs(states[k].ran) <= History(states[k]);
    if states[k].ready == [] { assert History(states[k]) == Jobs(states[k].ran); }
  }

  // ---------------------------------------------------------------- sleeps that end too far away

  /**
   In every run a call of a waker that slept comes no earlier than the sleep's end if and only if
   that end fits a 64-bit clock.
   */
  lemma SleepIsKept(states: seq<State>, events: seq<Event>, i: nat, k: nat, c: Call)
    requires IsRun(states, events) && Inv(states[0]) && i < |events| && k < |states| && c in states[k].ran
    requires events[i].Sleep? && events[i].ms > 0 && c.job == Job(events[i].waker, Deadline(events[i].now, events[i].ms))
    ensures c.at >= events[i].now + events[i].ms <==> events[i].now + events[i].ms <= INT64_MAX
  {
    RunKeepsInv(states, events, 0, i);
    RunKeepsInv(states, events, 0, k);
    assert Next(states[i], events[i], states[i + 1]);
  }

  /** A deadline that wrapped is due at every expiry, the next one included. */
  lemma WrappedIsDue(s: State, now: int, batch: seq<Job>, t: State, job: Job, slept: int, ms: int)
    requires Inv(s) && Next(s, Expire(now, batch), t) && job in s.timers
    requires 0 <= slept <= INT64_MAX && IsInt64(ms) && slept + ms > INT64_MAX && job.due == Deadline(slept, ms)
    ensures job in batch
  {
    WrappedIsPast(slept, ms);
    hide Wrap64, Deadline, Conserved, Timely;
    MovedOrLeft(s.timers, batch, job);
  }

  lemma MovedOrLeft(timers: multiset<Job>, batch: seq<Job>, job: Job)
    requires job in timers
    ensures job in batch || job in timers - multiset(batch)
  {
    assert job in batch <==> job in multiset(batch);
  }

  lemma WrappedIsPast(now: int, ms: int)
    requires 0 <= now <= INT64_MAX && IsInt64(ms) && now + ms > INT64_MAX
    ensures Deadline(now, ms) == now + ms - WORD64 < 0
  {}

  /** Such a waker can be called at the very time it went to sleep. */
  lemma OverlongSleepEndsAtOnce(w: nat, ms: int, now: int) returns (states: seq<State>, events: seq<Event>)
    requires 0 <= now <= INT64_MAX && IsInt64(ms) && now + ms > INT64_MAX
    ensures events == [Sleep(w, ms, now), Expire(now, [Job(w, Deadline(now, ms))]), RunFirst]
    ensures IsRun(states, events) && states[0] == Initial
    ensures states[3].ran == [Call(Job(w, Deadline(now, ms)), now)]
  {
    var job := Job(w, Deadline(now, ms));
    var a := Initial.(timers := multiset{job}, scheduled := multiset{job}, clock := now);
    var b := a.(timers := multiset{}, ready := [job]);
    var c := b.(ready := [], ran := [Call(job, now)]);
    events := [Sleep(w, ms, now), Expire(now, [job]), RunFirst];
    states := [Initial, a, b, c];
    assert Next(Initial, events[0], a);
    assert multiset([job]) == multiset{job} && multiset{job} - multiset{job} == multiset{};
    assert Next(a, events[1], b);
    assert Next(b, events[2], c);
  }

  // ---------------------------------------------------------------- sleeps that end

  /** A sleep whose end fits 64 bits adds one timer for exactly that end; a delay that is not positive adds none. */
  lemma SleepAdds(s: State, w: nat, ms: int, now: int, t: State)
    requires Next(s, Sleep(w, ms, now), t)
    ensures ms > 0 && now + ms <= INT64_MAX && s.clock >= 0 ==> t.timers == s.timers + multiset{Job(w, now + ms)} && t.ready == s.ready
    ensures ms <= 0 ==> t.timers == s.timers && t.ready == s.ready + [Job(w, s.clock)]
  {}

  /** An expiry takes a waiting timer if and only if its time has come. */
  lemma DueIsTaken(s: State, now: int, batch: seq<Job>, t: State, job: Job)
    requires Next(s, Expire(now, batch), t) && job in s.timers
    ensures job in batch <==> job.due <= now
    ensures job.due <= now <==> job !in t.timers
  {
    hide SortedByDue;
    MovedOrLeft(s.timers, batch, job);
    assert job in batch <==> job in multiset(batch);
    if job.due <= now { assert job !in s.timers - multiset(batch); }
  }

  lemma {:induction false} StaysScheduled(states: seq<State>, events: seq<Event>, i: nat, k: nat, job: Job)
    requires IsRun(states, events) && i <= k < |states| && job in states[i].scheduled
    ensures job in states[k].scheduled
    decreases k
  {
    hide Next;
    if i < k {
      StaysScheduled(states, events, i, k - 1, job);
      OnlyMoreScheduled(states[k - 1], events[k - 1], states[k], job);
    }
  }

  lemma OnlyMoreScheduled(s: State, e: Event, t: State, job: Job)
    requires Next(s, e, t) && job in s.scheduled
    ensures job in t.scheduled
  {}

  /**
   In every run: after an expiry that reads the end of a sleep or later, the waker that slept is
   ready or was called.
   */
  lemma SleepEnds(states: seq<State>, events: seq<Event>, i: nat, m: nat, w: nat, ms: int, now: int)
    requires IsRun(states, events) && Inv(states[0]) && i < m < |events|
    requires events[i] == Sleep(w, ms, now) && ms > 0 && now + ms <= INT64_MAX
    requires events[m].Expire? && events[m].now >= now + ms
    ensures Job(w, now + ms) in History(states[m + 1])
  {
    var job := Job(w, now + ms);
    RunKeepsInv(states, events, 0, i);
    RunKeepsInv(states, events, 0, m + 1);
    assert Next(states[i], events[i], states[i + 1]) && Next(states[m], events[m], states[m + 1]);
    SleepSchedules(states[i], w, ms, now, states[i + 1]);
    StaysScheduled(states, events, i + 1, m + 1, job);
    NoneDueIsLeft(states[m], events[m].now, events[m].batch, states[m + 1], job);
    hide Next, History, Timely;
    assert job in multiset(History(states[m + 1]));
  }

  lemma SleepSchedules(s: State, w: nat, ms: int, now: int, t: State)
    requires Inv(s) && Next(s, Sleep(w, ms, now), t) && ms > 0 && now + ms <= INT64_MAX
    ensures Job(w, now + ms) in t.scheduled
  {
    hide Conserved, Timely;
  }

  lemma NoneDueIsLeft(s: State, now: int, batch: seq<Job>, t: State, job: Job)
    requires Next(s, Expire(now, batch), t) && job.due <= now
    ensures job !in t.timers
  {
    if job in s.timers { DueIsTaken(s, now, batch, t, job); }
  }
}
