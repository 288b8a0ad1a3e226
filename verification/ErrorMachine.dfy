/**
 The exception objects and handler frames of runtime/sere_rt.c, changed in place: every error's
 count is the number of places that hold it, and it is freed exactly when that becomes zero.
 */
module ErrorMachine {
  import opened Wrappers
  import opened ErrorStack

  class Error {
    const kind: string
    const message: string
    var refs: int
    var freed: bool

    constructor (kind: string, message: string)
      ensures refs == 1 && !freed && this.kind == kind && this.message == message
    {
      this.kind, this.message, refs, freed := kind, message, 1, false;
    }
  }

  class Frame {
    const error: Error?
    const previous: Frame?

    constructor (error: Error?, previous: Frame?)
      ensures this.error == error && this.previous == previous
    {
      this.error, this.previous := error, previous;
    }
  }

  function Maybe(e: Error?): Option<Error> { if e == null then None else Some(e) }

  function Holdings(frames: seq<Frame>): (r: seq<Option<Error>>)
    ensures |r| == |frames| && forall k :: 0 <= k < |r| ==> r[k] == Maybe(frames[k].error)
  {
    if frames == [] then [] else [Maybe(frames[0].error)] + Holdings(frames[1..])
  }

  /** The frames are linked innermost first. */
  predicate Linked(first: Frame?, frames: seq<Frame>) {
    if frames == [] then first == null else first == frames[0] && Linked(first.previous, frames[1..])
  }

  lemma {:induction false} WhereHeld(frames: seq<Option<Error>>, e: Error) returns (k: nat)
    requires InFrames(frames, e) > 0
    ensures k < |frames| && frames[k] == Some(e)
  {
    if frames[0] == Some(e) {
      k := 0;
    } else {
      k := WhereHeld(frames[1..], e);
      k := k + 1;
    }
  }

  class Errors {
    var pending: Error?
    var handled: Frame?
    ghost var frames: seq<Frame>
    ghost var all: set<Error>

    /** What is held where. */
    ghost function Held(): State<Error>
      reads this
    {
      State(Maybe(pending), Holdings(frames))
    }

    /** Every error ever raised is counted right, and is freed exactly when nobody holds it. */
    ghost predicate Counted(s: State<Error>)
      reads this, all
    {
      && (forall e :: e in all ==> e.refs == Owners(s, e) && (e.freed <==> Owners(s, e) == 0))
      && (s.pending.Some? ==> s.pending.value in all)
      && forall k :: 0 <= k < |s.frames| && s.frames[k].Some? ==> s.frames[k].value in all
    }

    ghost predicate Valid()
      reads this, all
    {
      Linked(handled, frames) && Counted(Held())
    }

    constructor ()
      ensures Valid() && Held() == State(None, []) && all == {}
    {
      pending, handled, frames, all := null, null, [], {};
    }

    /** `releaseError`. */
    static method Release(e: Error?)
      requires e != null ==> !e.freed
      modifies e
      ensures e != null ==> e.refs == old(e.refs) - 1 && e.freed == (e.refs == 0)
    {
      if e != null {
        e.refs := e.refs - 1;
        if e.refs == 0 { e.freed := true; }
      }
    }

    /** `sere_clear_error`. */
    method Clear()
      requires Valid()
      modifies this`pending, all
      ensures Valid() && Held() == Next(old(Held()), Op<Error>.Clear)
    {
      Release(pending);
      pending := null;
    }

    /** `sere_raise`, with the class names and message it copies. */
    method Raise(kind: Option<string>, message: string) returns (e: Error)
      requires Valid()
      modifies this`pending, this`all, all
      ensures Valid() && fresh(e) && all == old(all) + {e} && e.message == message
      ensures e.kind == (if kind == None then "Exception" else kind.value)
      ensures Held() == Next(old(Held()), Op.Raise(e))
    {
      e := new Error(if kind == None then "Exception" else kind.value, message);
      Clear();
      UnknownIsNotHeld(Held(), e);
      pending := e;
      all := all + {e};
    }

    /** `sere_error_enter`. */
    method Enter()
      requires Valid()
      modifies this`pending, this`handled, this`frames
      ensures Valid() && Held() == Next(old(Held()), Op<Error>.Enter)
    {
      var frame := new Frame(pending, handled);
      handled := frame;
      frames := [frame] + frames;
      assert frames[1..] == old(frames);
      pending := null;
    }

    /** `sere_error_leave`. */
    method Leave(restore: bool)
      requires Valid()
      modifies this`pending, this`handled, this`frames, all
      ensures Valid() && Held() == Next(old(Held()), Op<Error>.Leave(restore))
    {
      var frame := handled;
      if frame == null { return; }
      handled := frame.previous;
      frames := frames[1..];
      if restore && pending == null {
        pending := frame.error;
      } else {
        Release(frame.error);
      }
    }

    /** `sere_reraise`. */
    method Reraise() returns (ghost spare: Error)
      requires Valid()
      modifies this`pending, this`all, all
      ensures Valid() && Held() == Next(old(Held()), Op.Reraise(spare))
      ensures Innermost(old(Held()).frames) == None ==> fresh(spare) && spare.kind == "RuntimeError;Exception"
    {
      var frame := handled;
      ghost var rest := frames;
      while frame != null
        invariant Linked(frame, rest) && Innermost(Holdings(rest)) == Innermost(Holdings(frames))
        decreases |rest|
      {
        if frame.error != null {
          spare := frame.error;
          InnermostIsHeld(Holdings(frames));
          TakeAgain(frame.error);
          return;
        }
        frame := frame.previous;
        rest := rest[1..];
      }
      spare := Raise(Some("RuntimeError;Exception"), "no active exception to reraise");
    }

    /** A held error becomes pending as well. */
    method TakeAgain(e: Error)
      requires Valid() && InFrames(Held().frames, e) > 0
      modifies this`pending, all
      ensures Valid() && Held() == old(Held()).(pending := Some(e))
    {
      HeldIsKnown(Held(), e);
      e.refs := e.refs + 1;
      Release(pending);
      pending := e;
    }

    lemma UnknownIsNotHeld(s: State<Error>, e: Error)
      requires Counted(s) && e !in all
      ensures Owners(s, e) == 0
    {
      if InFrames(s.frames, e) > 0 { HeldIsKnown(s, e); }
    }

    lemma HeldIsKnown(s: State<Error>, e: Error)
      requires Counted(s) && InFrames(s.frames, e) > 0
      ensures e in all
    {
      var k := WhereHeld(s.frames, e);
    }
  }
}
