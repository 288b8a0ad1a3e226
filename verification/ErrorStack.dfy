/**
 The pending and handled exceptions of runtime/sere_rt.c as a state machine: who holds which error
 after any run of raise, enter, leave, reraise and clear.
 */
module ErrorStack {
  import opened Wrappers

  /** The pending error and what each handler frame holds, innermost first. */
  datatype State<E> = State(pending: Option<E>, frames: seq<Option<E>>)

  /** An error to raise is named by the operation; `reraise` needs one for when there is none to raise. */
  datatype Op<E> = Raise(error: E) | Enter | Leave(restore: bool) | Reraise(spare: E) | Clear

  function Innermost<E>(frames: seq<Option<E>>): (r: Option<E>)
    ensures r == None <==> forall k :: 0 <= k < |frames| ==> frames[k] == None
  {
    if frames == [] then None else if frames[0].Some? then frames[0] else Innermost(frames[1..])
  }

  function Next<E>(s: State<E>, op: Op<E>): State<E> {
    match op
    case Raise(e) => s.(pending := Some(e))
    case Enter => State(None, [s.pending] + s.frames)
    case Leave(restore) =>
      if s.frames == [] then s
      else State(if restore && s.pending == None then s.frames[0] else s.pending, s.frames[1..])
    case Reraise(spare) =>
      s.(pending := if Innermost(s.frames).Some? then Innermost(s.frames) else Some(spare))
    case Clear => s.(pending := None)
  }

  function Run<E>(s: State<E>, ops: seq<Op<E>>): State<E>
    decreases |ops|
  {
    if ops == [] then s else Run(Next(s, ops[0]), ops[1..])
  }

  // ---------------------------------------------------------------- owners

  function InFrames<E(==)>(frames: seq<Option<E>>, e: E): nat {
    if frames == [] then 0 else (if frames[0] == Some(e) then 1 else 0) + InFrames(frames[1..], e)
  }

  /** How many places hold an error. */
  function Owners<E(==)>(s: State<E>, e: E): nat {
    (if s.pending == Some(e) then 1 else 0) + InFrames(s.frames, e)
  }

  lemma {:induction false} InnermostIsHeld<E>(frames: seq<Option<E>>)
    requires Innermost(frames).Some?
    ensures InFrames(frames, Innermost(frames).value) > 0
  {
    if frames[0] == None { InnermostIsHeld(frames[1..]); }
  }

  predicate Introduces<E(==)>(op: Op<E>, e: E) { op == Raise(e) || op == Reraise(e) }

  lemma OwnersStayZero<E>(s: State<E>, op: Op<E>, e: E)
    requires Owners(s, e) == 0 && !Introduces(op, e)
    ensures Owners(Next(s, op), e) == 0
  {
    if op.Reraise? && Innermost(s.frames) == Some(e) { InnermostIsHeld(s.frames); }
  }

  /** An error nobody holds any more is never held again, in any run that does not raise it anew. */
  lemma {:induction false} FreedForGood<E>(s: State<E>, ops: seq<Op<E>>, e: E)
    requires Owners(s, e) == 0 && forall k :: 0 <= k < |ops| ==> !Introduces(ops[k], e)
    ensures Owners(Run(s, ops), e) == 0
    decreases |ops|
  {
    if ops != [] {
      OwnersStayZero(s, ops[0], e);
      FreedForGood(Next(s, ops[0]), ops[1..], e);
    }
  }

  /** Reraise picks the error of the innermost frame that has one. */
  lemma {:induction false} ReraisePicks<E>(s: State<E>, spare: E) returns (k: nat)
    ensures k <= |s.frames| && forall j :: 0 <= j < k ==> s.frames[j] == None
    ensures k < |s.frames| ==> s.frames[k].Some? && Next(s, Reraise(spare)) == s.(pending := s.frames[k])
    ensures k == |s.frames| ==> Next(s, Reraise(spare)) == s.(pending := Some(spare))
    decreases |s.frames|
  {
    if s.frames == [] || s.frames[0].Some? {
      k := 0;
    } else {
      k := ReraisePicks(s.(frames := s.frames[1..]), spare);
      k := k + 1;
    }
  }

  // ---------------------------------------------------------------- brackets

  /** A run that raises nothing new and never leaves more handlers than it entered. */
  predicate Nested<E>(ops: seq<Op<E>>, depth: nat) {
    if ops == [] then depth == 0
    else
      match ops[0]
      case Raise(e) => false
      case Enter => Nested(ops[1..], depth + 1)
      case Leave(r) => depth > 0 && Nested(ops[1..], depth - 1)
      case _ => Nested(ops[1..], depth)
  }

  /** Inside a bracket around `e`: nothing but `e` is pending or held above the bracket's own frame. */
  predicate Inside<E(==)>(s: State<E>, e: E, below: seq<Option<E>>, depth: nat) {
    && |s.frames| == depth + 1 + |below|
    && s.frames[depth] == Some(e) && s.frames[depth + 1..] == below
    && (forall k :: 0 <= k < depth ==> s.frames[k] == None || s.frames[k] == Some(e))
    && (s.pending == None || s.pending == Some(e))
  }

  lemma {:induction false} InnermostInside<E>(frames: seq<Option<E>>, e: E, depth: nat)
    requires depth < |frames| && frames[depth] == Some(e)
    requires forall k :: 0 <= k < depth ==> frames[k] == None || frames[k] == Some(e)
    ensures Innermost(frames) == Some(e)
    decreases depth
  {
    if frames[0] == None { InnermostInside(frames[1..], e, depth - 1); }
  }

  function DepthAfter<E>(op: Op<E>, depth: nat): int {
    match op case Enter => depth + 1 case Leave(r) => depth - 1 case _ => depth
  }

  lemma StaysInside<E>(s: State<E>, op: Op<E>, e: E, below: seq<Option<E>>, depth: nat)
    requires Inside(s, e, below, depth) && !op.Raise? && (op.Leave? ==> depth > 0)
    ensures Inside(Next(s, op), e, below, DepthAfter(op, depth))
  {
    if op.Reraise? { InnermostInside(s.frames, e, depth); }
  }

  lemma {:induction false} RunStaysInside<E>(s: State<E>, ops: seq<Op<E>>, e: E, below: seq<Option<E>>, depth: nat)
    requires Inside(s, e, below, depth) && Nested(ops, depth)
    ensures Inside(Run(s, ops), e, below, 0)
    decreases |ops|
  {
    if ops != [] {
      StaysInside(s, ops[0], e, below, depth);
      RunStaysInside(Next(s, ops[0]), ops[1..], e, below, DepthAfter(ops[0], depth));
    }
  }

  /** Entering a handler, anything nested that raises nothing new, and leaving with restore: no change. */
  lemma BracketRestores<E>(s: State<E>, ops: seq<Op<E>>)
    requires s.pending.Some? && Nested(ops, 0)
    ensures Next(Run(Next(s, Enter), ops), Leave(true)) == s
  {
    RunStaysInside(Next(s, Enter), ops, s.pending.value, s.frames, 0);
  }

  /** Left without restore, the bracket keeps only what a nested reraise made pending. */
  lemma BracketConsumes<E>(s: State<E>, ops: seq<Op<E>>)
    requires s.pending.Some? && Nested(ops, 0)
    ensures var inner, out := Run(Next(s, Enter), ops), Next(Run(Next(s, Enter), ops), Leave(false));
            out.frames == s.frames && out.pending == inner.pending && (out.pending == None || out.pending == s.pending)
  {
    RunStaysInside(Next(s, Enter), ops, s.pending.value, s.frames, 0);
  }

  /**
   What a program sees of its handlers: a raised error is pending until it is cleared or replaced, a
   handler that ends normally consumes its error or gives it back, and one that raises lets the new
   error through.
   */
  lemma HandlersBehave<E>(s: State<E>, e: E)
    ensures Next(s, Raise(e)) == State(Some(e), s.frames) && Next(s, Clear) == State(None, s.frames)
    ensures Run(s, [Enter, Leave(false)]) == State(None, s.frames) && Run(s, [Enter, Leave(true)]) == s
    ensures Run(s, [Enter, Raise(e), Leave(false)]) == Run(s, [Enter, Raise(e), Leave(true)]) == State(Some(e), s.frames)
    ensures s.frames == [] ==> Next(s, Leave(false)) == Next(s, Leave(true)) == s
  {
    TwoSteps(s, Enter, Leave(false));
    TwoSteps(s, Enter, Leave(true));
    ThreeSteps(s, Enter, Raise(e), Leave(false));
    ThreeSteps(s, Enter, Raise(e), Leave(true));
    var inside := Next(s, Enter);
    assert inside == State(None, [s.pending] + s.frames);
    assert inside.frames[0] == s.pending && inside.frames[1..] == s.frames;
    var raised := Next(inside, Raise(e));
    assert raised == State(Some(e), inside.frames);
    assert Next(raised, Leave(false)) == State(Some(e), s.frames);
    assert Next(raised, Leave(true)) == State(Some(e), s.frames);
  }

  lemma OneStep<E>(s: State<E>, a: Op<E>)
    ensures Run(s, [a]) == Next(s, a)
  {
    assert [a][1..] == [];
    assert Run(Next(s, a), []) == Next(s, a);
  }

  lemma TwoSteps<E>(s: State<E>, a: Op<E>, b: Op<E>)
    ensures Run(s, [a, b]) == Next(Next(s, a), b)
  {
    var t := Next(s, a);
    assert [a, b][1..] == [b];
    assert Run(s, [a, b]) == Run(t, [b]);
    OneStep(t, b);
  }

  lemma ThreeSteps<E>(s: State<E>, a: Op<E>, b: Op<E>, c: Op<E>)
    ensures Run(s, [a, b, c]) == Next(Next(Next(s, a), b), c)
  {
    assert [a, b, c][1..] == [b, c];
    TwoSteps(Next(s, a), b, c);
  }
}
