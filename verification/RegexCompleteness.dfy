/**
 The ordered successes against declarative relations, on pattern trees.

 `AltTakes` and its companions are the declarative meaning with one restriction: every repetition
 of a quantified item must consume text. All ordered successes are ends in this relation and hence
 in the unrestricted one. They are all of its ends when every group has a fixed width, so that
 keeping only a group's first end loses nothing.
 */
module RegexCompleteness {
  import opened Wrappers
  import opened RegexSyntax

  // ---------------------------------------------------------------- repetitions that consume text

  ghost predicate AtomTakes(x: Atom, t: string, i: nat, j: nat)
    decreases x, 0
  {
    match x
    case Group(body) => AltTakes(body, t, i, j)
    case _ => AtomRel(x, t, i, j)
  }

  ghost predicate Takes(x: Atom, t: string, n: nat, i: nat, j: nat)
    decreases x, n + 1
  {
    if n == 0 then i == j
    else exists k: nat :: i < k && AtomTakes(x, t, i, k) && Takes(x, t, n - 1, k, j)
  }

  ghost predicate HeadTakes(x: Atom, q: Quant, t: string, n: nat, i: nat, k: nat)
    decreases x, n + 2
  {
    if q == Once then n == 1 && AtomTakes(x, t, i, k) else CountAllowed(q, n) && Takes(x, t, n, i, k)
  }

  ghost predicate SeqTakes(s: Seq, t: string, i: nat, j: nat) {
    match s
    case Nil => i == j
    case Cons(x, q, rest) => exists n: nat, k: nat :: HeadTakes(x, q, t, n, i, k) && SeqTakes(rest, t, k, j)
  }

  ghost predicate AltTakes(r: Alt, t: string, i: nat, j: nat) {
    match r
    case Only(s) => SeqTakes(s, t, i, j)
    case Or(s, others) => SeqTakes(s, t, i, j) || AltTakes(others, t, i, j)
  }

  // ---------------------------------------------------------------- every success is such an end

  lemma {:induction false} StepTakes(x: Atom, t: string, i: nat)
    requires i <= |t| && Step(x, t, i).Some?
    ensures AtomTakes(x, t, i, Step(x, t, i).value)
    decreases x, 0, 0
  {
    if x.Group? { EndsAltTake(x.body, t, i, Step(x, t, i).value); }
  }

  lemma OneMore(x: Atom, t: string, n: nat, i: nat, m: nat, k: nat)
    requires i < m && AtomTakes(x, t, i, m) && Takes(x, t, n, m, k)
    ensures Takes(x, t, n + 1, i, k)
  {}

  /** An end of the greedy list follows some number of consuming repetitions. */
  lemma {:induction false} EndsGreedyTake(s: Seq, t: string, i: nat, j: nat) returns (n: nat, k: nat)
    requires s.Cons? && i <= |t| && j in EndsGreedy(s, t, i)
    ensures Takes(s.atom, t, n, i, k) && SeqTakes(s.rest, t, k, j)
    decreases s, |t| - i, 0
  {
    var step := Step(s.atom, t, i);
    if step.Some? && step.value > i && j in EndsGreedy(s, t, step.value) {
      StepTakes(s.atom, t, i);
      n, k := EndsGreedyTake(s, t, step.value, j);
      OneMore(s.atom, t, n, i, step.value, k);
      n := n + 1;
    } else {
      EndsSeqTake(s.rest, t, i, j);
      n, k := 0, i;
    }
  }

  lemma {:induction false} EndsSeqTake(s: Seq, t: string, i: nat, j: nat)
    requires i <= |t| && j in EndsSeq(s, t, i)
    ensures SeqTakes(s, t, i, j)
    decreases s, |t| - i, 2
  {
    if s.Cons? {
      var n, k := EndsHeadTake(s, t, i, j);
    }
  }

  lemma {:induction false} EndsHeadTake(s: Seq, t: string, i: nat, j: nat) returns (n: nat, k: nat)
    requires s.Cons? && i <= |t| && j in EndsSeq(s, t, i)
    ensures HeadTakes(s.atom, s.quant, t, n, i, k) && SeqTakes(s.rest, t, k, j)
    decreases s, |t| - i, 1
  {
    var step := Step(s.atom, t, i);
    if step.Some? { StepTakes(s.atom, t, i); }
    match s.quant
    case Once =>
      EndsSeqTake(s.rest, t, step.value, j);
      n, k := 1, step.value;
    case Star =>
      n, k := EndsGreedyTake(s, t, i, j);
    case Plus =>
      n, k := EndsGreedyTake(s, t, step.value, j);
      OneMore(s.atom, t, n, i, step.value, k);
      n := n + 1;
    case Optional =>
      if step.Some? && step.value > i && j in EndsSeq(s.rest, t, step.value) {
        EndsSeqTake(s.rest, t, step.value, j);
        n, k := 1, step.value;
        OneMore(s.atom, t, 0, i, k, k);
      } else {
        EndsSeqTake(s.rest, t, i, j);
        n, k := 0, i;
      }
  }

  lemma {:induction false} EndsAltTake(r: Alt, t: string, i: nat, j: nat)
    requires i <= |t| && j in EndsAlt(r, t, i)
    ensures AltTakes(r, t, i, j)
    decreases r, 0, 0
  {
    match r
    case Only(s) => EndsSeqTake(s, t, i, j);
    case Or(s, others) =>
      if j in EndsSeq(s, t, i) { EndsSeqTake(s, t, i, j); }
      else { EndsAltTake(others, t, i, j); }
  }

  // ---------------------------------------------------------------- and one of the unrestricted relation

  lemma {:induction false} AtomTakesIsRel(x: Atom, t: string, i: nat, j: nat)
    requires AtomTakes(x, t, i, j)
    ensures AtomRel(x, t, i, j)
    decreases x, 0
  {
    if x.Group? { TakesIsRel(x.body, t, i, j); }
  }

  lemma {:induction false} TakesIsRepeated(x: Atom, t: string, n: nat, i: nat, j: nat)
    requires Takes(x, t, n, i, j)
    ensures Repeated(x, t, n, i, j)
    decreases x, n + 1
  {
    if n > 0 {
      var k: nat :| i < k && AtomTakes(x, t, i, k) && Takes(x, t, n - 1, k, j);
      AtomTakesIsRel(x, t, i, k);
      TakesIsRepeated(x, t, n - 1, k, j);
    }
  }

  lemma {:induction false} SeqTakesIsRel(s: Seq, t: string, i: nat, j: nat)
    requires SeqTakes(s, t, i, j)
    ensures SeqRel(s, t, i, j)
    decreases s
  {
    if s.Cons? {
      var n: nat, k: nat :| HeadTakes(s.atom, s.quant, t, n, i, k) && SeqTakes(s.rest, t, k, j);
      if s.quant == Once {
        AtomTakesIsRel(s.atom, t, i, k);
        assert Repeated(s.atom, t, 0, k, k);
      } else {
        TakesIsRepeated(s.atom, t, n, i, k);
      }
      SeqTakesIsRel(s.rest, t, k, j);
      assert CountAllowed(s.quant, n) && Repeated(s.atom, t, n, i, k) && SeqRel(s.rest, t, k, j);
    }
  }

  lemma {:induction false} TakesIsRel(r: Alt, t: string, i: nat, j: nat)
    requires AltTakes(r, t, i, j)
    ensures AltRel(r, t, i, j)
    decreases r
  {
    match r
    case Only(s) => SeqTakesIsRel(s, t, i, j);
    case Or(s, others) =>
      if SeqTakes(s, t, i, j) { SeqTakesIsRel(s, t, i, j); }
      else { TakesIsRel(others, t, i, j); }
  }

  // ---------------------------------------------------------------- fixed widths

  /** How many characters an atom matches, when that is the same for every text. */
  function WidthAtom(x: Atom): Option<nat> {
    match x
    case Start => Some(0)
    case End => Some(0)
    case Group(body) => WidthAlt(body)
    case _ => Some(1)
  }

  function WidthSeq(s: Seq): Option<nat> {
    match s
    case Nil => Some(0)
    case Cons(x, q, rest) =>
      var w, v := WidthAtom(x), WidthSeq(rest);
      if q == Once && w.Some? && v.Some? then Some(w.value + v.value) else None
  }

  function WidthAlt(r: Alt): Option<nat> {
    match r
    case Only(s) => WidthSeq(s)
    case Or(s, others) => if WidthSeq(s) == WidthAlt(others) then WidthSeq(s) else None
  }

  lemma {:induction false} AtomWidth(x: Atom, t: string, i: nat, j: nat)
    requires WidthAtom(x).Some? && AtomRel(x, t, i, j)
    ensures j == i + WidthAtom(x).value
    decreases x
  {
    if x.Group? { AltWidth(x.body, t, i, j); }
  }

  lemma OnceIs(x: Atom, t: string, i: nat, k: nat)
    requires Repeated(x, t, 1, i, k)
    ensures AtomRel(x, t, i, k)
  {
    var m: nat :| AtomRel(x, t, i, m) && Repeated(x, t, 0, m, k);
  }

  lemma {:induction false} SeqWidth(s: Seq, t: string, i: nat, j: nat)
    requires WidthSeq(s).Some? && SeqRel(s, t, i, j)
    ensures j == i + WidthSeq(s).value
    decreases s
  {
    if s.Cons? {
      var n: nat, k: nat :|
        CountAllowed(s.quant, n) && Repeated(s.atom, t, n, i, k) && SeqRel(s.rest, t, k, j);
      OnceIs(s.atom, t, i, k);
      AtomWidth(s.atom, t, i, k);
      SeqWidth(s.rest, t, k, j);
    }
  }

  lemma {:induction false} AltWidth(r: Alt, t: string, i: nat, j: nat)
    requires WidthAlt(r).Some? && AltRel(r, t, i, j)
    ensures j == i + WidthAlt(r).value
    decreases r
  {
    match r
    case Only(s) => SeqWidth(s, t, i, j);
    case Or(s, others) =>
      if SeqRel(s, t, i, j) { SeqWidth(s, t, i, j); } else { AltWidth(others, t, i, j); }
  }

  // ---------------------------------------------------------------- fixed groups lose nothing

  /** Every group has a fixed width. */
  predicate FixedSeq(s: Seq) { s.Cons? ==> WidthAtom(s.atom).Some? && FixedSeq(s.rest) }

  predicate FixedGroups(r: Alt) {
    match r
    case Only(s) => FixedSeq(s)
    case Or(s, others) => FixedSeq(s) && FixedGroups(others)
  }

  lemma {:induction false} WidthIsFixedSeq(s: Seq)
    requires WidthSeq(s).Some?
    ensures FixedSeq(s)
  {
    if s.Cons? { WidthIsFixedSeq(s.rest); }
  }

  lemma {:induction false} WidthIsFixed(r: Alt)
    requires WidthAlt(r).Some?
    ensures FixedGroups(r)
  {
    match r
    case Only(s) => WidthIsFixedSeq(s);
    case Or(s, others) => WidthIsFixedSeq(s); WidthIsFixed(others);
  }

  lemma {:induction false} TakesIsStep(x: Atom, t: string, i: nat, k: nat)
    requires WidthAtom(x).Some? && i <= |t| && AtomTakes(x, t, i, k)
    ensures Step(x, t, i) == Some(k)
    decreases x, 0, 0
  {
    if x.Group? {
      hide AltTakes, AltRel, EndsAlt;
      WidthIsFixed(x.body);
      TakesIsEnd(x.body, t, i, k);
      var first := EndsAlt(x.body, t, i)[0];
      EndsAltTake(x.body, t, i, first);
      TakesIsRel(x.body, t, i, first);
      TakesIsRel(x.body, t, i, k);
      AltWidth(x.body, t, i, first);
      AltWidth(x.body, t, i, k);
    }
  }

  lemma {:induction false} TakesIsGreedyEnd(s: Seq, t: string, n: nat, i: nat, k: nat, j: nat)
    requires s.Cons? && FixedSeq(s) && i <= |t| && Takes(s.atom, t, n, i, k) && SeqTakes(s.rest, t, k, j)
    ensures j in EndsGreedy(s, t, i)
    decreases s, 0, n
  {
    if n == 0 {
      SeqTakesIsEnd(s.rest, t, i, j);
    } else {
      var m: nat :| i < m && AtomTakes(s.atom, t, i, m) && Takes(s.atom, t, n - 1, m, k);
      TakesIsStep(s.atom, t, i, m);
      TakesIsGreedyEnd(s, t, n - 1, m, k, j);
    }
  }

  lemma {:induction false} HeadTakesIsEnd(s: Seq, t: string, n: nat, i: nat, k: nat, j: nat)
    requires s.Cons? && FixedSeq(s) && i <= |t|
    requires HeadTakes(s.atom, s.quant, t, n, i, k) && SeqTakes(s.rest, t, k, j)
    ensures j in EndsSeq(s, t, i)
    decreases s, 1, 0
  {
    if s.quant == Once {
      TakesIsStep(s.atom, t, i, k);
      SeqTakesIsEnd(s.rest, t, k, j);
    } else if s.quant == Star {
      TakesIsGreedyEnd(s, t, n, i, k, j);
    } else if n == 0 {
      SeqTakesIsEnd(s.rest, t, i, j);
    } else {
      assert Takes(s.atom, t, n, i, k);
      var m: nat :| i < m && AtomTakes(s.atom, t, i, m) && Takes(s.atom, t, n - 1, m, k);
      TakesIsStep(s.atom, t, i, m);
      if s.quant == Plus { TakesIsGreedyEnd(s, t, n - 1, m, k, j); } else { SeqTakesIsEnd(s.rest, t, k, j); }
    }
  }

  lemma {:induction false} SeqTakesIsEnd(s: Seq, t: string, i: nat, j: nat)
    requires FixedSeq(s) && i <= |t| && SeqTakes(s, t, i, j)
    ensures j in EndsSeq(s, t, i)
    decreases s, 2, 0
  {
    if s.Cons? {
      var n: nat, k: nat :| HeadTakes(s.atom, s.quant, t, n, i, k) && SeqTakes(s.rest, t, k, j);
      HeadTakesIsEnd(s, t, n, i, k, j);
    }
  }

  lemma {:induction false} TakesIsEnd(r: Alt, t: string, i: nat, j: nat)
    requires FixedGroups(r) && i <= |t| && AltTakes(r, t, i, j)
    ensures j in EndsAlt(r, t, i)
    decreases r, 0, 0
  {
    match r
    case Only(s) => SeqTakesIsEnd(s, t, i, j);
    case Or(s, others) =>
      if SeqTakes(s, t, i, j) { SeqTakesIsEnd(s, t, i, j); }
      else { TakesIsEnd(others, t, i, j); }
  }

  /**
   When every group has a fixed width, the ordered successes are exactly the ends at which every
   repetition of a quantified item consumes text.
   */
  lemma SuccessesConsume(r: Alt, t: string, i: nat, j: nat)
    requires FixedGroups(r) && i <= |t|
    ensures j in EndsAlt(r, t, i) <==> AltTakes(r, t, i, j)
  {
    if j in EndsAlt(r, t, i) { EndsAltTake(r, t, i, j); }
    if AltTakes(r, t, i, j) { TakesIsEnd(r, t, i, j); }
  }

  // ---------------------------------------------------------------- when consuming is no restriction

  /** Every group has a fixed width, and nothing of width zero stands under '+'. */
  predicate SimpleSeq(s: Seq) {
    s.Cons? ==> WidthAtom(s.atom).Some? && !(s.quant.Plus? && WidthAtom(s.atom) == Some(0)) && SimpleSeq(s.rest)
  }

  predicate SimpleAlt(r: Alt) {
    match r
    case Only(s) => SimpleSeq(s)
    case Or(s, others) => SimpleSeq(s) && SimpleAlt(others)
  }

  lemma {:induction false} WidthIsSimpleSeq(s: Seq)
    requires WidthSeq(s).Some?
    ensures SimpleSeq(s)
  {
    if s.Cons? { WidthIsSimpleSeq(s.rest); }
  }

  lemma {:induction false} WidthIsSimple(r: Alt)
    requires WidthAlt(r).Some?
    ensures SimpleAlt(r)
  {
    match r
    case Only(s) => WidthIsSimpleSeq(s);
    case Or(s, others) => WidthIsSimpleSeq(s); WidthIsSimple(others);
  }

  lemma {:induction false} SimpleIsFixed(r: Alt)
    requires SimpleAlt(r)
    ensures FixedGroups(r)
  {
    match r
    case Only(s) => SimpleIsFixedSeq(s);
    case Or(s, others) => SimpleIsFixedSeq(s); SimpleIsFixed(others);
  }

  lemma {:induction false} SimpleIsFixedSeq(s: Seq)
    requires SimpleSeq(s)
    ensures FixedSeq(s)
  {
    if s.Cons? { SimpleIsFixedSeq(s.rest); }
  }

  lemma {:induction false} RelIsAtomTakes(x: Atom, t: string, i: nat, k: nat)
    requires WidthAtom(x).Some? && AtomRel(x, t, i, k)
    ensures AtomTakes(x, t, i, k) && k == i + WidthAtom(x).value
    decreases x, 0, 0
  {
    AtomWidth(x, t, i, k);
    if x.Group? {
      WidthIsSimple(x.body);
      RelIsTakes(x.body, t, i, k);
    }
  }

  /** Repetitions of something of width zero can be left out. */
  lemma {:induction false} RepeatedIsTakes(x: Atom, t: string, n: nat, i: nat, k: nat) returns (m: nat)
    requires WidthAtom(x).Some? && Repeated(x, t, n, i, k)
    ensures Takes(x, t, m, i, k) && m == if WidthAtom(x) == Some(0) then 0 else n
    decreases x, 1, n
  {
    m := 0;
    if n > 0 {
      var next: nat :| AtomRel(x, t, i, next) && Repeated(x, t, n - 1, next, k);
      RelIsAtomTakes(x, t, i, next);
      m := RepeatedIsTakes(x, t, n - 1, next, k);
      if WidthAtom(x) != Some(0) {
        OneMore(x, t, m, i, next, k);
        m := m + 1;
      }
    }
  }

  lemma {:induction false} RelIsSeqTakes(s: Seq, t: string, i: nat, j: nat)
    requires SimpleSeq(s) && SeqRel(s, t, i, j)
    ensures SeqTakes(s, t, i, j)
    decreases s, 2, 0
  {
    if s.Cons? {
      var n: nat, k: nat :|
        CountAllowed(s.quant, n) && Repeated(s.atom, t, n, i, k) && SeqRel(s.rest, t, k, j);
      RelIsSeqTakes(s.rest, t, k, j);
      if s.quant == Once {
        OnceIs(s.atom, t, i, k);
        RelIsAtomTakes(s.atom, t, i, k);
        assert HeadTakes(s.atom, s.quant, t, 1, i, k);
      } else {
        var m := RepeatedIsTakes(s.atom, t, n, i, k);
        assert HeadTakes(s.atom, s.quant, t, m, i, k);
      }
    }
  }

  lemma {:induction false} RelIsTakes(r: Alt, t: string, i: nat, j: nat)
    requires SimpleAlt(r) && AltRel(r, t, i, j)
    ensures AltTakes(r, t, i, j)
    decreases r, 0, 0
  {
    match r
    case Only(s) => RelIsSeqTakes(s, t, i, j);
    case Or(s, others) =>
      if SeqRel(s, t, i, j) { RelIsSeqTakes(s, t, i, j); }
      else { RelIsTakes(others, t, i, j); }
  }

  // ---------------------------------------------------------------- patterns that never match

  /** An item that no text satisfies: something of width zero under '+', or a group stuck inside. */
  predicate StuckItem(x: Atom, q: Quant) {
    (q.Plus? && WidthAtom(x) == Some(0)) || ((q.Once? || q.Plus?) && x.Group? && StuckAlt(x.body))
  }

  predicate StuckSeq(s: Seq) { s.Cons? && (StuckItem(s.atom, s.quant) || StuckSeq(s.rest)) }

  /** Every branch has such an item. */
  predicate StuckAlt(r: Alt) {
    match r
    case Only(s) => StuckSeq(s)
    case Or(s, others) => StuckSeq(s) && StuckAlt(others)
  }

  lemma EmptyStepStays(x: Atom, t: string, i: nat)
    requires WidthAtom(x) == Some(0) && i <= |t| && Step(x, t, i).Some?
    ensures Step(x, t, i) == Some(i)
  {
    StepTakes(x, t, i);
    AtomTakesIsRel(x, t, i, Step(x, t, i).value);
    AtomWidth(x, t, i, Step(x, t, i).value);
  }

  lemma {:induction false} StuckItemEnds(s: Seq, t: string, i: nat)
    requires s.Cons? && StuckItem(s.atom, s.quant) && i <= |t|
    ensures EndsSeq(s, t, i) == []
    decreases s, |t| - i, 1
  {
    hide EndsGreedy;
    if s.quant.Plus? && WidthAtom(s.atom) == Some(0) {
      if Step(s.atom, t, i).Some? { EmptyStepStays(s.atom, t, i); }
    } else {
      StuckAltEnds(s.atom.body, t, i);
    }
  }

  lemma {:induction false} StuckRestGreedy(s: Seq, t: string, i: nat)
    requires s.Cons? && StuckSeq(s.rest) && i <= |t|
    ensures EndsGreedy(s, t, i) == []
    decreases s, |t| - i, 0
  {
    StuckSeqEnds(s.rest, t, i);
    var step := Step(s.atom, t, i);
    if step.Some? && step.value > i { StuckRestGreedy(s, t, step.value); }
  }

  lemma {:induction false} StuckSeqEnds(s: Seq, t: string, i: nat)
    requires StuckSeq(s) && i <= |t|
    ensures EndsSeq(s, t, i) == []
    decreases s, |t| - i, 2
  {
    if StuckItem(s.atom, s.quant) {
      StuckItemEnds(s, t, i);
    } else {
      hide StuckItem, EndsGreedy;
      StuckSeqEnds(s.rest, t, i);
      StuckRestGreedy(s, t, i);
      var step := Step(s.atom, t, i);
      if step.Some? {
        StuckSeqEnds(s.rest, t, step.value);
        StuckRestGreedy(s, t, step.value);
      }
    }
  }

  lemma {:induction false} StuckAltEnds(r: Alt, t: string, i: nat)
    requires StuckAlt(r) && i <= |t|
    ensures EndsAlt(r, t, i) == []
    decreases r, 0, 0
  {
    match r
    case Only(s) => StuckSeqEnds(s, t, i);
    case Or(s, others) =>
      StuckSeqEnds(s, t, i);
      StuckAltEnds(others, t, i);
  }
}
