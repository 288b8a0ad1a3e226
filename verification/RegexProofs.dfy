/**
 The matcher against the ordered meaning of a pattern.

  1. The skip routines and the top-level '|' scan agree with the grammar.
  2. The matcher returns the head of the ordered list of successes.

 How that list relates to the declarative meaning is the subject of `RegexMeaning`.
 */
module RegexProofs {
  import opened Wrappers
  import opened RegexSyntax
  import opened RegexMatcher

  // ---------------------------------------------------------------- spelled trees fit

  lemma {:induction false} SpelledMembersFit(p: string, a: nat, ms: Members, ahead: bool)
    requires SpellsMembers(p, a, ms, ahead)
    ensures a + LenMembers(ms) < |p| && p[a + LenMembers(ms)] == ']'
    decreases ms
  {
    if ms.More? { SpelledMembersFit(p, a + LenMember(ms.m), ms.rest, Ahead(ms.m, ahead)); }
  }

  lemma SpelledAtomFits(p: string, a: nat, x: Atom)
    requires SpellsAtom(p, a, x)
    ensures a + LenAtom(x) <= |p|
  {
    if x.Class? { SpelledMembersFit(p, if x.negated then a + 2 else a + 1, x.members, false); }
  }

  lemma {:induction false} SpelledSeqFits(p: string, a: nat, s: Seq)
    requires SpellsSeq(p, a, s)
    ensures a + LenSeq(s) <= |p|
    decreases s
  {
    if s.Cons? { SpelledSeqFits(p, a + LenAtom(s.atom) + LenQuant(s.quant), s.rest); }
  }

  lemma {:induction false} SpelledAltFits(p: string, a: nat, r: Alt)
    requires SpellsAlt(p, a, r)
    ensures a + LenAlt(r) <= |p|
    decreases r
  {
    match r
    case Only(s) => SpelledSeqFits(p, a, s);
    case Or(s, others) => SpelledAltFits(p, a + LenSeq(s) + 1, others);
  }

  /** A window closes at the end of the pattern, before a '|' or before a ')'. */
  predicate Closes(p: string, endPi: nat) {
    endPi <= |p| && (endPi < |p| ==> p[endPi] == '|' || p[endPi] == ')')
  }

  // ---------------------------------------------------------------- classes

  /** Where the skipping loop is when the reading loop is at `i`. */
  function SkipAt(i: nat, ahead: bool): nat { if ahead then i + 1 else i }

  lemma {:induction false} ClassEndAgrees(p: string, a: nat, ms: Members, ahead: bool)
    requires WfMembers(ms) && SpellsMembers(p, a, ms, ahead)
    ensures SkipAt(a, ahead) <= |p| && ClassEnd(p, SkipAt(a, ahead)) == a + LenMembers(ms) + 1
    decreases ms
  {
    SpelledMembersFit(p, a, ms, ahead);
    if ms.More? {
      ClassEndAgrees(p, a + LenMember(ms.m), ms.rest, Ahead(ms.m, ahead));
      if ms.m.Range? {
        assert ClassBodyEnd(p, a + 1) == ClassBodyEnd(p, a + 2);
      }
    }
  }

  /** What follows a single member is not read as a range. */
  lemma SingleIsNotARange(p: string, a: nat, ms: Members, ahead: bool)
    requires ms.More? && ms.m.Single? && StandsAlone(ms.m.c, ms.rest) && SpellsMembers(p, a, ms, ahead)
    ensures !(a + 2 < |p| && p[a + 1] == '-' && p[a + 2] != ']')
  {}

  lemma {:induction false} ClassBodyHasAgrees(p: string, a: nat, ms: Members, ahead: bool, ch: char)
    requires WfMembers(ms) && SpellsMembers(p, a, ms, ahead)
    ensures a <= |p| && (ClassBodyHas(p, a, ch) <==> SomeMemberHas(ms, ch))
    decreases ms
  {
    if ms.More? {
      if ms.m.Single? { SingleIsNotARange(p, a, ms, ahead); }
      ClassBodyHasAgrees(p, a + LenMember(ms.m), ms.rest, Ahead(ms.m, ahead), ch);
    }
  }

  /** `reSkipClass` finds the ']' that closes the class, and `reMatchClass` reads its members. */
  lemma ClassAgrees(p: string, a: nat, negated: bool, ms: Members)
    requires WfClass(negated, ms) && SpellsAtom(p, a, Class(negated, ms))
    ensures SkipClass(p, a) == a + LenAtom(Class(negated, ms))
    ensures forall ch :: MatchClass(p, a, ch) == ClassHas(negated, ms, ch)
  {
    var body := if negated then a + 2 else a + 1;
    ClassEndAgrees(p, body, ms, false);
    forall ch ensures MatchClass(p, a, ch) == ClassHas(negated, ms, ch) {
      ClassBodyHasAgrees(p, body, ms, false, ch);
    }
  }

  // ---------------------------------------------------------------- groups and bars

  lemma {:induction false} GroupPassesAtom(p: string, a: nat, x: Atom, depth: nat)
    requires WfAtom(x) && SpellsAtom(p, a, x) && depth > 0
    ensures a + LenAtom(x) <= |p| && GroupEnd(p, a, depth) == GroupEnd(p, a + LenAtom(x), depth)
    decreases x
  {
    match x
    case Class(negated, ms) => ClassAgrees(p, a, negated, ms);
    case Group(body) => GroupPassesAlt(p, a + 1, body, depth + 1);
    case _ =>
  }

  lemma {:induction false} GroupPassesSeq(p: string, a: nat, s: Seq, depth: nat)
    requires WfSeq(s) && SpellsSeq(p, a, s) && depth > 0
    ensures a + LenSeq(s) <= |p| && GroupEnd(p, a, depth) == GroupEnd(p, a + LenSeq(s), depth)
    decreases s
  {
    match s
    case Nil =>
    case Cons(x, q, rest) =>
      GroupPassesAtom(p, a, x, depth);
      GroupPassesSeq(p, a + LenAtom(x) + LenQuant(q), rest, depth);
  }

  lemma {:induction false} GroupPassesAlt(p: string, a: nat, r: Alt, depth: nat)
    requires WfAlt(r) && SpellsAlt(p, a, r) && depth > 0
    ensures a + LenAlt(r) <= |p| && GroupEnd(p, a, depth) == GroupEnd(p, a + LenAlt(r), depth)
    decreases r
  {
    hide SpellsSeq, WfSeq, LenSeq;
    match r
    case Only(s) => GroupPassesSeq(p, a, s, depth);
    case Or(s, others) =>
      GroupPassesSeq(p, a, s, depth);
      GroupPassesBar(p, a + LenSeq(s), depth);
      GroupPassesAlt(p, a + LenSeq(s) + 1, others, depth);
  }

  lemma GroupPassesBar(p: string, bar: nat, depth: nat)
    requires CharAt(p, bar, '|') && depth > 0
    ensures GroupEnd(p, bar, depth) == GroupEnd(p, bar + 1, depth)
  {}

  /** `reSkipAtom` finds the end of every well-formed atom, nested groups included. */
  lemma SkipAtomAgrees(p: string, a: nat, x: Atom)
    requires WfAtom(x) && SpellsAtom(p, a, x)
    ensures SkipAtom(p, a) == a + LenAtom(x)
    ensures x.Group? ==> SkipGroup(p, a) == a + LenAtom(x)
  {
    hide SpellsMembers, WfClass, SpellsAlt, WfAlt, LenAlt, LenMembers, GroupEnd, SkipClass;
    match x
    case Class(negated, ms) => ClassAgrees(p, a, negated, ms);
    case Group(body) =>
      GroupPassesAlt(p, a + 1, body, 1);
      GroupCloses(p, a + 1 + LenAlt(body));
    case _ =>
  }

  lemma GroupCloses(p: string, close: nat)
    requires CharAt(p, close, ')')
    ensures GroupEnd(p, close, 1) == close + 1
  {}

  lemma {:induction false} BarPassesAtom(p: string, a: nat, x: Atom, endPi: nat, depth: nat)
    requires WfAtom(x) && SpellsAtom(p, a, x) && a + LenAtom(x) <= endPi <= |p|
    ensures TopBar(p, a, endPi, depth) == TopBar(p, a + LenAtom(x), endPi, depth)
    decreases x
  {
    match x
    case Class(negated, ms) => ClassAgrees(p, a, negated, ms);
    case Group(body) => BarPassesAlt(p, a + 1, body, endPi, depth + 1);
    case _ =>
  }

  lemma {:induction false} BarPassesSeq(p: string, a: nat, s: Seq, endPi: nat, depth: nat)
    requires WfSeq(s) && SpellsSeq(p, a, s) && a + LenSeq(s) <= endPi <= |p|
    ensures TopBar(p, a, endPi, depth) == TopBar(p, a + LenSeq(s), endPi, depth)
    decreases s
  {
    match s
    case Nil =>
    case Cons(x, q, rest) =>
      BarPassesAtom(p, a, x, endPi, depth);
      BarPassesSeq(p, a + LenAtom(x) + LenQuant(q), rest, endPi, depth);
  }

  lemma {:induction false} BarPassesAlt(p: string, a: nat, r: Alt, endPi: nat, depth: nat)
    requires WfAlt(r) && SpellsAlt(p, a, r) && a + LenAlt(r) <= endPi <= |p| && depth > 0
    ensures TopBar(p, a, endPi, depth) == TopBar(p, a + LenAlt(r), endPi, depth)
    decreases r
  {
    match r
    case Only(s) => BarPassesSeq(p, a, s, endPi, depth);
    case Or(s, others) =>
      BarPassesSeq(p, a, s, endPi, depth);
      assert TopBar(p, a + LenSeq(s), endPi, depth) == TopBar(p, a + LenSeq(s) + 1, endPi, depth);
      BarPassesAlt(p, a + LenSeq(s) + 1, others, endPi, depth);
  }

  lemma BarHere(p: string, bar: nat, endPi: nat)
    requires bar < endPi <= |p| && p[bar] == '|'
    ensures TopBar(p, bar, endPi, 0) == Some(bar)
  {}

  /** The scan finds the '|' after the first branch, and none in a pattern without one. */
  lemma TopBarAgrees(p: string, a: nat, r: Alt)
    requires WfAlt(r) && SpellsAlt(p, a, r)
    ensures a + LenAlt(r) <= |p|
    ensures TopBar(p, a, a + LenAlt(r), 0) == if r.Or? then Some(a + LenSeq(r.first)) else None
  {
    hide SpellsSeq, WfSeq, LenSeq;
    SpelledAltFits(p, a, r);
    match r
    case Only(s) => BarPassesSeq(p, a, s, a + LenSeq(s), 0);
    case Or(s, others) =>
      BarPassesSeq(p, a, s, a + LenAlt(r), 0);
      BarHere(p, a + LenSeq(s), a + LenAlt(r));
  }

  // ---------------------------------------------------------------- matcher == head of successes

  /** What a spelled, well-formed sequence says about its first item and the rest. */
  lemma SeqParts(p: string, a: nat, s: Seq)
    requires s.Cons? && WfSeq(s) && SpellsSeq(p, a, s)
    ensures WfAtom(s.atom) && SpellsAtom(p, a, s.atom) && WfSeq(s.rest)
    ensures SpellsSeq(p, a + LenAtom(s.atom) + LenQuant(s.quant), s.rest)
    ensures a + LenSeq(s) == a + LenAtom(s.atom) + LenQuant(s.quant) + LenSeq(s.rest) <= |p|
  {
    SpelledSeqFits(p, a, s);
  }

  /** An atom without parentheses. */
  lemma SimpleAtomIsFirst(re: Re, a: nat, x: Atom, ti: nat)
    requires WfAtom(x) && !x.Group? && SpellsAtom(re.p, a, x) && ti <= |re.t|
    ensures MatchAtom(re, a, ti) ==
            var step := Step(x, re.t, ti);
            if step.Some? then Some((a + LenAtom(x), step.value)) else None
  {
    if x.Class? { ClassAgrees(re.p, a, x.negated, x.members); }
  }

  lemma {:induction false} AtomIsFirst(re: Re, a: nat, x: Atom, ti: nat)
    requires WfAtom(x) && SpellsAtom(re.p, a, x) && ti <= |re.t|
    ensures MatchAtom(re, a, ti) ==
            var step := Step(x, re.t, ti);
            if step.Some? then Some((a + LenAtom(x), step.value)) else None
    decreases x, 0, 0
  {
    if x.Group? {
      hide SpellsAlt, WfAlt, LenAlt, EndsAlt;
      SkipAtomAgrees(re.p, a, x);
      AltIsFirst(re, a + 1, x.body, ti);
    } else {
      SimpleAtomIsFirst(re, a, x, ti);
    }
  }

  /** `reMatchQuant` at a spelled item reads the item's own quantifier. */
  lemma ItemRead(re: Re, a: nat, s: Seq, ti: nat, endPi: nat)
    requires s.Cons? && WfSeq(s) && SpellsSeq(re.p, a, s) && ti <= |re.t|
    requires endPi == a + LenSeq(s) && Closes(re.p, endPi)
    ensures a < endPi <= |re.p| && a + LenAtom(s.atom) + LenQuant(s.quant) <= |re.p|
    ensures MatchQuant(re, a, ti, endPi) ==
            if s.quant == Once then
              var atom := MatchAtom(re, a, ti);
              if atom.Some? then MatchSeq(re, atom.value.0, atom.value.1, endPi) else None
            else
              MatchGreedy(re, a, ti, a + LenAtom(s.atom) + 1, if s.quant == Plus then 1 else 0,
                          s.quant == Optional, endPi)
  {
    hide SpellsSeq, WfSeq, LenSeq, SpellsAtom, WfAtom, LenAtom, Closes, SkipAtom, MatchAtom, MatchSeq, MatchGreedy;
    SeqParts(re.p, a, s);
    SkipAtomAgrees(re.p, a, s.atom);
    QuantStands(re.p, a, s);
  }

  /** Behind the first atom stands its quantifier and nothing that could be taken for one. */
  lemma QuantStands(p: string, a: nat, s: Seq)
    requires s.Cons? && WfSeq(s) && SpellsSeq(p, a, s) && Closes(p, a + LenSeq(s))
    ensures var next := a + LenAtom(s.atom);
            && SpellsQuant(p, next, s.quant)
            && (s.quant == Once ==> next >= |p| || !QuantChar(p[next]))
  {
    hide SpellsMembers, WfMembers, SpellsAlt, WfAlt, LenAlt, LenMembers;
    SpelledSeqFits(p, a, s);
    if s.quant == Once && s.rest.Cons? {
      assert SpellsAtom(p, a + LenAtom(s.atom), s.rest.atom);
    }
  }

  lemma {:induction false} GreedyIsFirst(re: Re, a: nat, s: Seq, ti: nat, endPi: nat)
    requires s.Cons? && s.quant != Once && WfSeq(s) && SpellsSeq(re.p, a, s) && ti <= |re.t|
    requires endPi == a + LenSeq(s) && Closes(re.p, endPi)
    ensures a < endPi && a + LenAtom(s.atom) < |re.p|
    ensures MatchGreedy(re, a, ti, a + LenAtom(s.atom) + 1, 0, false, endPi) ==
            First(EndsGreedy(s, re.t, ti))
    decreases s, |re.t| - ti, 0
  {
    hide SpellsSeq, WfSeq, LenSeq, SpellsAtom, WfAtom, LenAtom, Closes, MatchAtom, MatchSeq, Step, EndsSeq;
    SeqParts(re.p, a, s);
    SeqIsFirst(re, a + LenAtom(s.atom) + 1, s.rest, ti, endPi);
    AtomIsFirst(re, a, s.atom, ti);
    var step := Step(s.atom, re.t, ti);
    if step.Some? && step.value > ti {
      GreedyIsFirst(re, a, s, step.value, endPi);
    }
  }

  lemma {:induction false} OptionalIsFirst(re: Re, a: nat, s: Seq, ti: nat, endPi: nat)
    requires s.Cons? && s.quant == Optional && WfSeq(s) && SpellsSeq(re.p, a, s) && ti <= |re.t|
    requires endPi == a + LenSeq(s) && Closes(re.p, endPi)
    ensures a < endPi && a + LenAtom(s.atom) < |re.p|
    ensures MatchGreedy(re, a, ti, a + LenAtom(s.atom) + 1, 0, true, endPi) == First(EndsSeq(s, re.t, ti))
    decreases s, |re.t| - ti, 0
  {
    hide SpellsSeq, WfSeq, LenSeq, SpellsAtom, WfAtom, LenAtom, Closes, MatchAtom, MatchSeq, MatchQuant, Step, EndsGreedy;
    SeqParts(re.p, a, s);
    SeqIsFirst(re, a + LenAtom(s.atom) + 1, s.rest, ti, endPi);
    AtomIsFirst(re, a, s.atom, ti);
    var step := Step(s.atom, re.t, ti);
    if step.Some? { SeqIsFirst(re, a + LenAtom(s.atom) + 1, s.rest, step.value, endPi); }
  }

  lemma {:induction false} PlusIsFirst(re: Re, a: nat, s: Seq, ti: nat, endPi: nat)
    requires s.Cons? && s.quant == Plus && WfSeq(s) && SpellsSeq(re.p, a, s) && ti <= |re.t|
    requires endPi == a + LenSeq(s) && Closes(re.p, endPi)
    ensures a < endPi && a + LenAtom(s.atom) < |re.p|
    ensures MatchGreedy(re, a, ti, a + LenAtom(s.atom) + 1, 1, false, endPi) == First(EndsSeq(s, re.t, ti))
    decreases s, |re.t| - ti, 1
  {
    hide SpellsSeq, WfSeq, LenSeq, SpellsAtom, WfAtom, LenAtom, Closes, MatchAtom, MatchSeq, MatchQuant, Step, EndsGreedy;
    SeqParts(re.p, a, s);
    AtomIsFirst(re, a, s.atom, ti);
    var step := Step(s.atom, re.t, ti);
    if step.Some? && step.value > ti { GreedyIsFirst(re, a, s, step.value, endPi); }
  }

  lemma {:induction false} ItemIsFirst(re: Re, a: nat, s: Seq, ti: nat, endPi: nat)
    requires s.Cons? && WfSeq(s) && SpellsSeq(re.p, a, s) && ti <= |re.t|
    requires endPi == a + LenSeq(s) && Closes(re.p, endPi)
    ensures a < endPi && MatchQuant(re, a, ti, endPi) == First(EndsSeq(s, re.t, ti))
    decreases s, |re.t| - ti, 2
  {
    hide SpellsSeq, WfSeq, LenSeq, SpellsAtom, WfAtom, LenAtom, Closes, MatchAtom, MatchSeq, MatchGreedy, MatchQuant, Step, EndsGreedy;
    SeqParts(re.p, a, s);
    ItemRead(re, a, s, ti, endPi);
    match s.quant
    case Star => GreedyIsFirst(re, a, s, ti, endPi);
    case Plus => PlusIsFirst(re, a, s, ti, endPi);
    case Optional => OptionalIsFirst(re, a, s, ti, endPi);
    case Once =>
      AtomIsFirst(re, a, s.atom, ti);
      var step := Step(s.atom, re.t, ti);
      if step.Some? { SeqIsFirst(re, a + LenAtom(s.atom), s.rest, step.value, endPi); }
  }

  lemma {:induction false} SeqIsFirst(re: Re, a: nat, s: Seq, ti: nat, endPi: nat)
    requires WfSeq(s) && SpellsSeq(re.p, a, s) && ti <= |re.t|
    requires endPi == a + LenSeq(s) && Closes(re.p, endPi)
    ensures a <= endPi && MatchSeq(re, a, ti, endPi) == First(EndsSeq(s, re.t, ti))
    decreases s, |re.t| - ti, 3
  {
    hide SpellsSeq, WfSeq, SpellsAtom, WfAtom, LenAtom, MatchQuant, EndsGreedy, Step;
    SpelledSeqFits(re.p, a, s);
    BarPassesSeq(re.p, a, s, endPi, 0);
    if s.Cons? { ItemIsFirst(re, a, s, ti, endPi); }
  }

  /** Two branches that each yield the first of their ends yield the first of all ends. */
  lemma BranchesJoin(re: Re, a: nat, bar: nat, endPi: nat, ti: nat, xs: seq<nat>, ys: seq<nat>)
    requires a <= bar < endPi <= |re.p| && ti <= |re.t|
    requires TopBar(re.p, a, endPi, 0) == Some(bar)
    requires MatchSeq(re, a, ti, bar) == First(xs)
    requires MatchSeq(re, bar + 1, ti, endPi) == First(ys)
    ensures MatchSeq(re, a, ti, endPi) == First(xs + ys)
  {}

  lemma {:induction false} AltIsFirst(re: Re, a: nat, r: Alt, ti: nat)
    requires WfAlt(r) && SpellsAlt(re.p, a, r) && ti <= |re.t|
    requires Closes(re.p, a + LenAlt(r))
    ensures MatchSeq(re, a, ti, a + LenAlt(r)) == First(EndsAlt(r, re.t, ti))
    decreases r, 0, 0
  {
    hide SpellsSeq, WfSeq, LenSeq, EndsSeq, MatchSeq, TopBar;
    match r
    case Only(s) => SeqIsFirst(re, a, s, ti, a + LenSeq(s));
    case Or(s, others) =>
      var bar, endPi := a + LenSeq(s), a + LenAlt(r);
      assert endPi == bar + 1 + LenAlt(others);
      TopBarAgrees(re.p, a, r);
      SeqIsFirst(re, a, s, ti, bar);
      AltIsFirst(re, bar + 1, others, ti);
      BranchesJoin(re, a, bar, endPi, ti, EndsSeq(s, re.t, ti), EndsAlt(others, re.t, ti));
  }
}
