/**
 Which patterns can match behind the start of a text.

 `SeqCan(s, e, f)` says that `s` can match at a position that is not the start: from a position at
 the end of the text when `e` holds, up to one that must be the end when `f` holds. Optional items
 are left out, because leaving them out never asks for more.
 */
module RegexShortcut {
  import opened Wrappers
  import opened RegexSyntax
  import opened RegexCompleteness

  /** The character classes and their like. */
  predicate FitsChar(x: Atom, ch: char) {
    match x
    case Any => ch != '\n'
    case Literal(c) => ch == c
    case Escape(spec) => Escaped(spec, ch)
    case Class(negated, members) => ClassHas(negated, members, ch)
    case _ => false
  }

  ghost predicate AtomCan(x: Atom, e: bool, f: bool) {
    match x
    case Start => false
    case End => f
    case Group(body) => AltCan(body, e, f)
    case _ => !e && !f && exists ch :: FitsChar(x, ch)
  }

  ghost predicate SeqCan(s: Seq, e: bool, f: bool) {
    match s
    case Nil => e == f
    case Cons(x, q, rest) =>
      if q.Star? || q.Optional? then SeqCan(rest, e, f)
      else
        && (q.Plus? ==> WidthAtom(x) != Some(0))
        && ((AtomCan(x, e, false) && SeqCan(rest, false, f)) || (AtomCan(x, e, true) && SeqCan(rest, true, f)))
  }

  ghost predicate AltCan(r: Alt, e: bool, f: bool) {
    match r
    case Only(s) => SeqCan(s, e, f)
    case Or(s, others) => SeqCan(s, e, f) || AltCan(others, e, f)
  }

  /** Some branch can match behind the start of some text. */
  ghost predicate Loose(r: Alt) { AltCan(r, false, false) || AltCan(r, false, true) }

  // ---------------------------------------------------------------- a text that matches

  ghost function AtomWord(x: Atom, e: bool, f: bool): string
    requires AtomCan(x, e, f)
  {
    match x
    case Start => ""
    case End => ""
    case Group(body) => AltWord(body, e, f)
    case _ => var ch :| FitsChar(x, ch); [ch]
  }

  ghost function SeqWord(s: Seq, e: bool, f: bool): string
    requires SeqCan(s, e, f)
  {
    match s
    case Nil => ""
    case Cons(x, q, rest) =>
      if q.Star? || q.Optional? then SeqWord(rest, e, f)
      else if AtomCan(x, e, false) && SeqCan(rest, false, f) then AtomWord(x, e, false) + SeqWord(rest, false, f)
      else AtomWord(x, e, true) + SeqWord(rest, true, f)
  }

  ghost function AltWord(r: Alt, e: bool, f: bool): string
    requires AltCan(r, e, f)
  {
    match r
    case Only(s) => SeqWord(s, e, f)
    case Or(s, others) => if SeqCan(s, e, f) then SeqWord(s, e, f) else AltWord(others, e, f)
  }

  lemma {:induction false} AtomAtEnd(x: Atom, f: bool)
    requires AtomCan(x, true, f)
    ensures f && AtomWord(x, true, f) == ""
    decreases x
  {
    if x.Group? { AltAtEnd(x.body, f); }
  }

  lemma {:induction false} SeqAtEnd(s: Seq, f: bool)
    requires SeqCan(s, true, f)
    ensures f && SeqWord(s, true, f) == ""
    decreases s
  {
    if s.Cons? {
      if s.quant.Star? || s.quant.Optional? {
        SeqAtEnd(s.rest, f);
      } else {
        if AtomCan(s.atom, true, false) { AtomAtEnd(s.atom, false); }
        AtomAtEnd(s.atom, true);
        SeqAtEnd(s.rest, f);
      }
    }
  }

  lemma {:induction false} AltAtEnd(r: Alt, f: bool)
    requires AltCan(r, true, f)
    ensures f && AltWord(r, true, f) == ""
    decreases r
  {
    match r
    case Only(s) => SeqAtEnd(s, f);
    case Or(s, others) => if SeqCan(s, true, f) { SeqAtEnd(s, f); } else { AltAtEnd(others, f); }
  }

  /** The word stands at `i`, behind the start, and at the end of the text when it must. */
  predicate Stands(w: string, f: bool, t: string, i: nat) {
    0 < i && i + |w| <= |t| && t[i..i + |w|] == w && (f ==> i + |w| == |t|)
  }

  lemma StandsParts(a: string, b: string, m: bool, f: bool, t: string, i: nat)
    requires Stands(a + b, f, t, i) && (m ==> f && b == "")
    ensures Stands(a, m, t, i) && Stands(b, f, t, i + |a|) && i + |a| + |b| == i + |a + b|
  {
    var w := t[i..i + |a + b|];
    assert t[i..i + |a|] == w[..|a|] == a;
    assert t[i + |a|..i + |a| + |b|] == w[|a|..] == b;
  }

  lemma {:induction false} AtomWordTaken(x: Atom, e: bool, f: bool, t: string, i: nat)
    requires WidthAtom(x).Some? && AtomCan(x, e, f) && Stands(AtomWord(x, e, f), f, t, i)
    ensures AtomTakes(x, t, i, i + |AtomWord(x, e, f)|)
    decreases x, 0
  {
    match x
    case Group(body) =>
      WidthIsFixed(body);
      AltWordTaken(body, e, f, t, i);
    case Start =>
    case End =>
    case _ => assert t[i..i + 1][0] == t[i];
  }

  /** One required item and the rest. */
  lemma {:induction false} HeadWordTaken(s: Seq, e: bool, m: bool, f: bool, t: string, i: nat)
    requires s.Cons? && FixedSeq(s) && (s.quant.Once? || (s.quant.Plus? && WidthAtom(s.atom) != Some(0)))
    requires AtomCan(s.atom, e, m) && SeqCan(s.rest, m, f)
    requires Stands(AtomWord(s.atom, e, m) + SeqWord(s.rest, m, f), f, t, i)
    ensures SeqTakes(s, t, i, i + |AtomWord(s.atom, e, m) + SeqWord(s.rest, m, f)|)
    decreases s, 0
  {
    hide AtomWord, SeqWord, AtomCan, SeqCan, Stands, WidthAtom, AtomTakes;
    var a, b := AtomWord(s.atom, e, m), SeqWord(s.rest, m, f);
    if m { SeqAtEnd(s.rest, f); }
    StandsParts(a, b, m, f, t, i);
    AtomWordTaken(s.atom, e, m, t, i);
    SeqWordTaken(s.rest, m, f, t, i + |a|);
    AtomTakesIsRel(s.atom, t, i, i + |a|);
    AtomWidth(s.atom, t, i, i + |a|);
    if s.quant.Plus? { OneMore(s.atom, t, 0, i, i + |a|, i + |a|); }
    assert HeadTakes(s.atom, s.quant, t, 1, i, i + |a|);
  }

  lemma {:induction false} SeqWordTaken(s: Seq, e: bool, f: bool, t: string, i: nat)
    requires FixedSeq(s) && SeqCan(s, e, f) && Stands(SeqWord(s, e, f), f, t, i)
    ensures SeqTakes(s, t, i, i + |SeqWord(s, e, f)|)
    decreases s, 1
  {
    if s.Cons? {
      hide AtomWord, AtomCan, Stands, WidthAtom, AtomTakes;
      if s.quant.Star? || s.quant.Optional? {
        SeqWordTaken(s.rest, e, f, t, i);
        assert HeadTakes(s.atom, s.quant, t, 0, i, i);
      } else if AtomCan(s.atom, e, false) && SeqCan(s.rest, false, f) {
        HeadWordTaken(s, e, false, f, t, i);
      } else {
        HeadWordTaken(s, e, true, f, t, i);
      }
    }
  }

  lemma {:induction false} AltWordTaken(r: Alt, e: bool, f: bool, t: string, i: nat)
    requires FixedGroups(r) && AltCan(r, e, f) && Stands(AltWord(r, e, f), f, t, i)
    ensures AltTakes(r, t, i, i + |AltWord(r, e, f)|)
    decreases r, 0
  {
    match r
    case Only(s) => SeqWordTaken(s, e, f, t, i);
    case Or(s, others) =>
      if SeqCan(s, e, f) { SeqWordTaken(s, e, f, t, i); } else { AltWordTaken(others, e, f, t, i); }
  }

  // ---------------------------------------------------------------- what a match shows

  lemma {:induction false} SeqCanMore(s: Seq)
    requires SeqCan(s, true, true)
    ensures SeqCan(s, false, false) || SeqCan(s, false, true)
    decreases s
  {
    if s.Cons? {
      if s.quant.Star? || s.quant.Optional? {
        SeqCanMore(s.rest);
      } else {
        if AtomCan(s.atom, true, false) { AtomAtEnd(s.atom, false); }
        AtomCanMore(s.atom);
        SeqCanMore(s.rest);
      }
    }
  }

  lemma {:induction false} AtomCanMore(x: Atom)
    requires AtomCan(x, true, true)
    ensures AtomCan(x, false, false) || AtomCan(x, false, true)
    decreases x
  {
    if x.Group? { AltCanMore(x.body); }
  }

  lemma {:induction false} AltCanMore(r: Alt)
    requires AltCan(r, true, true)
    ensures AltCan(r, false, false) || AltCan(r, false, true)
    decreases r
  {
    match r
    case Only(s) => SeqCanMore(s);
    case Or(s, others) => if SeqCan(s, true, true) { SeqCanMore(s); } else { AltCanMore(others); }
  }

  lemma {:induction false} AtomTakenCan(x: Atom, t: string, i: nat, j: nat) returns (f: bool)
    requires 0 < i <= |t| && AtomTakes(x, t, i, j)
    ensures i <= j <= |t| && AtomCan(x, i == |t|, f) && (f ==> j == |t|)
    decreases x, 0
  {
    match x
    case Group(body) => f := AltTakenCan(body, t, i, j);
    case Start => f := false;
    case End => f := true;
    case _ =>
      f := false;
      assert FitsChar(x, t[i]);
  }

  lemma {:induction false} RepeatsAdvance(x: Atom, t: string, n: nat, i: nat, k: nat)
    requires 0 < i <= |t| && Takes(x, t, n, i, k)
    ensures i <= k <= |t|
    decreases x, 1, n
  {
    if n > 0 {
      var m: nat :| i < m && AtomTakes(x, t, i, m) && Takes(x, t, n - 1, m, k);
      var f := AtomTakenCan(x, t, i, m);
      RepeatsAdvance(x, t, n - 1, m, k);
    }
  }

  /** A rest that can match from a later position can match from an earlier one. */
  lemma FromEarlier(s: Seq, e: bool, d: bool, f: bool) returns (g: bool)
    requires SeqCan(s, d, f) && (e ==> d)
    ensures SeqCan(s, e, g) && (g ==> f || d)
  {
    g := f;
    if d && !e {
      SeqAtEnd(s, f);
      SeqCanMore(s);
      g := !SeqCan(s, false, false);
    }
  }

  lemma {:induction false} SeqTakenCan(s: Seq, t: string, i: nat, j: nat) returns (f: bool)
    requires 0 < i <= |t| && SeqTakes(s, t, i, j)
    ensures i <= j <= |t| && SeqCan(s, i == |t|, f) && (f ==> j == |t|)
    decreases s, 2, 0
  {
    match s
    case Nil => f := i == |t|;
    case Cons(x, q, rest) =>
      var n: nat, k: nat :| HeadTakes(x, q, t, n, i, k) && SeqTakes(rest, t, k, j);
      hide AtomTakes;
      if q.Once? {
        var m := AtomTakenCan(x, t, i, k);
        var g := SeqTakenCan(rest, t, k, j);
        f := FromEarlier(rest, m, k == |t|, g);
      } else {
        RepeatsAdvance(x, t, n, i, k);
        var g := SeqTakenCan(rest, t, k, j);
        if q.Plus? {
          var k1, m := FirstTaken(x, t, n, i, k);
          f := FromEarlier(rest, m, k == |t|, g);
        } else {
          f := FromEarlier(rest, i == |t|, k == |t|, g);
        }
      }
  }

  /** The first of some consuming repetitions. */
  lemma {:induction false} FirstTaken(x: Atom, t: string, n: nat, i: nat, k: nat) returns (m: nat, f: bool)
    requires 0 < i <= |t| && n > 0 && Takes(x, t, n, i, k)
    ensures i < m <= k <= |t| && AtomCan(x, i == |t|, f) && (f ==> m == |t|) && WidthAtom(x) != Some(0)
    decreases x, 2, n
  {
    m :| i < m && AtomTakes(x, t, i, m) && Takes(x, t, n - 1, m, k);
    f := AtomTakenCan(x, t, i, m);
    RepeatsAdvance(x, t, n - 1, m, k);
    AtomTakesIsRel(x, t, i, m);
    if WidthAtom(x).Some? { AtomWidth(x, t, i, m); }
  }

  lemma {:induction false} AltTakenCan(r: Alt, t: string, i: nat, j: nat) returns (f: bool)
    requires 0 < i <= |t| && AltTakes(r, t, i, j)
    ensures i <= j <= |t| && AltCan(r, i == |t|, f) && (f ==> j == |t|)
    decreases r, 0, 0
  {
    match r
    case Only(s) => f := SeqTakenCan(s, t, i, j);
    case Or(s, others) =>
      if SeqTakes(s, t, i, j) { f := SeqTakenCan(s, t, i, j); } else { f := AltTakenCan(others, t, i, j); }
  }

  // ---------------------------------------------------------------- both together

  /** A pattern that matches behind the start of some text is loose. */
  lemma TakenIsLoose(r: Alt, t: string, i: nat, j: nat)
    requires 0 < i <= |t| && AltTakes(r, t, i, j)
    ensures Loose(r)
  {
    hide AltTakes, AltCan;
    var f := AltTakenCan(r, t, i, j);
    if i == |t| {
      AltAtEnd(r, f);
      AltCanMore(r);
    }
  }

  /** And when every group has a fixed width, a loose pattern does. */
  lemma LooseIsTaken(r: Alt) returns (t: string, j: nat)
    requires FixedGroups(r) && Loose(r)
    ensures 1 <= j <= |t| && AltTakes(r, t, 1, j)
  {
    hide AltTakes, AltCan, AltWord;
    var f := !AltCan(r, false, false);
    var w := AltWord(r, false, f);
    t, j := ['x'] + w, 1 + |w|;
    assert t[1..1 + |w|] == w;
    AltWordTaken(r, false, f, t, 1);
  }
}
