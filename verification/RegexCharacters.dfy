/**
 What the patterns of one item match, character by character and on the pattern's own text.

 The characters are written out, so that these laws do not lean on the predicates by which the
 matcher and the meaning of trees classify them.
 */
module RegexCharacters {
  import opened Wrappers
  import opened Characters
  import opened RegexSyntax
  import opened RegexMatcher
  import opened RegexProofs
  import opened RegexMeaning

  const WORDS: set<char> := DIGITS + SMALLS + CAPITALS + {'_'}

  const SPACES: set<char> := {' ', '\t', '\n', '\r'}

  /** The characters a backslash and a letter stand for. */
  predicate StandsFor(spec: char, c: char) {
    if spec == 'd' then c in DIGITS
    else if spec == 'D' then c !in DIGITS
    else if spec == 'w' then c in WORDS
    else if spec == 'W' then c !in WORDS
    else if spec == 's' then c in SPACES
    else if spec == 'S' then c !in SPACES
    else if spec == 'n' then c == '\n'
    else if spec == 't' then c == '\t'
    else c == spec
  }

  lemma EscapedIs(spec: char, c: char)
    ensures Escaped(spec, c) <==> StandsFor(spec, c)
  {
    hide DIGITS, SMALLS, CAPITALS;
    DigitIs(c);
    SmallIs(c);
    CapitalIs(c);
  }

  /** A pattern that is one atom without parentheses. */
  lemma AtomPattern(p: string, x: Atom, t: string, i: nat, j: nat)
    requires !x.Group? && WfAtom(x) && SpellsAtom(p, 0, x) && LenAtom(x) == |p| && i <= |t|
    ensures MatchesAt(Re(p, t), i, j) <==> Step(x, t, i) == Some(j)
  {
    var s := Cons(x, Once, Nil);
    hide SpellsAtom, WfAtom, LenAtom, MatchSeq, Step;
    assert SpellsQuant(p, |p|, Once) && SpellsSeq(p, |p|, Nil);
    assert WfSeq(Nil) && LenSeq(Nil) == 0 && EndsSeq(Nil, t, i) == [i];
    assert SpellsSeq(p, 0, s) && LenSeq(s) == |p| && WfSeq(s);
    assert Denotes(p, Only(s));
    hide Denotes, SpellsSeq, WfSeq, LenSeq;
    MatchIsFirstSuccess(p, Only(s), t, i);
    var step := Step(x, t, i);
    if step.Some? { assert EndsSeq(Nil, t, step.value) == [step.value]; }
  }

  /** A backslash and a letter match one character that the pair stands for. */
  lemma EscapeMatches(p: string, spec: char, t: string, i: nat, j: nat)
    requires p == ['\\', spec] && i <= |t|
    ensures MatchesAt(Re(p, t), i, j) <==> i < |t| && j == i + 1 && StandsFor(spec, t[i])
  {
    hide DIGITS, SMALLS, CAPITALS, WORDS, SPACES, StandsFor, Escaped;
    AtomPattern(p, Escape(spec), t, i, j);
    if i < |t| { EscapedIs(spec, t[i]); }
  }

  /** The same inside a class, negated or not. */
  lemma EscapeInClassMatches(p: string, negated: bool, spec: char, t: string, i: nat, j: nat)
    requires p == (if negated then ['[', '^', '\\', spec, ']'] else ['[', '\\', spec, ']']) && i <= |t|
    ensures MatchesAt(Re(p, t), i, j) <==> i < |t| && j == i + 1 && StandsFor(spec, t[i]) != negated
  {
    hide DIGITS, SMALLS, CAPITALS, WORDS, SPACES, StandsFor, Escaped;
    var ms := More(MemberEscape(spec), NoMembers);
    assert SpellsMembers(p, if negated then 2 else 1, ms, false) by {
      assert SpellsMembers(p, if negated then 4 else 3, NoMembers, false);
    }
    assert LenMembers(NoMembers) == 0 && WfMembers(NoMembers);
    assert LenMembers(ms) == 2 && WfMembers(ms);
    AtomPattern(p, Class(negated, ms), t, i, j);
    if i < |t| {
      EscapedIs(spec, t[i]);
      assert SomeMemberHas(ms, t[i]) <==> Escaped(spec, t[i]);
    }
  }

  /** A class of a range and a character, negated or not. */
  lemma RangeInClassMatches(p: string, negated: bool, lo: char, hi: char, c: char, t: string, i: nat, j: nat)
    requires p == (if negated then ['[', '^', lo, '-', hi, c, ']'] else ['[', lo, '-', hi, c, ']']) && i <= |t|
    requires lo !in {']', '\\'} && hi !in {']', '\\'} && c !in {']', '\\'} && (negated || lo != '^')
    ensures MatchesAt(Re(p, t), i, j) <==> i < |t| && j == i + 1 && (lo <= t[i] <= hi || t[i] == c) != negated
  {
    var from := if negated then 2 else 1;
    var last := More(Single(c), NoMembers);
    var ms := More(Range(lo, hi), last);
    assert SpellsMembers(p, from, ms, false) by {
      assert SpellsMembers(p, from + 4, NoMembers, false);
      assert SpellsMembers(p, from + 3, last, false);
    }
    assert LenMember(last.m) == 1 && LenMember(ms.m) == 3 && LenMembers(NoMembers) == 0 && WfMembers(NoMembers);
    assert LenMembers(last) == 1 && LenMembers(ms) == 4 && WfMembers(last) && WfMembers(ms);
    AtomPattern(p, Class(negated, ms), t, i, j);
    if i < |t| {
      assert SomeMemberHas(last, t[i]) <==> t[i] == c;
      assert SomeMemberHas(ms, t[i]) <==> lo <= t[i] <= hi || t[i] == c;
    }
  }

  /** A character that is no operator matches itself, a dot anything but a line feed, an anchor the place it names. */
  lemma OneCharacterMatches(p: string, t: string, i: nat, j: nat)
    requires |p| == 1 && p[0] !in {'\\', '[', '(', ')', '|'} && i <= |t|
    ensures MatchesAt(Re(p, t), i, j) <==>
            if p[0] == '^' then i == j == 0
            else if p[0] == '$' then i == j == |t|
            else i < |t| && j == i + 1 && (if p[0] == '.' then t[i] != '\n' else t[i] == p[0])
  {
    var c := p[0];
    var x := if c == '^' then Start else if c == '$' then End else if c == '.' then Any else Literal(c);
    AtomPattern(p, x, t, i, j);
  }

  // ---------------------------------------------------------------- quantifiers, bars and groups

  /** A character that has no meaning of its own in a pattern. */
  predicate Ordinary(c: char) {
    c !in {'^', '$', '.', '\\', '[', '(', ')', '|', '*', '+', '?'}
  }

  /** The text holds `c` from `i` to `j` and not beyond. */
  predicate WholeRun(c: char, t: string, i: nat, j: nat) {
    i <= j <= |t| && (forall k :: i <= k < j ==> t[k] == c) && (j < |t| ==> t[j] != c)
  }

  lemma GreedyStep(s: Seq, c: char, t: string, i: nat)
    requires s.Cons? && s.atom == Literal(c) && s.rest == Nil && i <= |t|
    ensures EndsGreedy(s, t, i) == (if i < |t| && t[i] == c then EndsGreedy(s, t, i + 1) else []) + [i]
  {
    assert EndsSeq(Nil, t, i) == [i];
  }

  lemma RunStep(c: char, t: string, i: nat, j: nat)
    requires i <= |t|
    ensures WholeRun(c, t, i, j) <==> if i < |t| && t[i] == c then WholeRun(c, t, i + 1, j) else i == j
  {}

  lemma {:induction false} RunComesFirst(s: Seq, c: char, t: string, i: nat, j: nat)
    requires s.Cons? && s.atom == Literal(c) && s.rest == Nil && i <= |t|
    ensures EndsGreedy(s, t, i) != [] && (First(EndsGreedy(s, t, i)) == Some(j) <==> WholeRun(c, t, i, j))
    decreases |t| - i
  {
    hide EndsGreedy, WholeRun;
    GreedyStep(s, c, t, i);
    RunStep(c, t, i, j);
    if i < |t| && t[i] == c { RunComesFirst(s, c, t, i + 1, j); }
  }

  function QuantOf(c: char): Quant { if c == '*' then Star else if c == '+' then Plus else Optional }

  lemma QuantifiedReads(p: string, c: char)
    requires |p| == 2 && p[0] == c && Ordinary(c) && p[1] in {'*', '+', '?'}
    ensures Denotes(p, Only(Cons(Literal(c), QuantOf(p[1]), Nil)))
  {
    var s := Cons(Literal(c), QuantOf(p[1]), Nil);
    assert SpellsSeq(p, 2, Nil) && LenSeq(Nil) == 0 && WfSeq(Nil);
    assert SpellsQuant(p, 1, s.quant) && LenQuant(s.quant) == 1;
    assert SpellsAtom(p, 0, Literal(c)) && LenAtom(Literal(c)) == 1 && WfAtom(Literal(c));
    assert SpellsSeq(p, 0, s) && LenSeq(s) == 2 && WfSeq(s);
  }

  /** `c*` takes all it can get, `c+` likewise but at least one, `c?` one if it can. */
  lemma QuantifiedMatches(p: string, c: char, t: string, i: nat, j: nat)
    requires |p| == 2 && p[0] == c && Ordinary(c) && p[1] in {'*', '+', '?'} && i <= |t|
    ensures MatchesAt(Re(p, t), i, j) <==>
            if p[1] == '?' then j == (if i < |t| && t[i] == c then i + 1 else i)
            else WholeRun(c, t, i, j) && (p[1] == '+' ==> i < j)
  {
    var s := Cons(Literal(c), QuantOf(p[1]), Nil);
    QuantifiedReads(p, c);
    hide Denotes, MatchSeq, EndsSeq, WholeRun;
    MatchIsFirstSuccess(p, Only(s), t, i);
    QuantifiedEnds(s, c, t, i, j);
  }

  lemma QuantifiedEnds(s: Seq, c: char, t: string, i: nat, j: nat)
    requires s.Cons? && s.atom == Literal(c) && s.rest == Nil && s.quant != Once && i <= |t|
    ensures First(EndsSeq(s, t, i)) == Some(j) <==>
            if s.quant == Optional then j == (if i < |t| && t[i] == c then i + 1 else i)
            else WholeRun(c, t, i, j) && (s.quant == Plus ==> i < j)
  {
    if s.quant == Optional {
      assert EndsSeq(Nil, t, i) == [i] && (i < |t| ==> EndsSeq(Nil, t, i + 1) == [i + 1]);
    } else {
      hide EndsGreedy;
      RunComesFirst(s, c, t, i, j);
      if i < |t| && t[i] == c { RunComesFirst(s, c, t, i + 1, j); }
    }
  }

  function Either(a: char, b: char): Alt { Or(One(a), Only(One(b))) }

  lemma EitherEnds(p: string, from: nat, a: char, b: char, t: string, i: nat)
    requires from + 2 < |p| && p[from] == a && p[from + 1] == '|' && p[from + 2] == b && Ordinary(a) && Ordinary(b)
    requires i <= |t|
    ensures SpellsAlt(p, from, Either(a, b)) && LenAlt(Either(a, b)) == 3 && WfAlt(Either(a, b))
    ensures First(EndsAlt(Either(a, b), t, i)) == if i < |t| && (t[i] == a || t[i] == b) then Some(i + 1) else None
  {
    OneReads(p, from, a, t, i);
    OneReads(p, from + 2, b, t, i);
    hide One, SpellsSeq, WfSeq, LenSeq, EndsSeq;
    var last := Only(One(b));
    assert SpellsAlt(p, from + 2, last) && LenAlt(last) == 1 && WfAlt(last);
    assert EndsAlt(last, t, i) == EndsSeq(One(b), t, i);
  }

  /** `a|b` matches either character. */
  lemma BarMatches(p: string, a: char, b: char, t: string, i: nat, j: nat)
    requires p == [a, '|', b] && Ordinary(a) && Ordinary(b) && i <= |t|
    ensures MatchesAt(Re(p, t), i, j) <==> i < |t| && j == i + 1 && (t[i] == a || t[i] == b)
  {
    EitherEnds(p, 0, a, b, t, i);
    hide MatchSeq, SpellsAlt, WfAlt, LenAlt, EndsAlt, Either;
    MatchIsFirstSuccess(p, Either(a, b), t, i);
  }

  lemma GroupedReads(p: string, body: Alt)
    requires |p| == LenAlt(body) + 2 && p[0] == '(' && p[|p| - 1] == ')' && SpellsAlt(p, 1, body) && WfAlt(body)
    ensures Denotes(p, Only(Cons(Group(body), Once, Nil)))
  {
    hide SpellsAlt, WfAlt, LenAlt;
    var s := Cons(Group(body), Once, Nil);
    var n := |p|;
    assert SpellsSeq(p, n, Nil) && LenSeq(Nil) == 0 && WfSeq(Nil);
    assert SpellsAtom(p, 0, s.atom) && LenAtom(s.atom) == n && WfAtom(s.atom);
    assert SpellsSeq(p, 0, s) && LenSeq(s) == n && WfSeq(s);
    OnlyReads(p, s);
  }

  lemma OnlyReads(p: string, s: Seq)
    requires SpellsSeq(p, 0, s) && WfSeq(s) && LenSeq(s) == |p|
    ensures Denotes(p, Only(s))
  {
    hide SpellsSeq, WfSeq, LenSeq;
  }

  /** So does `(a|b)`. */
  lemma GroupedBarMatches(p: string, a: char, b: char, t: string, i: nat, j: nat)
    requires p == ['(', a, '|', b, ')'] && Ordinary(a) && Ordinary(b) && i <= |t|
    ensures MatchesAt(Re(p, t), i, j) <==> i < |t| && j == i + 1 && (t[i] == a || t[i] == b)
  {
    EitherEnds(p, 1, a, b, t, i);
    hide MatchSeq, SpellsAlt, WfAlt, LenAlt, EndsAlt, Either, Denotes;
    GroupedReads(p, Either(a, b));
    var s := Cons(Group(Either(a, b)), Once, Nil);
    MatchIsFirstSuccess(p, Only(s), t, i);
    OnceEnds(s.atom, t, i);
  }

  lemma OnceEnds(x: Atom, t: string, i: nat)
    requires i <= |t|
    ensures First(EndsAlt(Only(Cons(x, Once, Nil)), t, i)) == Step(x, t, i)
  {
    var step := Step(x, t, i);
    hide Step;
    if step.Some? { assert EndsSeq(Nil, t, step.value) == [step.value]; }
  }

  // ---------------------------------------------------------------- plain text

  function WordFrom(p: string, a: nat): Seq
    requires a <= |p|
    decreases |p| - a
  {
    if a == |p| then Nil else Cons(Literal(p[a]), Once, WordFrom(p, a + 1))
  }

  lemma {:induction false} WordReads(p: string, a: nat)
    requires a <= |p| && forall k :: 0 <= k < |p| ==> Ordinary(p[k])
    ensures SpellsSeq(p, a, WordFrom(p, a)) && WfSeq(WordFrom(p, a)) && a + LenSeq(WordFrom(p, a)) == |p|
    decreases |p| - a
  {
    if a < |p| {
      WordReads(p, a + 1);
      assert Ordinary(p[a]) && (a + 1 < |p| ==> Ordinary(p[a + 1]));
      assert SpellsAtom(p, a, Literal(p[a])) && WfAtom(Literal(p[a]));
    }
  }

  lemma {:induction false} WordEnds(p: string, a: nat, t: string, i: nat)
    requires a <= |p| && i <= |t|
    ensures EndsSeq(WordFrom(p, a), t, i) ==
            if i + |p| - a <= |t| && t[i..i + |p| - a] == p[a..] then [i + |p| - a] else []
    decreases |p| - a
  {
    if a < |p| && i < |t| {
      WordEnds(p, a + 1, t, i + 1);
      assert p[a..] == [p[a]] + p[a + 1..];
      if i + |p| - a <= |t| {
        assert t[i..i + |p| - a] == [t[i]] + t[i + 1..i + |p| - a];
        assert t[i..i + |p| - a][0] == t[i] && t[i..i + |p| - a][1..] == t[i + 1..i + |p| - a];
      }
    }
  }

  /** A pattern of ordinary characters matches itself and nothing else. */
  lemma PlainTextMatches(p: string, t: string, i: nat, j: nat)
    requires (forall k :: 0 <= k < |p| ==> Ordinary(p[k])) && i <= |t|
    ensures MatchesAt(Re(p, t), i, j) <==> j == i + |p| <= |t| && t[i..j] == p
  {
    var s := WordFrom(p, 0);
    WordReads(p, 0);
    hide SpellsSeq, WfSeq, LenSeq, EndsSeq, MatchSeq, WordFrom, Ordinary;
    OnlyReads(p, s);
    MatchIsFirstSuccess(p, Only(s), t, i);
    WordEnds(p, 0, t, i);
    assert p[0..] == p;
  }
}
