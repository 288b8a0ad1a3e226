/**
 What a search means: soundness, completeness and their limits.
 */
module RegexMeaning {
  import opened Wrappers
  import opened RegexSyntax
  import opened RegexMatcher
  import opened RegexProofs
  import opened RegexCompleteness
  import opened RegexShortcut

  // ---------------------------------------------------------------- well-formed patterns

  /**
   The reading loop is at `i` and the skipping loop there too, or one `ahead`: the members close and
   both loops leave the class at the same place.
   */
  predicate LockStep(p: string, i: nat, ahead: bool)
    decreases |p| - i
  {
    i < |p| && (
      if p[i] == ']' then ahead ==> i + 1 == |p|
      else if p[i] == '\\' then
        i + 1 < |p| && (ahead ==> p[i + 1] != ']') && LockStep(p, i + 2, ahead && p[i + 1] == '\\')
      else if ReadsRange(p, i) then LockStep(p, i + 3, p[i + 2] == '\\')
      else LockStep(p, i + 1, false))
  }

  predicate ReadsRange(p: string, i: nat) {
    i + 2 < |p| && p[i] != ']' && p[i] != '\\' && p[i + 1] == '-' && p[i + 2] != ']'
  }

  /** What the three functions make of position `i` when both loops go on from `j`. */
  predicate SameFrom(p: string, i: nat, ahead: bool, j: nat, later: bool) {
    && SkipAt(i, ahead) <= |p| && SkipAt(j, later) <= |p|
    && MembersEnd(p, i) == MembersEnd(p, j) && LockStep(p, i, ahead) == LockStep(p, j, later)
    && ClassBodyEnd(p, SkipAt(i, ahead)) == ClassBodyEnd(p, SkipAt(j, later))
  }

  lemma EscapeStep(p: string, i: nat, ahead: bool)
    requires i + 1 < |p| && p[i] == '\\' && !(ahead && p[i + 1] == ']')
    requires ahead && p[i + 1] == '\\' ==> i + 2 < |p|
    ensures SameFrom(p, i, ahead, i + 2, ahead && p[i + 1] == '\\')
  {}

  lemma RangeStep(p: string, i: nat, ahead: bool)
    requires ReadsRange(p, i) && (p[i + 2] == '\\' ==> i + 3 < |p|)
    ensures SameFrom(p, i, ahead, i + 3, p[i + 2] == '\\')
  {
    assert ClassBodyEnd(p, i + 1) == ClassBodyEnd(p, i + 2);
  }

  lemma SingleStep(p: string, i: nat, ahead: bool)
    requires i < |p| && p[i] != ']' && p[i] != '\\' && !ReadsRange(p, i)
    ensures SameFrom(p, i, ahead, i + 1, false)
  {}

  /** Both loops leave the class at the same place exactly when they keep in step. */
  lemma {:induction false} LockStepIsAgreement(p: string, i: nat, ahead: bool)
    requires SkipAt(i, ahead) <= |p|
    ensures LockStep(p, i, ahead) <==>
            MembersEnd(p, i) < |p| && ClassEnd(p, SkipAt(i, ahead)) == MembersEnd(p, i) + 1
    decreases |p| - i
  {
    hide LockStep, MembersEnd, ClassBodyEnd;
    if ReadsRange(p, i) && (p[i + 2] == '\\' ==> i + 3 < |p|) {
      RangeStep(p, i, ahead);
      LockStepIsAgreement(p, i + 3, p[i + 2] == '\\');
    } else if i < |p| && p[i] != ']' && p[i] != '\\' && !ReadsRange(p, i) {
      SingleStep(p, i, ahead);
      LockStepIsAgreement(p, i + 1, false);
    } else if Paired(p, i, ahead) {
      EscapeStep(p, i, ahead);
      LockStepIsAgreement(p, i + 2, ahead && p[i + 1] == '\\');
    } else {
      LoopsPart(p, i, ahead);
    }
  }

  /** Both loops take what stands at `i` as an escape, or the one ahead takes its second half as one. */
  predicate Paired(p: string, i: nat, ahead: bool) {
    && i + 1 < |p| && p[i] == '\\' && !(ahead && p[i + 1] == ']')
    && (ahead && p[i + 1] == '\\' ==> i + 2 < |p|)
  }

  /** A bracket that ends one loop, or the end of the pattern. */
  lemma LoopsPart(p: string, i: nat, ahead: bool)
    requires SkipAt(i, ahead) <= |p| && !Paired(p, i, ahead)
    requires i < |p| && p[i] != ']' && p[i] != '\\' ==> ReadsRange(p, i) && p[i + 2] == '\\' && i + 3 == |p|
    ensures LockStep(p, i, ahead) <==>
            MembersEnd(p, i) < |p| && ClassEnd(p, SkipAt(i, ahead)) == MembersEnd(p, i) + 1
  {
    if i < |p| && p[i] != ']' {
      if p[i] == '\\' {
        assert MembersEnd(p, i) == if i + 1 < |p| then MembersEnd(p, i + 2) else MembersEnd(p, i + 1);
        if i + 1 < |p| && p[i + 1] != ']' { assert !LockStep(p, i + 2, true); }
      } else {
        assert MembersEnd(p, i) == MembersEnd(p, i + 3) && !LockStep(p, i + 3, true);
      }
    }
  }

  predicate ClassOpensWell(p: string, i: nat)
    requires i < |p|
  {
    LockStep(p, ClassBody(p, i), false)
  }

  /** A class is skipped up to the bracket at which its members end if and only if the loops keep in step. */
  lemma ClassLoopsAgree(p: string, i: nat)
    requires i < |p| && p[i] == '['
    ensures ClassOpensWell(p, i) <==>
            var end := MembersEnd(p, ClassBody(p, i)); end < |p| && SkipClass(p, i) == end + 1
  {
    LockStepIsAgreement(p, ClassBody(p, i), false);
  }

  /**
   One left-to-right pass over the pattern: parentheses balance, classes close and no backslash
   is last. `depth` counts the parentheses open at `i`.
   */
  predicate Balanced(p: string, i: nat, depth: nat)
    decreases |p| - i
  {
    if i >= |p| then i == |p| && depth == 0
    else if p[i] == '\\' then i + 1 < |p| && Balanced(p, i + 2, depth)
    else if p[i] == '[' then ClassOpensWell(p, i) && Balanced(p, SkipClass(p, i), depth)
    else if p[i] == '(' then Balanced(p, i + 1, depth + 1)
    else if p[i] == ')' then depth > 0 && Balanced(p, i + 1, depth - 1)
    else Balanced(p, i + 1, depth)
  }

  /** `r` is a reading of the whole pattern text. */
  predicate Denotes(p: string, r: Alt) {
    WfAlt(r) && SpellsAlt(p, 0, r) && LenAlt(r) == |p|
  }

  lemma {:induction false} ReadMembers(p: string, i: nat, ahead: bool) returns (ms: Members)
    requires LockStep(p, i, ahead)
    ensures WfMembers(ms) && SpellsMembers(p, i, ms, ahead)
    ensures ms.More? ==> p[i] == Leads(ms.m)
    ensures ms.NoMembers? ==> p[i] == ']'
    decreases |p| - i
  {
    if p[i] == ']' {
      ms := NoMembers;
    } else if p[i] == '\\' {
      var rest := ReadMembers(p, i + 2, ahead && p[i + 1] == '\\');
      ms := More(MemberEscape(p[i + 1]), rest);
    } else if ReadsRange(p, i) {
      var rest := ReadMembers(p, i + 3, p[i + 2] == '\\');
      ms := More(Range(p[i], p[i + 2]), rest);
    } else {
      var rest := ReadMembers(p, i + 1, false);
      ms := More(Single(p[i]), rest);
      if rest.More? && Leads(rest.m) == '-' {
        assert p[i + 2] == ']' by { SpelledMembersFit(p, i + 1, rest, false); }
        assert SpellsMembers(p, i + 2, rest.rest, false);
      }
    }
  }

  lemma {:induction false} ReadAtom(p: string, i: nat, depth: nat) returns (x: Atom)
    requires i < |p| && Balanced(p, i, depth) && p[i] != '|' && p[i] != ')'
    ensures WfAtom(x) && SpellsAtom(p, i, x) && Balanced(p, i + LenAtom(x), depth)
    ensures x.Literal? ==> x.c == p[i]
    decreases |p| - i, 0
  {
    if p[i] == '\\' {
      x := Escape(p[i + 1]);
    } else if p[i] == '[' {
      var negated := i + 1 < |p| && p[i + 1] == '^';
      var ms := ReadMembers(p, if negated then i + 2 else i + 1, false);
      x := Class(negated, ms);
      ClassAgrees(p, i, negated, ms);
    } else if p[i] == '(' {
      var body := ReadAlt(p, i + 1, depth + 1);
      x := Group(body);
    } else {
      x := if p[i] == '^' then Start else if p[i] == '$' then End
           else if p[i] == '.' then Any else Literal(p[i]);
    }
  }

  lemma {:induction false} ReadSeq(p: string, i: nat, depth: nat) returns (s: Seq)
    requires i <= |p| && Balanced(p, i, depth)
    ensures WfSeq(s) && SpellsSeq(p, i, s) && Balanced(p, i + LenSeq(s), depth)
    ensures Closes(p, i + LenSeq(s))
    decreases |p| - i, 1
  {
    hide SpellsAlt, WfAlt, LenAlt, SpellsMembers, WfMembers, SkipClass;
    if i == |p| || p[i] == '|' || p[i] == ')' {
      s := Nil;
    } else {
      var x := ReadAtom(p, i, depth);
      var next := i + LenAtom(x);
      SpelledAtomFits(p, i, x);
      var q := if next < |p| && p[next] == '*' then Star else if next < |p| && p[next] == '+' then Plus
               else if next < |p| && p[next] == '?' then Optional else Once;
      var rest := ReadSeq(p, next + LenQuant(q), depth);
      s := Cons(x, q, rest);
      ConsReads(p, i, x, q, rest);
    }
  }

  lemma ConsReads(p: string, i: nat, x: Atom, q: Quant, rest: Seq)
    requires WfAtom(x) && SpellsAtom(p, i, x) && i + LenAtom(x) <= |p|
    requires var next := i + LenAtom(x);
             q == if next < |p| && p[next] == '*' then Star else if next < |p| && p[next] == '+' then Plus
                  else if next < |p| && p[next] == '?' then Optional else Once
    requires var next := i + LenAtom(x) + LenQuant(q); WfSeq(rest) && SpellsSeq(p, next, rest)
    ensures WfSeq(Cons(x, q, rest)) && SpellsSeq(p, i, Cons(x, q, rest))
  {
    hide SpellsAtom, WfAtom, LenAtom;
    if rest.Cons? && rest.atom.Literal? { LiteralStands(p, i + LenAtom(x) + LenQuant(q), rest); }
  }

  lemma LiteralStands(p: string, i: nat, s: Seq)
    requires s.Cons? && s.atom.Literal? && SpellsSeq(p, i, s)
    ensures CharAt(p, i, s.atom.c)
  {
    assert SpellsAtom(p, i, s.atom);
  }

  lemma {:induction false} ReadAlt(p: string, i: nat, depth: nat) returns (r: Alt)
    requires i <= |p| && Balanced(p, i, depth)
    ensures WfAlt(r) && SpellsAlt(p, i, r) && Balanced(p, i + LenAlt(r), depth)
    ensures i + LenAlt(r) <= |p| && (i + LenAlt(r) < |p| ==> p[i + LenAlt(r)] == ')')
    decreases |p| - i, 2
  {
    hide SpellsSeq, WfSeq, LenSeq;
    var s := ReadSeq(p, i, depth);
    var end := i + LenSeq(s);
    if end < |p| && p[end] == '|' {
      var others := ReadAlt(p, end + 1, depth);
      r := Or(s, others);
    } else {
      r := Only(s);
    }
  }

  lemma {:induction false} SpelledMembersClose(p: string, i: nat, ms: Members, ahead: bool)
    requires WfMembers(ms) && SpellsMembers(p, i, ms, ahead)
    ensures LockStep(p, i, ahead)
    decreases ms
  {
    SpelledMembersFit(p, i, ms, ahead);
    if ms.More? {
      SpelledMembersClose(p, i + LenMember(ms.m), ms.rest, Ahead(ms.m, ahead));
      if ms.m.Single? { SingleIsNotARange(p, i, ms, ahead); }
    }
  }

  lemma {:induction false} BalancedPassesAtom(p: string, i: nat, x: Atom, depth: nat)
    requires WfAtom(x) && SpellsAtom(p, i, x) && Balanced(p, i + LenAtom(x), depth)
    ensures Balanced(p, i, depth)
    decreases x
  {
    match x
    case Class(negated, ms) =>
      ClassAgrees(p, i, negated, ms);
      SpelledMembersClose(p, if negated then i + 2 else i + 1, ms, false);
    case Group(body) => BalancedPassesAlt(p, i + 1, body, depth + 1);
    case _ =>
  }

  lemma {:induction false} BalancedPassesSeq(p: string, i: nat, s: Seq, depth: nat)
    requires WfSeq(s) && SpellsSeq(p, i, s) && Balanced(p, i + LenSeq(s), depth)
    ensures Balanced(p, i, depth)
    decreases s
  {
    match s
    case Nil =>
    case Cons(x, q, rest) =>
      var next := i + LenAtom(x);
      BalancedPassesSeq(p, next + LenQuant(q), rest, depth);
      assert Balanced(p, next, depth);
      BalancedPassesAtom(p, i, x, depth);
  }

  lemma {:induction false} BalancedPassesAlt(p: string, i: nat, r: Alt, depth: nat)
    requires WfAlt(r) && SpellsAlt(p, i, r) && Balanced(p, i + LenAlt(r), depth)
    ensures Balanced(p, i, depth)
    decreases r
  {
    hide SpellsSeq, WfSeq, LenSeq;
    match r
    case Only(s) => BalancedPassesSeq(p, i, s, depth);
    case Or(s, others) =>
      BalancedPassesAlt(p, i + LenSeq(s) + 1, others, depth);
      assert Balanced(p, i + LenSeq(s), depth);
      BalancedPassesSeq(p, i, s, depth);
  }

  /** The patterns of the grammar are exactly the texts that pass the linear check. */
  lemma WellFormedIsBalanced(p: string)
    ensures Balanced(p, 0, 0) <==> exists r :: Denotes(p, r)
  {
    if Balanced(p, 0, 0) {
      var r := ReadAlt(p, 0, 0);
      assert Denotes(p, r);
    }
    if r :| Denotes(p, r) {
      BalancedPassesAlt(p, 0, r, 0);
    }
  }

  // ---------------------------------------------------------------- the matcher on a whole pattern

  /** The text from `i` to `j` belongs to the pattern. */
  ghost predicate Belongs(r: Alt, t: string, i: nat, j: nat) { AltRel(r, t, i, j) }

  /** The same with every repetition of a quantified item consuming text. */
  ghost predicate BelongsConsuming(r: Alt, t: string, i: nat, j: nat) { AltTakes(r, t, i, j) }

  /** For every pattern of the grammar the matcher returns the first of the ordered successes. */
  lemma MatchIsFirstSuccess(p: string, r: Alt, t: string, i: nat)
    requires Denotes(p, r) && i <= |t|
    ensures MatchSeq(Re(p, t), 0, i, |p|) == First(EndsAlt(r, t, i))
  {
    AltIsFirst(Re(p, t), 0, r, i);
  }

  /** Whatever the matcher reports belongs to the pattern, even with consuming repetitions only. */
  lemma MatchIsSound(p: string, r: Alt, t: string, i: nat, j: nat)
    requires Denotes(p, r) && MatchesAt(Re(p, t), i, j)
    ensures i <= j <= |t| && Belongs(r, t, i, j) && BelongsConsuming(r, t, i, j)
  {
    MatchIsFirstSuccess(p, r, t, i);
    EndsAltTake(r, t, i, j);
    TakesIsRel(r, t, i, j);
  }

  /**
   When every group has a fixed width and nothing of width zero stands under '+', the ordered
   successes are all ends.
   */
  lemma SuccessesAreAllEnds(r: Alt, t: string, i: nat, j: nat)
    requires SimpleAlt(r) && i <= |t|
    ensures j in EndsAlt(r, t, i) <==> Belongs(r, t, i, j)
  {
    SimpleIsFixed(r);
    SuccessesConsume(r, t, i, j);
    if AltTakes(r, t, i, j) { TakesIsRel(r, t, i, j); }
    if Belongs(r, t, i, j) { RelIsTakes(r, t, i, j); }
  }

  /**
   When every group has a fixed width the matcher fails exactly where no end exists that is reached
   with every repetition of a quantified item consuming text.
   */
  lemma MatchConsumes(p: string, r: Alt, t: string, i: nat)
    requires Denotes(p, r) && FixedGroups(r) && i <= |t|
    ensures MatchSeq(Re(p, t), 0, i, |p|) == None <==> forall j: nat :: !BelongsConsuming(r, t, i, j)
  {
    hide AltTakes;
    var ends := EndsAlt(r, t, i);
    MatchIsFirstSuccess(p, r, t, i);
    forall j: nat ensures j in ends <==> BelongsConsuming(r, t, i, j) {
      SuccessesConsume(r, t, i, j);
    }
    if ends != [] { assert ends[0] in ends; }
  }

  /** Then the matcher misses nothing: it fails exactly where no end exists. */
  lemma MatchIsComplete(p: string, r: Alt, t: string, i: nat)
    requires Denotes(p, r) && SimpleAlt(r) && i <= |t|
    ensures MatchSeq(Re(p, t), 0, i, |p|) == None <==> forall j: nat :: !Belongs(r, t, i, j)
  {
    hide AltRel;
    var ends := EndsAlt(r, t, i);
    MatchIsFirstSuccess(p, r, t, i);
    forall j: nat ensures j in ends <==> Belongs(r, t, i, j) {
      SuccessesAreAllEnds(r, t, i, j);
    }
    if ends != [] { assert ends[0] in ends; }
  }

  // ---------------------------------------------------------------- the search

  /** A search on a simple pattern finds a match exactly when a start it tries has one. */
  lemma SearchDecides(p: string, r: Alt, t: string)
    requires Denotes(p, r) && SimpleAlt(r)
    ensures (forall i: nat, j: nat :: Tried(p, i) ==> !MatchesAt(Re(p, t), i, j)) <==>
            (forall i: nat, j: nat :: Tried(p, i) && i <= |t| ==> !Belongs(r, t, i, j))
  {
    forall i: nat | i <= |t|
      ensures MatchSeq(Re(p, t), 0, i, |p|) == None <==> forall j: nat :: !Belongs(r, t, i, j)
    {
      MatchIsComplete(p, r, t, i);
    }
    forall i: nat, j: nat | MatchesAt(Re(p, t), i, j) ensures Belongs(r, t, i, j) {
      MatchIsSound(p, r, t, i, j);
    }
    if i: nat, j: nat :| Tried(p, i) && i <= |t| && Belongs(r, t, i, j) {
      assert MatchSeq(Re(p, t), 0, i, |p|) != None;
      assert MatchesAt(Re(p, t), i, MatchSeq(Re(p, t), 0, i, |p|).value);
    }
  }

  /** Where no branch can match behind the start, the shortcut for a leading '^' loses no match. */
  lemma ShortcutIsSafe(p: string, r: Alt, t: string, i: nat, j: nat)
    requires Denotes(p, r) && !Loose(r) && MatchesAt(Re(p, t), i, j)
    ensures Tried(p, i)
  {
    MatchIsSound(p, r, t, i, j);
    if i > 0 { TakenIsLoose(r, t, i, j); }
  }

  /** A loose pattern matches some text behind its start. */
  lemma LooseMatches(p: string, r: Alt) returns (t: string, j: nat)
    requires Denotes(p, r) && FixedGroups(r) && Loose(r)
    ensures MatchesAt(Re(p, t), 1, j)
  {
    var k;
    t, k := LooseIsTaken(r);
    hide Denotes, FixedGroups, Loose, EndsAlt, AltTakes, MatchSeq;
    assert BelongsConsuming(r, t, 1, k);
    MatchConsumes(p, r, t, 1);
    j := MatchSeq(Re(p, t), 0, 1, |p|).value;
  }

  /**
   When every group has a fixed width, the shortcut for a leading '^' loses no match in any text if
   and only if no branch can match behind the start.
   */
  lemma ShortcutIsRight(p: string, r: Alt)
    requires Denotes(p, r) && FixedGroups(r) && p != "" && p[0] == '^'
    ensures (forall t: string, i: nat, j: nat :: MatchesAt(Re(p, t), i, j) ==> Tried(p, i)) <==> !Loose(r)
  {
    hide Denotes, MatchesAt, Loose, FixedGroups;
    if Loose(r) {
      var t, j := LooseMatches(p, r);
      assert MatchesAt(Re(p, t), 1, j) && !Tried(p, 1);
    } else {
      forall t: string, i: nat, j: nat | MatchesAt(Re(p, t), i, j) ensures Tried(p, i) {
        ShortcutIsSafe(p, r, t, i, j);
      }
    }
  }

  // ---------------------------------------------------------------- where the conditions are needed

  /** One unquantified item in front of a sequence. */
  lemma ItemRel(x: Atom, rest: Seq, t: string, i: nat, k: nat, j: nat)
    requires AtomRel(x, t, i, k) && SeqRel(rest, t, k, j)
    ensures SeqRel(Cons(x, Once, rest), t, i, j)
  {
    assert Repeated(x, t, 0, k, k);
    assert CountAllowed(Once, 1) && Repeated(x, t, 1, i, k);
  }

  /** The sequence of one literal. */
  function One(c: char): Seq { Cons(Literal(c), Once, Nil) }

  lemma OneReads(p: string, a: nat, c: char, t: string, i: nat)
    requires a < |p| && p[a] == c && PlainChar(c) && i <= |t|
    ensures WfSeq(One(c)) && SpellsSeq(p, a, One(c)) && LenSeq(One(c)) == 1
    ensures EndsSeq(One(c), t, i) == if i < |t| && t[i] == c then [i + 1] else []
    ensures i < |t| && t[i] == c ==> SeqRel(One(c), t, i, i + 1)
  {
    if i < |t| && t[i] == c { ItemRel(Literal(c), Nil, t, i, i + 1, i + 1); }
  }

  /** The tree of `(|a)b`. */
  function EmptyOrA(): Alt { Or(Nil, Only(One('a'))) }

  lemma GroupReads(p: string)
    requires p == "(|a)b"
    ensures Denotes(p, Only(Cons(Group(EmptyOrA()), Once, One('b'))))
  {
    OneReads(p, 2, 'a', "", 0);
    OneReads(p, 4, 'b', "", 0);
    hide One, AltRel, SeqRel, EndsAlt, EndsSeq;
    assert LenAlt(EmptyOrA()) == 2 && SpellsAlt(p, 1, EmptyOrA());
  }

  /**
   `(|a)b` on "ab": the group commits to its empty first branch, so the matcher misses the text
   that the declarative meaning of the pattern contains.
   */
  lemma GroupsCommit(p: string, t: string)
    requires p == "(|a)b" && t == "ab"
    ensures var r := Only(Cons(Group(EmptyOrA()), Once, One('b')));
            && Denotes(p, r) && Belongs(r, t, 0, 2)
            && MatchSeq(Re(p, t), 0, 0, |p|) == None
  {
    GroupReads(p);
    hide Denotes, MatchSeq;
    var s := Cons(Group(EmptyOrA()), Once, One('b'));
    OneReads(p, 2, 'a', t, 0);
    OneReads(p, 4, 'b', t, 0);
    OneReads(p, 4, 'b', t, 1);
    hide One, SpellsSeq, WfSeq, LenSeq;
    assert AltRel(Only(s), t, 0, 2) by {
      assert AltRel(EmptyOrA(), t, 0, 1);
      ItemRel(Group(EmptyOrA()), One('b'), t, 0, 1, 2);
    }
    hide AltRel, SeqRel;
    MatchIsFirstSuccess(p, Only(s), t, 0);
    assert EndsAlt(EmptyOrA(), t, 0) == [0, 1];
  }

  /** A pattern with something that consumes nothing under '+' in every branch fails on every text and at every start. */
  lemma EmptyUnderPlusFails(p: string, r: Alt, t: string, i: nat)
    requires Denotes(p, r) && StuckAlt(r) && i <= |t|
    ensures MatchSeq(Re(p, t), 0, i, |p|) == None
  {
    hide Denotes, MatchSeq, EndsAlt, StuckAlt;
    MatchIsFirstSuccess(p, r, t, i);
    StuckAltEnds(r, t, i);
  }

  /** So `^+` misses the empty text, which one repetition of the anchor matches. */
  lemma AnchorUnderPlusFails(t: string)
    ensures var r := Only(Cons(Start, Plus, Nil));
            && Denotes("^+", r) && Belongs(r, t, 0, 0)
            && MatchSeq(Re("^+", t), 0, 0, 2) == None
  {
    EmptyUnderPlusFails("^+", Only(Cons(Start, Plus, Nil)), t, 0);
    assert Repeated(Start, t, 0, 0, 0) && AtomRel(Start, t, 0, 0);
    assert CountAllowed(Plus, 1) && Repeated(Start, t, 1, 0, 0) && SeqRel(Nil, t, 0, 0);
  }

  /** `^a|b` on "cb": the shortcut skips the start at which the second branch matches. */
  lemma ShortcutMissesBranch(p: string, t: string)
    requires p == "^a|b" && t == "cb"
    ensures var r := Or(Cons(Start, Once, One('a')), Only(One('b')));
            && Denotes(p, r) && Belongs(r, t, 1, 2)
            && forall i: nat, j: nat :: Tried(p, i) ==> !MatchesAt(Re(p, t), i, j)
  {
    var s := Cons(Start, Once, One('a'));
    var r := Or(s, Only(One('b')));
    OneReads(p, 1, 'a', t, 0);
    OneReads(p, 3, 'b', t, 0);
    OneReads(p, 3, 'b', t, 1);
    hide MatchSeq, One;
    assert Denotes(p, r) by {
      hide AltRel, EndsAlt, SeqRel, EndsSeq;
      assert SpellsSeq(p, 0, s) && LenSeq(s) == 2;
      assert SpellsAlt(p, 3, Only(One('b'))) && LenAlt(Only(One('b'))) == 1;
    }
    hide SpellsAlt, WfAlt, LenAlt, SpellsSeq, WfSeq, LenSeq;
    assert AltRel(r, t, 1, 2) by { assert AltRel(Only(One('b')), t, 1, 2); }
    hide AltRel, SeqRel;
    MatchIsFirstSuccess(p, r, t, 0);
    assert EndsSeq(s, t, 0) == [] && EndsAlt(Only(One('b')), t, 0) == [];
  }

  /** `^*b` on "cb": the shortcut also fires on a quantified '^'. */
  lemma ShortcutMissesQuantified(p: string, t: string)
    requires p == "^*b" && t == "cb"
    ensures var r := Only(Cons(Start, Star, One('b')));
            && Denotes(p, r) && Belongs(r, t, 1, 2)
            && forall i: nat, j: nat :: Tried(p, i) ==> !MatchesAt(Re(p, t), i, j)
  {
    var s := Cons(Start, Star, One('b'));
    OneReads(p, 2, 'b', t, 0);
    OneReads(p, 2, 'b', t, 1);
    hide MatchSeq, One;
    assert Denotes(p, Only(s)) by {
      hide AltRel, EndsAlt, SeqRel, EndsSeq;
      assert SpellsSeq(p, 0, s) && LenSeq(s) == 3;
    }
    hide SpellsAlt, WfAlt, LenAlt, SpellsSeq, WfSeq, LenSeq;
    assert AltRel(Only(s), t, 1, 2) by {
      assert CountAllowed(Star, 0) && Repeated(Start, t, 0, 1, 1) && SeqRel(One('b'), t, 1, 2);
      assert SeqRel(s, t, 1, 2);
    }
    hide AltRel, SeqRel;
    MatchIsFirstSuccess(p, Only(s), t, 0);
    assert EndsGreedy(s, t, 0) == [];
  }

  /**
   `[a-\]]`: the skip loop takes the backslash and the bracket as a pair and goes on to the last
   ']', while the member loop takes the backslash as the end of a range and stops at the first.
   */
  lemma RangeToBackslashDisagrees()
    ensures var p := "[a-\\]]";
            !Balanced(p, 0, 0) && SkipClass(p, 0) == 6 && MembersEnd(p, ClassBody(p, 0)) == 4
            && !MatchClass(p, 0, ']') && p[4] == ']'
  {
    var p := "[a-\\]]";
    assert ClassBodyEnd(p, 3) == 5;
    assert ClassBodyEnd(p, 1) == 5;
    assert !ClassBodyHas(p, 4, ']') && MembersEnd(p, 4) == 4;
  }

  /** `[+-\d]`: the loops fall back into step, and the class is the range and the letter. */
  lemma RangeToBackslashCanAgree(p: string)
    requires p == "[+-\\d]"
    ensures var ms := More(Range('+', '\\'), More(Single('d'), NoMembers));
            Balanced(p, 0, 0) && Denotes(p, Only(Cons(Class(false, ms), Once, Nil)))
  {
    var d := More(Single('d'), NoMembers);
    var s := Cons(Class(false, More(Range('+', '\\'), d)), Once, Nil);
    assert SpellsMembers(p, 4, d, true);
    assert SpellsSeq(p, 0, s) && LenSeq(s) == 6;
    BalancedPassesSeq(p, 0, s, 0);
  }
}
