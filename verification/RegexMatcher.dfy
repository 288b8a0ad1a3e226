/**
 The backtracking matcher of runtime/sere_re.c, which walks the pattern text directly.

 The functions are the specification of each C routine, total on every pattern text,
 malformed ones included: their `decreases` clauses are the termination argument and their
 index expressions the bounds argument. The methods keep the loops of the source and are
 proved to compute those functions.
 */
module RegexMatcher {
  import opened Wrappers
  import opened RegexSyntax

  /** The pattern and the text one search works on. */
  datatype Re = Re(p: string, t: string)

  // ---------------------------------------------------------------- skipping

  /** Where the scan of a class body stops: at a ']' or at the end of the pattern. */
  function ClassBodyEnd(p: string, pi: nat): (r: nat)
    requires pi <= |p|
    ensures pi <= r <= |p|
    decreases |p| - pi
  {
    if pi >= |p| || p[pi] == ']' then pi
    else if p[pi] == '\\' && pi + 1 < |p| then ClassBodyEnd(p, pi + 2)
    else ClassBodyEnd(p, pi + 1)
  }

  /** Where the members of the class at `pi` start. */
  function ClassBody(p: string, pi: nat): (r: nat)
    requires pi < |p|
    ensures pi < r <= |p|
  {
    if pi + 1 < |p| && p[pi + 1] == '^' then pi + 2 else pi + 1
  }

  /** Behind that ']'. */
  function ClassEnd(p: string, pi: nat): (r: nat)
    requires pi <= |p|
    ensures pi <= r <= |p|
  {
    var end := ClassBodyEnd(p, pi);
    if end < |p| then end + 1 else end
  }

  function SkipClass(p: string, pi: nat): (r: nat)
    requires pi <= |p|
    ensures pi <= r <= |p|
    ensures pi < |p| && p[pi] == '[' ==> pi < r
  {
    if pi >= |p| || p[pi] != '[' then pi
    else ClassEnd(p, ClassBody(p, pi))
  }

  /** Where the scan of a group stops, `depth` parentheses deep at `pi`. */
  function GroupEnd(p: string, pi: nat, depth: nat): (r: nat)
    requires pi <= |p|
    ensures pi <= r <= |p|
    decreases |p| - pi
  {
    if pi >= |p| || depth == 0 then pi
    else if p[pi] == '\\' && pi + 1 < |p| then GroupEnd(p, pi + 2, depth)
    else if p[pi] == '[' then GroupEnd(p, SkipClass(p, pi), depth)
    else if p[pi] == '(' then GroupEnd(p, pi + 1, depth + 1)
    else if p[pi] == ')' then GroupEnd(p, pi + 1, depth - 1)
    else GroupEnd(p, pi + 1, depth)
  }

  function SkipGroup(p: string, pi: nat): (r: nat)
    requires pi <= |p|
    ensures pi <= r <= |p|
    ensures pi < |p| && p[pi] == '(' ==> pi < r
  {
    if pi >= |p| || p[pi] != '(' then pi else GroupEnd(p, pi + 1, 1)
  }

  function SkipAtom(p: string, pi: nat): (r: nat)
    requires pi <= |p|
    ensures pi <= r <= |p|
    ensures pi < |p| ==> pi < r
  {
    if pi >= |p| then pi
    else if p[pi] == '\\' then pi + (if pi + 1 < |p| then 2 else 1)
    else if p[pi] == '[' then SkipClass(p, pi)
    else if p[pi] == '(' then SkipGroup(p, pi)
    else pi + 1
  }

  /** The first '|' outside parentheses in the window from `alt` to `endPi`. */
  function TopBar(p: string, alt: nat, endPi: nat, depth: int): (r: Option<nat>)
    requires alt <= |p| && endPi <= |p|
    ensures r.Some? ==> alt <= r.value < endPi
    decreases |p| - alt
  {
    if alt >= endPi then None
    else if p[alt] == '\\' && alt + 1 < endPi then TopBar(p, alt + 2, endPi, depth)
    else if p[alt] == '[' then TopBar(p, SkipClass(p, alt), endPi, depth)
    else if p[alt] == '(' then TopBar(p, alt + 1, endPi, depth + 1)
    else if p[alt] == ')' then TopBar(p, alt + 1, endPi, depth - 1)
    else if p[alt] == '|' && depth == 0 then Some(alt)
    else TopBar(p, alt + 1, endPi, depth)
  }

  // ---------------------------------------------------------------- matching

  /** Whether some member read from `pi` up to the first ']' the reader meets accepts `ch`. */
  predicate ClassBodyHas(p: string, pi: nat, ch: char)
    requires pi <= |p|
    decreases |p| - pi
  {
    if pi >= |p| || p[pi] == ']' then false
    else if p[pi] == '\\' && pi + 1 < |p| then
      Escaped(p[pi + 1], ch) || ClassBodyHas(p, pi + 2, ch)
    else if pi + 2 < |p| && p[pi + 1] == '-' && p[pi + 2] != ']' then
      p[pi] <= ch <= p[pi + 2] || ClassBodyHas(p, pi + 3, ch)
    else ch == p[pi] || ClassBodyHas(p, pi + 1, ch)
  }

  /** Where that reading stops. */
  function MembersEnd(p: string, pi: nat): (r: nat)
    requires pi <= |p|
    ensures pi <= r <= |p|
    decreases |p| - pi
  {
    if pi >= |p| || p[pi] == ']' then pi
    else if p[pi] == '\\' && pi + 1 < |p| then MembersEnd(p, pi + 2)
    else if pi + 2 < |p| && p[pi + 1] == '-' && p[pi + 2] != ']' then MembersEnd(p, pi + 3)
    else MembersEnd(p, pi + 1)
  }

  predicate MatchClass(p: string, pi: nat, ch: char)
    requires pi < |p|
  {
    ClassBodyHas(p, ClassBody(p, pi), ch) == (ClassBody(p, pi) == pi + 1)
  }

  /** The pattern position after the atom at `pi` and the text position it reaches. */
  function MatchAtom(re: Re, pi: nat, ti: nat): (r: Option<(nat, nat)>)
    requires pi <= |re.p| && ti <= |re.t|
    ensures r.Some? ==> pi < r.value.0 <= |re.p| && ti <= r.value.1 <= |re.t|
    decreases |re.t| - ti, |re.p| - pi, 0, 0
  {
    if pi >= |re.p| then None
    else if re.p[pi] == '^' then (if ti == 0 then Some((pi + 1, ti)) else None)
    else if re.p[pi] == '$' then (if ti == |re.t| then Some((pi + 1, ti)) else None)
    else if re.p[pi] == '(' then
      var close := SkipGroup(re.p, pi);
      var inner := MatchSeq(re, pi + 1, ti, close - 1);
      if inner.Some? then Some((close, inner.value)) else None
    else if ti >= |re.t| then None
    else if re.p[pi] == '.' then (if re.t[ti] != '\n' then Some((pi + 1, ti + 1)) else None)
    else if re.p[pi] == '[' then
      (if MatchClass(re.p, pi, re.t[ti]) then Some((SkipClass(re.p, pi), ti + 1)) else None)
    else if re.p[pi] == '\\' && pi + 1 < |re.p| then
      (if Escaped(re.p[pi + 1], re.t[ti]) then Some((pi + 2, ti + 1)) else None)
    else if re.t[ti] == re.p[pi] then Some((pi + 1, ti + 1))
    else None
  }

  function MatchGreedy(re: Re, pi: nat, ti: nat, after: nat, minNeed: nat, maxOne: bool,
                       endPi: nat): (r: Option<nat>)
    requires pi < endPi <= |re.p| && pi < after <= |re.p| && ti <= |re.t|
    ensures r.Some? ==> ti <= r.value <= |re.t|
    decreases |re.t| - ti, |re.p| - pi, endPi, 0
  {
    var atom := MatchAtom(re, pi, ti);
    var matched := atom.Some? && atom.value.1 > ti;
    if maxOne then
      var taken := if matched then MatchSeq(re, after, atom.value.1, endPi) else None;
      if taken.Some? then taken
      else if minNeed == 0 then MatchSeq(re, after, ti, endPi) else None
    else
      var taken :=
        if matched then
          MatchGreedy(re, pi, atom.value.1, after, if minNeed > 0 then minNeed - 1 else 0, false, endPi)
        else None;
      if taken.Some? then taken
      else if minNeed == 0 then MatchSeq(re, after, ti, endPi) else None
  }

  function MatchQuant(re: Re, pi: nat, ti: nat, endPi: nat): (r: Option<nat>)
    requires pi < endPi <= |re.p| && ti <= |re.t|
    ensures r.Some? ==> ti <= r.value <= |re.t|
    decreases |re.t| - ti, |re.p| - pi, endPi, 1
  {
    var atomEnd := SkipAtom(re.p, pi);
    if atomEnd < |re.p| && QuantChar(re.p[atomEnd]) then
      MatchGreedy(re, pi, ti, atomEnd + 1, if re.p[atomEnd] == '+' then 1 else 0,
                  re.p[atomEnd] == '?', endPi)
    else
      var atom := MatchAtom(re, pi, ti);
      if atom.Some? then MatchSeq(re, atom.value.0, atom.value.1, endPi) else None
  }

  function MatchSeq(re: Re, pi: nat, ti: nat, endPi: nat): (r: Option<nat>)
    requires pi <= |re.p| && endPi <= |re.p| && ti <= |re.t|
    ensures r.Some? ==> ti <= r.value <= |re.t|
    decreases |re.t| - ti, |re.p| - pi, endPi, 2
  {
    match TopBar(re.p, pi, endPi, 0)
    case Some(alt) =>
      var left := MatchSeq(re, pi, ti, alt);
      if left.Some? then left else MatchSeq(re, alt + 1, ti, endPi)
    case None =>
      if pi >= endPi then Some(ti) else MatchQuant(re, pi, ti, endPi)
  }

  // ---------------------------------------------------------------- the loops of the source

  method SkipClassLoop(p: string, start: nat) returns (pi: nat)
    requires start <= |p|
    ensures pi == SkipClass(p, start)
  {
    pi := start;
    if pi >= |p| || p[pi] != '[' { return; }
    pi := pi + 1;
    if pi < |p| && p[pi] == '^' { pi := pi + 1; }
    ghost var body := pi;
    while pi < |p| && p[pi] != ']'
      invariant pi <= |p| && ClassBodyEnd(p, pi) == ClassBodyEnd(p, body)
      decreases |p| - pi
    {
      if p[pi] == '\\' && pi + 1 < |p| { pi := pi + 2; } else { pi := pi + 1; }
    }
    if pi < |p| { pi := pi + 1; }
  }

  method SkipGroupLoop(p: string, start: nat) returns (pi: nat)
    requires start <= |p|
    ensures pi == SkipGroup(p, start)
  {
    pi := start;
    if pi >= |p| || p[pi] != '(' { return; }
    pi := pi + 1;
    var depth: nat := 1;
    while pi < |p| && depth > 0
      invariant pi <= |p| && GroupEnd(p, pi, depth) == SkipGroup(p, start)
      decreases |p| - pi
    {
      if p[pi] == '\\' && pi + 1 < |p| { pi := pi + 2; continue; }
      if p[pi] == '[' { pi := SkipClassLoop(p, pi); continue; }
      if p[pi] == '(' { depth := depth + 1; } else if p[pi] == ')' { depth := depth - 1; }
      pi := pi + 1;
    }
  }

  method SkipAtomStep(p: string, pi: nat) returns (r: nat)
    requires pi <= |p|
    ensures r == SkipAtom(p, pi)
  {
    if pi >= |p| { return pi; }
    var ch := p[pi];
    if ch == '\\' { return pi + (if pi + 1 < |p| then 2 else 1); }
    if ch == '[' { r := SkipClassLoop(p, pi); return; }
    if ch == '(' { r := SkipGroupLoop(p, pi); return; }
    return pi + 1;
  }

  method MatchClassLoop(p: string, start: nat, ch: char) returns (r: bool, ghost stop: nat)
    requires start < |p|
    ensures r == MatchClass(p, start, ch) && stop == MembersEnd(p, ClassBody(p, start))
  {
    var negate := false;
    var pi := start + 1;
    if pi < |p| && p[pi] == '^' { negate := true; pi := pi + 1; }
    var ok := false;
    ghost var body := pi;
    while pi < |p| && p[pi] != ']'
      invariant body <= pi <= |p|
      invariant (ok || ClassBodyHas(p, pi, ch)) == ClassBodyHas(p, body, ch)
      invariant MembersEnd(p, pi) == MembersEnd(p, body)
      decreases |p| - pi
    {
      if p[pi] == '\\' && pi + 1 < |p| {
        ok := ok || Escaped(p[pi + 1], ch);
        pi := pi + 2;
        continue;
      }
      var lo := p[pi];
      pi := pi + 1;
      if pi + 1 < |p| && p[pi] == '-' && p[pi + 1] != ']' {
        var hi := p[pi + 1];
        ok := ok || (ch >= lo && ch <= hi);
        pi := pi + 2;
      } else {
        ok := ok || ch == lo;
      }
    }
    return if negate then !ok else ok, pi;
  }

  method ReMatchAtom(re: Re, pi: nat, ti: nat) returns (matched: bool, nextPi: nat, nextTi: nat)
    requires pi <= |re.p| && ti <= |re.t|
    ensures matched == MatchAtom(re, pi, ti).Some?
    ensures matched ==> (nextPi, nextTi) == MatchAtom(re, pi, ti).value
    decreases |re.t| - ti, |re.p| - pi, 0, 0
  {
    nextPi, nextTi := pi, ti;
    if pi >= |re.p| { return false, nextPi, nextTi; }
    var ch := re.p[pi];
    if ch == '^' { return ti == 0, pi + 1, ti; }
    if ch == '$' { return ti == |re.t|, pi + 1, ti; }
    if ch == '(' {
      var close := SkipGroupLoop(re.p, pi);
      var found, innerEnd := ReMatchSeq(re, pi + 1, ti, close - 1);
      if !found { return false, nextPi, nextTi; }
      return true, close, innerEnd;
    }
    if ti >= |re.t| { return false, nextPi, nextTi; }
    var tch := re.t[ti];
    if ch == '.' { return tch != '\n', pi + 1, ti + 1; }
    if ch == '[' {
      nextPi := SkipClassLoop(re.p, pi);
      nextTi := ti + 1;
      ghost var stop;
      matched, stop := MatchClassLoop(re.p, pi, tch);
      return;
    }
    if ch == '\\' && pi + 1 < |re.p| { return Escaped(re.p[pi + 1], tch), pi + 2, ti + 1; }
    return tch == ch, pi + 1, ti + 1;
  }

  method ReMatchGreedy(re: Re, pi: nat, ti: nat, after: nat, minNeed: nat, maxOne: bool, endPi: nat)
    returns (found: bool, outTi: nat)
    requires pi < endPi <= |re.p| && pi < after <= |re.p| && ti <= |re.t|
    ensures found == MatchGreedy(re, pi, ti, after, minNeed, maxOne, endPi).Some?
    ensures found ==> outTi == MatchGreedy(re, pi, ti, after, minNeed, maxOne, endPi).value
    decreases |re.t| - ti, |re.p| - pi, endPi, 0
  {
    outTi := ti;
    var hit, nextPi, nextTi := ReMatchAtom(re, pi, ti);
    var matched := hit && nextTi > ti;
    if maxOne {
      if matched {
        found, outTi := ReMatchSeq(re, after, nextTi, endPi);
        if found { return; }
      }
      if minNeed != 0 { return false, ti; }
      found, outTi := ReMatchSeq(re, after, ti, endPi);
      return;
    }
    if matched {
      found, outTi := ReMatchGreedy(re, pi, nextTi, after, if minNeed > 0 then minNeed - 1 else 0, false, endPi);
      if found { return; }
    }
    if minNeed == 0 {
      found, outTi := ReMatchSeq(re, after, ti, endPi);
      return;
    }
    return false, ti;
  }

  method ReMatchQuant(re: Re, pi: nat, ti: nat, endPi: nat) returns (found: bool, outTi: nat)
    requires pi < endPi <= |re.p| && ti <= |re.t|
    ensures found == MatchQuant(re, pi, ti, endPi).Some?
    ensures found ==> outTi == MatchQuant(re, pi, ti, endPi).value
    decreases |re.t| - ti, |re.p| - pi, endPi, 1
  {
    var atomEnd := SkipAtomStep(re.p, pi);
    if !(atomEnd < |re.p| && QuantChar(re.p[atomEnd])) {
      var hit, nextPi, nextTi := ReMatchAtom(re, pi, ti);
      if !hit { return false, ti; }
      found, outTi := ReMatchSeq(re, nextPi, nextTi, endPi);
      return;
    }
    var quant := re.p[atomEnd];
    var minNeed := if quant == '+' then 1 else 0;
    found, outTi := ReMatchGreedy(re, pi, ti, atomEnd + 1, minNeed, quant == '?', endPi);
  }

  method ReMatchSeq(re: Re, pi: nat, ti: nat, endPi: nat) returns (found: bool, outTi: nat)
    requires pi <= |re.p| && endPi <= |re.p| && ti <= |re.t|
    ensures found == MatchSeq(re, pi, ti, endPi).Some?
    ensures found ==> outTi == MatchSeq(re, pi, ti, endPi).value
    decreases |re.t| - ti, |re.p| - pi, endPi, 2
  {
    var alt := pi;
    var depth := 0;
    while alt < endPi
      invariant pi <= alt <= |re.p|
      invariant TopBar(re.p, alt, endPi, depth) == TopBar(re.p, pi, endPi, 0)
      decreases |re.p| - alt
    {
      if re.p[alt] == '\\' && alt + 1 < endPi { alt := alt + 2; continue; }
      if re.p[alt] == '[' { alt := SkipClassLoop(re.p, alt); continue; }
      if re.p[alt] == '(' {
        depth := depth + 1;
      } else if re.p[alt] == ')' {
        depth := depth - 1;
      } else if re.p[alt] == '|' && depth == 0 {
        found, outTi := ReMatchSeq(re, pi, ti, alt);
        if found { return; }
        found, outTi := ReMatchSeq(re, alt + 1, ti, endPi);
        return;
      }
      alt := alt + 1;
    }
    if pi >= endPi { return true, ti; }
    found, outTi := ReMatchQuant(re, pi, ti, endPi);
  }

  // ---------------------------------------------------------------- searching

  /** The start positions a search tries: only 0 when the pattern text begins with '^'. */
  predicate Tried(p: string, i: nat) { (|p| > 0 && p[0] == '^') ==> i == 0 }

  /** The matcher succeeds from `i` and stops at `j`. */
  predicate MatchesAt(re: Re, i: nat, j: nat) {
    i <= |re.t| && MatchSeq(re, 0, i, |re.p|) == Some(j)
  }

  method Search(re: Re) returns (found: bool, start: nat, end: nat)
    ensures found ==> start <= end <= |re.t| && Tried(re.p, start) && MatchesAt(re, start, end)
    ensures found ==> forall i: nat :: i < start ==> MatchSeq(re, 0, i, |re.p|) == None
    ensures !found ==>
      forall i: nat :: i <= |re.t| && Tried(re.p, i) ==> MatchSeq(re, 0, i, |re.p|) == None
  {
    start, end := 0, 0;
    var anchored := |re.p| > 0 && re.p[0] == '^';
    var index := 0;
    while index <= |re.t|
      invariant index <= |re.t| + 1 && (anchored ==> index == 0)
      invariant forall i: nat :: i < index ==> MatchSeq(re, 0, i, |re.p|) == None
    {
      var hit, matchedEnd := ReMatchSeq(re, 0, index, |re.p|);
      if hit { return true, index, matchedEnd; }
      if anchored { break; }
      index := index + 1;
    }
    found := false;
  }
}
