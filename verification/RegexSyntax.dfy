/**
 Abstract syntax of the backtick patterns, its concrete text, and two meanings.

  - `AltRel` and its companions are the declarative relation "the text between two
    positions belongs to this pattern". A quantifier means a number of repetitions.
  - `EndsAlt` and its companions list the end positions in the order a greedy matcher
    that tries the left alternative first produces them. A group commits to its first end,
    and a repetition counts only when it consumes text.
 */
module RegexSyntax {
  import opened Wrappers

  datatype Member = Single(c: char) | Range(lo: char, hi: char) | MemberEscape(spec: char)
  datatype Members = NoMembers | More(m: Member, rest: Members)
  datatype Quant = Once | Star | Plus | Optional
  datatype Atom =
    | Start
    | End
    | Any
    | Literal(c: char)
    | Escape(spec: char)
    | Class(negated: bool, members: Members)
    | Group(body: Alt)
  datatype Seq = Nil | Cons(atom: Atom, quant: Quant, rest: Seq)
  datatype Alt = Only(s: Seq) | Or(first: Seq, others: Alt)

  // ---------------------------------------------------------------- characters

  predicate IsDigit(ch: char) { '0' <= ch <= '9' }

  predicate IsWord(ch: char) {
    IsDigit(ch) || 'a' <= ch <= 'z' || 'A' <= ch <= 'Z' || ch == '_'
  }

  predicate IsSpace(ch: char) { ch == ' ' || ch == '\t' || ch == '\n' || ch == '\r' }

  /** What a backslash followed by `spec` accepts. */
  predicate Escaped(spec: char, ch: char) {
    if spec == 'd' then IsDigit(ch)
    else if spec == 'D' then !IsDigit(ch)
    else if spec == 'w' then IsWord(ch)
    else if spec == 'W' then !IsWord(ch)
    else if spec == 's' then IsSpace(ch)
    else if spec == 'S' then !IsSpace(ch)
    else if spec == 'n' then ch == '\n'
    else if spec == 't' then ch == '\t'
    else ch == spec
  }

  predicate MemberHas(m: Member, ch: char) {
    match m
    case Single(c) => ch == c
    case Range(lo, hi) => lo <= ch <= hi
    case MemberEscape(spec) => Escaped(spec, ch)
  }

  predicate SomeMemberHas(ms: Members, ch: char) {
    ms.More? && (MemberHas(ms.m, ch) || SomeMemberHas(ms.rest, ch))
  }

  predicate ClassHas(negated: bool, members: Members, ch: char) {
    SomeMemberHas(members, ch) != negated
  }

  // ---------------------------------------------------------------- concrete text
  // `LenX` is the number of characters a tree takes, and `SpellsX(p, a, x)` says that the text
  // of `x` stands in `p` from position `a`.

  function LenMember(m: Member): nat {
    match m
    case Single(_) => 1
    case Range(_, _) => 3
    case MemberEscape(_) => 2
  }

  function LenMembers(ms: Members): nat {
    if ms.NoMembers? then 0 else LenMember(ms.m) + LenMembers(ms.rest)
  }

  function LenQuant(q: Quant): nat { if q == Once then 0 else 1 }

  function LenAtom(x: Atom): (n: nat)
    ensures n > 0
  {
    match x
    case Escape(_) => 2
    case Class(negated, ms) => (if negated then 2 else 1) + LenMembers(ms) + 1
    case Group(body) => 1 + LenAlt(body) + 1
    case _ => 1
  }

  function LenSeq(s: Seq): nat {
    match s
    case Nil => 0
    case Cons(x, q, rest) => LenAtom(x) + LenQuant(q) + LenSeq(rest)
  }

  function LenAlt(r: Alt): nat {
    match r
    case Only(s) => LenSeq(s)
    case Or(s, others) => LenSeq(s) + 1 + LenAlt(others)
  }

  predicate CharAt(p: string, a: nat, c: char) { a < |p| && p[a] == c }

  predicate SpellsMember(p: string, a: nat, m: Member) {
    match m
    case Single(c) => CharAt(p, a, c)
    case Range(lo, hi) => CharAt(p, a, lo) && CharAt(p, a + 1, '-') && CharAt(p, a + 2, hi)
    case MemberEscape(spec) => CharAt(p, a, '\\') && CharAt(p, a + 1, spec)
  }

  /**
   Whether the loop that skips a class is one character ahead after a member: it takes a backslash
   and the next character as a pair, even where the backslash ends a range.
   */
  predicate Ahead(m: Member, ahead: bool) {
    match m
    case Single(_) => false
    case Range(_, hi) => hi == '\\'
    case MemberEscape(spec) => ahead && spec == '\\'
  }

  /**
   The members and the closing bracket stand in `p` at `a`, and skipping them ends there too: a loop
   that is ahead falls back into step unless it meets an escaped bracket, or misses the closing
   bracket with more of the pattern behind it.
   */
  predicate SpellsMembers(p: string, a: nat, ms: Members, ahead: bool)
    decreases ms
  {
    if ms.NoMembers? then CharAt(p, a, ']') && (ahead ==> a + 1 == |p|)
    else
      && SpellsMember(p, a, ms.m) && (ahead ==> ms.m != MemberEscape(']'))
      && SpellsMembers(p, a + LenMember(ms.m), ms.rest, Ahead(ms.m, ahead))
  }

  predicate SpellsQuant(p: string, a: nat, q: Quant) {
    match q
    case Once => true
    case Star => CharAt(p, a, '*')
    case Plus => CharAt(p, a, '+')
    case Optional => CharAt(p, a, '?')
  }

  predicate SpellsAtom(p: string, a: nat, x: Atom)
    decreases x
  {
    match x
    case Start => CharAt(p, a, '^')
    case End => CharAt(p, a, '$')
    case Any => CharAt(p, a, '.')
    case Literal(c) => CharAt(p, a, c)
    case Escape(spec) => CharAt(p, a, '\\') && CharAt(p, a + 1, spec)
    case Class(negated, ms) =>
      && CharAt(p, a, '[')
      && (negated ==> CharAt(p, a + 1, '^'))
      && SpellsMembers(p, if negated then a + 2 else a + 1, ms, false)
    case Group(body) =>
      CharAt(p, a, '(') && SpellsAlt(p, a + 1, body) && CharAt(p, a + 1 + LenAlt(body), ')')
  }

  predicate SpellsSeq(p: string, a: nat, s: Seq)
    decreases s
  {
    match s
    case Nil => a <= |p|
    case Cons(x, q, rest) =>
      && SpellsAtom(p, a, x)
      && SpellsQuant(p, a + LenAtom(x), q)
      && SpellsSeq(p, a + LenAtom(x) + LenQuant(q), rest)
  }

  predicate SpellsAlt(p: string, a: nat, r: Alt)
    decreases r
  {
    match r
    case Only(s) => SpellsSeq(p, a, s)
    case Or(s, others) =>
      && SpellsSeq(p, a, s)
      && CharAt(p, a + LenSeq(s), '|')
      && SpellsAlt(p, a + LenSeq(s) + 1, others)
  }

  // ---------------------------------------------------------------- unambiguous trees

  predicate QuantChar(c: char) { c == '*' || c == '+' || c == '?' }

  /** A character that stands for itself outside a class. */
  predicate PlainChar(c: char) { c !in "^$.\\[()|" }

  /** The first character of a member. */
  function Leads(m: Member): char {
    match m
    case Single(c) => c
    case Range(lo, _) => lo
    case MemberEscape(_) => '\\'
  }

  /** A single member that its successors do not turn into a range. */
  predicate StandsAlone(c: char, rest: Members) {
    && c != ']' && c != '\\'
    && (rest.NoMembers? || Leads(rest.m) != '-' || (rest.m.Single? && rest.rest.NoMembers?))
  }

  /** The text of the members reads back as the same members. */
  predicate WfMembers(ms: Members) {
    match ms
    case NoMembers => true
    case More(Single(c), rest) => StandsAlone(c, rest) && WfMembers(rest)
    case More(Range(lo, hi), rest) => lo != ']' && lo != '\\' && hi != ']' && WfMembers(rest)
    case More(MemberEscape(c), rest) => WfMembers(rest)
  }

  /** A class that is not negated must not start with '^', which would read back as negated. */
  predicate WfClass(negated: bool, ms: Members) {
    WfMembers(ms) && (!negated ==> ms.NoMembers? || Leads(ms.m) != '^')
  }

  predicate WfAtom(a: Atom) {
    match a
    case Literal(c) => PlainChar(c)
    case Class(negated, members) => WfClass(negated, members)
    case Group(body) => WfAlt(body)
    case _ => true
  }

  predicate WfSeq(s: Seq) {
    match s
    case Nil => true
    case Cons(a, q, rest) =>
      && WfAtom(a) && WfSeq(rest)
      && (q == Once && rest.Cons? && rest.atom.Literal? ==> !QuantChar(rest.atom.c))
  }

  predicate WfAlt(r: Alt) {
    match r
    case Only(s) => WfSeq(s)
    case Or(s, others) => WfSeq(s) && WfAlt(others)
  }

  // ---------------------------------------------------------------- declarative meaning

  ghost predicate AtomRel(a: Atom, t: string, i: nat, j: nat)
    decreases a, 0
  {
    match a
    case Start => i == j == 0
    case End => i == j == |t|
    case Group(body) => AltRel(body, t, i, j)
    case Any => i < |t| && j == i + 1 && t[i] != '\n'
    case Literal(c) => i < |t| && j == i + 1 && t[i] == c
    case Escape(spec) => i < |t| && j == i + 1 && Escaped(spec, t[i])
    case Class(negated, members) => i < |t| && j == i + 1 && ClassHas(negated, members, t[i])
  }

  /** `n` repetitions of `a` in a row. */
  ghost predicate Repeated(a: Atom, t: string, n: nat, i: nat, j: nat)
    decreases a, n + 1
  {
    if n == 0 then i == j
    else exists k: nat :: AtomRel(a, t, i, k) && Repeated(a, t, n - 1, k, j)
  }

  predicate CountAllowed(q: Quant, n: nat) {
    match q
    case Once => n == 1
    case Star => true
    case Plus => n >= 1
    case Optional => n <= 1
  }

  ghost predicate SeqRel(s: Seq, t: string, i: nat, j: nat) {
    match s
    case Nil => i == j
    case Cons(a, q, rest) =>
      exists n: nat, k: nat :: CountAllowed(q, n) && Repeated(a, t, n, i, k) && SeqRel(rest, t, k, j)
  }

  ghost predicate AltRel(r: Alt, t: string, i: nat, j: nat) {
    match r
    case Only(s) => SeqRel(s, t, i, j)
    case Or(s, others) => SeqRel(s, t, i, j) || AltRel(others, t, i, j)
  }

  // ---------------------------------------------------------------- ordered successes

  function First(xs: seq<nat>): Option<nat> {
    if xs == [] then None else Some(xs[0])
  }

  /** The one end position an atom offers at `i`. */
  function Step(a: Atom, t: string, i: nat): (r: Option<nat>)
    requires i <= |t|
    ensures r.Some? ==> i <= r.value <= |t|
    decreases a, 0, 0
  {
    match a
    case Start => if i == 0 then Some(i) else None
    case End => if i == |t| then Some(i) else None
    case Group(body) => First(EndsAlt(body, t, i))
    case Any => if i < |t| && t[i] != '\n' then Some(i + 1) else None
    case Literal(c) => if i < |t| && t[i] == c then Some(i + 1) else None
    case Escape(spec) => if i < |t| && Escaped(spec, t[i]) then Some(i + 1) else None
    case Class(negated, members) =>
      if i < |t| && ClassHas(negated, members, t[i]) then Some(i + 1) else None
  }

  /** Ends of as many consuming repetitions of the head atom as possible, then fewer. */
  function EndsGreedy(s: Seq, t: string, i: nat): (r: seq<nat>)
    requires s.Cons? && i <= |t|
    ensures forall k :: 0 <= k < |r| ==> i <= r[k] <= |t|
    decreases s, |t| - i, 0
  {
    var step := Step(s.atom, t, i);
    (if step.Some? && step.value > i then EndsGreedy(s, t, step.value) else []) + EndsSeq(s.rest, t, i)
  }

  function EndsSeq(s: Seq, t: string, i: nat): (r: seq<nat>)
    requires i <= |t|
    ensures forall k :: 0 <= k < |r| ==> i <= r[k] <= |t|
    decreases s, |t| - i, 1
  {
    match s
    case Nil => [i]
    case Cons(a, q, rest) =>
      var step := Step(a, t, i);
      var consumes := step.Some? && step.value > i;
      match q
      case Once => if step.Some? then EndsSeq(rest, t, step.value) else []
      case Star => EndsGreedy(s, t, i)
      case Plus => if consumes then EndsGreedy(s, t, step.value) else []
      case Optional => (if consumes then EndsSeq(rest, t, step.value) else []) + EndsSeq(rest, t, i)
  }

  function EndsAlt(r: Alt, t: string, i: nat): (ends: seq<nat>)
    requires i <= |t|
    ensures forall k :: 0 <= k < |ends| ==> i <= ends[k] <= |t|
    decreases r, 0, 0
  {
    match r
    case Only(s) => EndsSeq(s, t, i)
    case Or(s, others) => EndsSeq(s, t, i) + EndsAlt(others, t, i)
  }
}
