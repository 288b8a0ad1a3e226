/**
 What `parseHeaders` in runtime/sere_wsgi.c makes of a header block: the request line, the header
 lines it checks one after the other, and the framing they give the body.
 */
module RequestHeaders {
  import opened Words
  import opened RequestReceive

  const HEADER_COUNT: nat := 100

  datatype Verdict<+T> = Refused(status: nat) | Passed(value: T)

  // ---------------------------------------------------------------- characters and searches

  predicate IsToken(c: char) {
    'a' <= c <= 'z' || 'A' <= c <= 'Z' || '0' <= c <= '9' || c in "!#$%&'*+-.^_`|~"
  }

  predicate IsField(c: char) { !(c < ' ' && c != '\t') && c != 127 as char }

  predicate IsHex(c: char) { '0' <= c <= '9' || 'a' <= c <= 'f' || 'A' <= c <= 'F' }

  predicate IsBlank(c: char) { c == ' ' || c == '\t' }

  function Lower(c: char): char { if 'A' <= c <= 'Z' then (c as int + 32) as char else c }

  /** `equalName`: the same letters but for ASCII case. */
  predicate SameName(x: string, name: string) {
    |x| == |name| && forall i :: 0 <= i < |x| ==> Lower(x[i]) == Lower(name[i])
  }

  /** The first `c` in `[i, end)`, or `end`. */
  function Find(h: string, c: char, i: nat, end: nat): (k: nat)
    requires i <= end <= |h|
    ensures i <= k <= end && c !in h[i..k] && (k < end ==> h[k] == c)
    decreases end - i
  {
    if i == end || h[i] == c then i else Find(h, c, i + 1, end)
  }

  /** The first CRLF at or after `i`, or the length. */
  function FindCrlf(h: string, i: nat): (k: nat)
    requires i <= |h|
    ensures i <= k <= |h| && (k < |h| ==> CrlfAt(h, k)) && forall j :: i <= j < k ==> !CrlfAt(h, j)
    decreases |h| - i
  {
    if i == |h| || CrlfAt(h, i) then i else FindCrlf(h, i + 1)
  }

  predicate AllTokens(h: string, i: nat, end: nat)
    requires end <= |h|
  {
    forall k :: i <= k < end ==> IsToken(h[k])
  }

  predicate AllFields(h: string, i: nat, end: nat)
    requires end <= |h|
  {
    forall k :: i <= k < end ==> IsField(h[k])
  }

  // ---------------------------------------------------------------- the request line

  predicate TargetOk(h: string, i: nat, end: nat)
    requires i <= end <= |h|
    decreases end - i
  {
    if i == end then true
    else if h[i] <= ' ' || h[i] == 127 as char || h[i] == '#' then false
    else if h[i] == '%' then
      i + 2 < end && IsHex(h[i + 1]) && IsHex(h[i + 2]) && TargetOk(h, i + 3, end)
    else TargetOk(h, i + 1, end)
  }

  /** Where the target and the protocol start. */
  datatype Line = Line(first: nat, second: nat)

  /** The checks of protocol and target, once the two spaces are found. */
  function LineParts(h: string, first: nat, second: nat, end: nat): (r: Verdict<Line>)
    requires first < second - 1 && second <= end <= |h|
    ensures r.Passed? ==> r.value == Line(first, second)
  {
    if h[second..end] != "HTTP/1.0" && h[second..end] != "HTTP/1.1" then Refused(505)
    else if h[first] != '/' && h[first..second - 1] != "*" then Refused(400)
    else if !TargetOk(h, first, second - 1) then Refused(400)
    else Passed(Line(first, second))
  }

  function RequestLine(h: string, end: nat): (r: Verdict<Line>)
    requires end <= |h|
    ensures r.Passed? ==> 2 <= r.value.first < r.value.second - 1 && r.value.second <= end
  {
    var first := Find(h, ' ', 0, end) + 1;
    if first > end || first == 1 then Refused(400)
    else if !AllTokens(h, 0, first - 1) then Refused(400)
    else
      var second := Find(h, ' ', first, end) + 1;
      if second > end || second == first + 1 then Refused(400)
      else LineParts(h, first, second, end)
  }

  /** A well-formed request line: method, one space, target, one space, protocol. */
  predicate IsRequestLine(line: string, m: string, t: string, p: string) {
    && line == m + " " + t + " " + p
    && m != "" && AllTokens(m, 0, |m|)
    && (p == "HTTP/1.0" || p == "HTTP/1.1")
    && t != "" && ' ' !in t && (t[0] == '/' || t == "*") && TargetOk(t, 0, |t|)
  }

  // ---------------------------------------------------------------- header lines

  /** What the header lines say so far: their count, the body length, and which names were seen. */
  datatype Framing = Framing(count: nat, length: int, host: bool, waits: bool)

  predicate AllDigits(h: string, i: nat, end: nat)
    requires end <= |h|
  {
    forall k :: i <= k < end ==> '0' <= h[k] <= '9'
  }

  function Decimal(h: string, i: nat, end: nat): nat
    requires i <= end <= |h| && AllDigits(h, i, end)
  {
    if i == end then 0 else Decimal(h, i, end - 1) * 10 + (h[end - 1] as int - '0' as int)
  }

  function SkipBlanks(h: string, i: nat, end: nat): (k: nat)
    requires i <= end <= |h|
    ensures i <= k <= end && (k < end ==> !IsBlank(h[k]))
    decreases end - i
  {
    if i < end && IsBlank(h[i]) then SkipBlanks(h, i + 1, end) else i
  }

  function DropBlanks(h: string, i: nat, end: nat): (k: nat)
    requires i <= end <= |h|
    ensures i <= k <= end && (i < end && !IsBlank(h[i]) ==> i < k)
  {
    if i < end && IsBlank(h[end - 1]) then DropBlanks(h, i, end - 1) else end
  }

  /** One header whose name is `[line, colon)` and whose trimmed value is `[value, last)`. */
  function Apply(h: string, line: nat, colon: nat, value: nat, last: nat, f: Framing): Verdict<Framing>
    requires line <= colon <= value <= last <= |h|
  {
    var name := h[line..colon];
    if SameName(name, "Content-Length") then
      if f.length >= 0 || value == last then Refused(400)
      else if !AllDigits(h, value, last) || Decimal(h, value, last) > INT64_MAX then Refused(400)
      else Passed(f.(length := Decimal(h, value, last)))
    else if SameName(name, "Transfer-Encoding") then Refused(501)
    else if SameName(name, "Host") then
      if f.host || value == last then Refused(400) else Passed(f.(host := true))
    else if SameName(name, "Expect") then
      if !SameName(h[value..last], "100-continue") then Refused(417) else Passed(f.(waits := true))
    else Passed(f)
  }

  function HeaderLine(h: string, line: nat, end: nat, f: Framing): Verdict<Framing>
    requires line <= end <= |h|
  {
    var colon := Find(h, ':', line, end);
    if colon == end || colon == line then Refused(400)
    else if !AllTokens(h, line, colon) then Refused(400)
    else if !AllFields(h, colon + 1, end) then Refused(400)
    else
      var value := SkipBlanks(h, colon + 1, end);
      Apply(h, line, colon, value, DropBlanks(h, value, end), f)
  }

  predicate AtEnd(h: string, line: nat) { line < |h| && h[line] == '\r' }

  /** One round of the loop over header lines: where the line ends and the framing after it. */
  function NextLine(h: string, line: nat, f: Framing): (r: Verdict<(nat, Framing)>)
    requires line <= |h|
    ensures r.Passed? ==> line <= r.value.0 < |h| - 1
  {
    var end := FindCrlf(h, line);
    if end == |h| then Refused(400)
    else if end - line > LINE_LIMIT || f.count + 1 > HEADER_COUNT then Refused(431)
    else
      match HeaderLine(h, line, end, f.(count := f.count + 1))
      case Refused(s) => Refused(s)
      case Passed(g) => Passed((end, g))
  }

  /** The loop; it ends at the first line that starts with a CR. */
  function HeaderLines(h: string, line: nat, f: Framing): Verdict<(Framing, nat)>
    requires line <= |h|
    decreases |h| - line
  {
    if AtEnd(h, line) then Passed((f, line))
    else
      match NextLine(h, line, f)
      case Refused(s) => Refused(s)
      case Passed(r) => HeaderLines(h, r.0 + 2, r.1)
  }

  /** Everything `parseHeaders` learns from a block it accepts. */
  datatype Parsed = Parsed(line: Line, end: nat, framing: Framing, last: nat)

  /** The last checks: a host for HTTP/1.1, and the interim answer a waiting client needs. */
  function Decide(h: string, l: Line, end: nat, f: Framing, last: nat, canSend: bool): Verdict<Parsed>
    requires l.second <= end <= |h|
  {
    if h[l.second..end] == "HTTP/1.1" && !f.host then Refused(400)
    else if f.waits && f.length > 0 && !canSend then Refused(400)
    else Passed(Parsed(l, end, f, last))
  }

  function ParseHeaders(h: string, canSend: bool): Verdict<Parsed> {
    var end := FindCrlf(h, 0);
    if end == |h| || end > LINE_LIMIT then Refused(414)
    else
      match RequestLine(h, end)
      case Refused(s) => Refused(s)
      case Passed(l) => AfterLine(h, l, end, canSend)
  }

  /** What is left to do behind an accepted request line. */
  function AfterLine(h: string, l: Line, end: nat, canSend: bool): Verdict<Parsed>
    requires l.second <= end && end + 2 <= |h|
  {
    match HeaderLines(h, end + 2, Framing(0, -1, false, false))
    case Refused(s) => Refused(s)
    case Passed(r) => Decide(h, l, end, r.0, r.1, canSend)
  }

  // ---------------------------------------------------------------- the request line's shape

  lemma {:induction false} TargetShift(h: string, from: nat, i: nat, end: nat)
    requires from <= i <= end <= |h|
    ensures TargetOk(h, i, end) == TargetOk(h[from..end], i - from, end - from)
    decreases end - i
  {
    if i < end {
      assert h[from..end][i - from] == h[i];
      if i + 2 < end {
        assert h[from..end][i - from + 1] == h[i + 1] && h[from..end][i - from + 2] == h[i + 2];
        TargetShift(h, from, i + 3, end);
      }
      TargetShift(h, from, i + 1, end);
    }
  }

  lemma {:induction false} FindIs(h: string, c: char, i: nat, end: nat, k: nat)
    requires i <= k < end <= |h| && h[k] == c && forall j :: i <= j < k ==> h[j] != c
    ensures Find(h, c, i, end) == k
    decreases k - i
  {
    if i < k { FindIs(h, c, i + 1, end, k); }
  }

  /** An accepted request line is method, target and protocol with single spaces between. */
  lemma AcceptedLineShape(h: string, end: nat)
    requires end <= |h| && RequestLine(h, end).Passed?
    ensures var l := RequestLine(h, end).value;
            IsRequestLine(h[..end], h[..l.first - 1], h[l.first..l.second - 1], h[l.second..end])
  {
    var l := RequestLine(h, end).value;
    var m, t, p := h[..l.first - 1], h[l.first..l.second - 1], h[l.second..end];
    assert h[l.first - 1] == ' ' && h[l.second - 1] == ' ';
    assert h[..end] == m + " " + t + " " + p;
    TargetShift(h, l.first, l.first, l.second - 1);
    assert t[0] == h[l.first];
    assert h[l.first..Find(h, ' ', l.first, end)] == t;
  }

  /** And every such line is accepted, with its parts where they stand. */
  lemma ShapedLineAccepted(h: string, end: nat, m: string, t: string, p: string)
    requires end <= |h| && IsRequestLine(h[..end], m, t, p)
    ensures RequestLine(h, end) == Passed(Line(|m| + 1, |m| + |t| + 2))
  {
    var first, second := |m| + 1, |m| + |t| + 2;
    PartsStand(h, end, m, t, p);
    FindIs(h, ' ', 0, end, |m|);
    FindIs(h, ' ', first, end, second - 1);
    TargetShift(h, first, first, second - 1);
    hide TargetOk, Find;
    assert AllTokens(h, 0, |m|);
    hide AllTokens;
  }

  lemma PartsStand(h: string, end: nat, m: string, t: string, p: string)
    requires end <= |h| && h[..end] == m + " " + t + " " + p
    ensures end == |m| + |t| + |p| + 2 && h[|m|] == ' ' && h[|m| + |t| + 1] == ' '
    ensures forall k :: 0 <= k < |m| ==> h[k] == m[k]
    ensures forall k :: |m| + 1 <= k < |m| + 1 + |t| ==> h[k] == t[k - |m| - 1]
    ensures h[|m| + 1..|m| + |t| + 1] == t && h[|m| + |t| + 2..end] == p
  {
    var x := m + " " + t + " " + p;
    assert forall k :: 0 <= k < end ==> h[k] == x[k];
  }

  // ---------------------------------------------------------------- what the header lines determine

  /** The lines the loop goes through. */
  function Visited(h: string, line: nat): seq<(nat, nat)>
    requires line <= |h|
    decreases |h| - line
  {
    if AtEnd(h, line) then []
    else
      var end := FindCrlf(h, line);
      if end == |h| then [] else [(line, end)] + Visited(h, end + 2)
  }

  /** The line starts with a name up to its first colon. */
  predicate Named(h: string, l: (nat, nat), name: string) {
    l.0 <= l.1 <= |h| && SameName(h[l.0..Find(h, ':', l.0, l.1)], name)
  }

  /** The value of a line is the decimal number `n`, with blanks around it. */
  predicate ValueIs(h: string, l: (nat, nat), n: int) {
    && l.0 <= l.1 <= |h|
    && var colon := Find(h, ':', l.0, l.1);
      (colon < l.1 &&
       var v := SkipBlanks(h, colon + 1, l.1);
       var w := DropBlanks(h, v, l.1);
       v < w && AllDigits(h, v, w) && n == Decimal(h, v, w))
  }

  /** One accepted line takes the framing from `f` to `g`. */
  predicate Effect(h: string, l: (nat, nat), f: Framing, g: Framing) {
    && g.count == f.count && !Named(h, l, "Transfer-Encoding")
    && (if Named(h, l, "Content-Length") then f.length < 0 && 0 <= g.length <= INT64_MAX && ValueIs(h, l, g.length)
        else g.length == f.length)
    && g.host == (f.host || Named(h, l, "Host")) && (Named(h, l, "Host") ==> !f.host)
  }

  /** One accepted line: no transfer coding, and a length only where there was none. */
  lemma LineEffect(h: string, line: nat, end: nat, f: Framing)
    requires line <= end <= |h| && HeaderLine(h, line, end, f).Passed?
    ensures Effect(h, (line, end), f, HeaderLine(h, line, end, f).value)
    ensures HeaderLine(h, line, end, f).value.count == f.count
  {
    var colon := Find(h, ':', line, end);
    var name := h[line..colon];
    assert |"Content-Length"| == 14 && |"Transfer-Encoding"| == 17 && |"Host"| == 4 && |"Expect"| == 6;
  }

  lemma LinesStop(h: string, line: nat, f: Framing)
    requires AtEnd(h, line)
    ensures HeaderLines(h, line, f) == Passed((f, line)) && Visited(h, line) == []
  {}

  /** One round of the loop. */
  lemma LinesStep(h: string, line: nat, f: Framing) returns (end: nat, mid: Framing)
    requires line <= |h| && HeaderLines(h, line, f).Passed? && !AtEnd(h, line)
    ensures end == FindCrlf(h, line) && line <= end < |h| - 1 && end - line <= LINE_LIMIT && CrlfAt(h, end)
    ensures f.count + 1 == mid.count <= HEADER_COUNT && Effect(h, (line, end), f.(count := f.count + 1), mid)
    ensures HeaderLines(h, line, f) == HeaderLines(h, end + 2, mid)
    ensures Visited(h, line) == [(line, end)] + Visited(h, end + 2)
  {
    hide NextLine;
    NextLineEffect(h, line, f);
    end, mid := NextLine(h, line, f).value.0, NextLine(h, line, f).value.1;
  }

  lemma NextLineEffect(h: string, line: nat, f: Framing)
    requires line <= |h| && NextLine(h, line, f).Passed?
    ensures var end, mid := NextLine(h, line, f).value.0, NextLine(h, line, f).value.1;
            && end == FindCrlf(h, line) && end - line <= LINE_LIMIT
            && f.count + 1 == mid.count <= HEADER_COUNT && Effect(h, (line, end), f.(count := f.count + 1), mid)
  {
    hide HeaderLine, Effect;
    LineEffect(h, line, FindCrlf(h, line), f.(count := f.count + 1));
  }

  function CountNamed(h: string, lines: seq<(nat, nat)>, name: string): nat {
    if lines == [] then 0 else (if Named(h, lines[0], name) then 1 else 0) + CountNamed(h, lines[1..], name)
  }

  function FirstNamed(h: string, lines: seq<(nat, nat)>, name: string): (nat, nat)
    requires CountNamed(h, lines, name) > 0
  {
    if Named(h, lines[0], name) then lines[0] else FirstNamed(h, lines[1..], name)
  }

  /** No transfer coding, at most one Host and at most one Content-Length, whose decimal value is the length. */
  predicate Unambiguous(h: string, lines: seq<(nat, nat)>, f: Framing, g: Framing) {
    && CountNamed(h, lines, "Transfer-Encoding") == 0
    && CountNamed(h, lines, "Content-Length") <= (if f.length >= 0 then 0 else 1)
    && (if CountNamed(h, lines, "Content-Length") == 0 then g.length == f.length
        else 0 <= g.length <= INT64_MAX && ValueIs(h, FirstNamed(h, lines, "Content-Length"), g.length))
    && CountNamed(h, lines, "Host") <= (if f.host then 0 else 1)
    && g.host == (f.host || CountNamed(h, lines, "Host") == 1)
  }

  lemma CountMore(h: string, x: (nat, nat), rest: seq<(nat, nat)>, name: string)
    ensures CountNamed(h, [x] + rest, name) == (if Named(h, x, name) then 1 else 0) + CountNamed(h, rest, name)
    ensures CountNamed(h, [x] + rest, name) > 0 ==>
            FirstNamed(h, [x] + rest, name) == if Named(h, x, name) then x else FirstNamed(h, rest, name)
  {
    assert ([x] + rest)[1..] == rest;
  }

  lemma MoreLines(h: string, x: (nat, nat), rest: seq<(nat, nat)>, f: Framing, mid: Framing, g: Framing)
    requires Effect(h, x, f.(count := f.count + 1), mid) && Unambiguous(h, rest, mid, g)
    ensures Unambiguous(h, [x] + rest, f, g)
  {
    hide Named, ValueIs, CountNamed, FirstNamed;
    CountMore(h, x, rest, "Transfer-Encoding");
    CountMore(h, x, rest, "Content-Length");
    CountMore(h, x, rest, "Host");
  }

  /** The framing of an accepted block: at most a hundred lines, and they say it without ambiguity. */
  lemma {:induction false} FramingIsUnambiguous(h: string, line: nat, f: Framing)
    requires line <= |h| && HeaderLines(h, line, f).Passed? && f.count <= HEADER_COUNT
    ensures Unambiguous(h, Visited(h, line), f, HeaderLines(h, line, f).value.0)
    ensures HeaderLines(h, line, f).value.0.count == f.count + |Visited(h, line)| <= HEADER_COUNT
    decreases |h| - line
  {
    hide *;
    if AtEnd(h, line) {
      LinesStop(h, line, f);
      NoLines(h, f);
    } else {
      var end, mid := LinesStep(h, line, f);
      FramingIsUnambiguous(h, end + 2, mid);
      MoreLines(h, (line, end), Visited(h, end + 2), f, mid, HeaderLines(h, line, f).value.0);
    }
  }

  lemma NoLines(h: string, f: Framing)
    ensures Unambiguous(h, [], f, f)
  {}

  // ---------------------------------------------------------------- where the header lines end

  /** A block that ends with its first empty line. */
  predicate IsBlock(h: string) {
    |h| >= 4 && BoundaryAt(h, |h| - 4) && forall i :: 0 <= i < |h| - 4 ==> !BoundaryAt(h, i)
  }

  /** A line of a block ends inside it, before its last line. */
  lemma LineInside(h: string, line: nat)
    requires IsBlock(h) && 2 <= line <= |h| - 2 && CrlfAt(h, line - 2) && !AtEnd(h, line)
    ensures FindCrlf(h, line) <= |h| - 4
  {
    assert CrlfAt(h, |h| - 4);
    assert line - 1 != |h| - 4;
  }

  /** A line that starts with CR is the empty last one, or an earlier one with a bare CR. */
  lemma CrLine(h: string, line: nat)
    requires IsBlock(h) && 2 <= line <= |h| - 2 && CrlfAt(h, line - 2) && AtEnd(h, line)
    ensures line == |h| - 2 <==> CrlfAt(h, line)
  {
    assert BoundaryAt(h, line - 2) <==> CrlfAt(h, line);
  }

  /** The loop stays in the block and stops at its end, or at an earlier line that a bare CR starts. */
  lemma {:induction false} LinesEnd(h: string, line: nat, f: Framing)
    requires IsBlock(h) && 2 <= line <= |h| - 2 && CrlfAt(h, line - 2) && HeaderLines(h, line, f).Passed?
    ensures var last := HeaderLines(h, line, f).value.1;
            && line <= last <= |h| - 2 && AtEnd(h, last) && CrlfAt(h, last - 2)
            && (last == |h| - 2 <==> CrlfAt(h, last))
    decreases |h| - line
  {
    hide *;
    if AtEnd(h, line) {
      LinesStop(h, line, f);
      CrLine(h, line);
    } else {
      LineInside(h, line);
      var end, mid := LinesStep(h, line, f);
      LinesEnd(h, end + 2, mid);
    }
  }

  // ---------------------------------------------------------------- all the lines of the block

  /** The lines from `line` to the empty one that ends the block, whatever they start with. */
  function BlockLines(h: string, line: nat): seq<(nat, nat)>
    requires line <= |h|
    decreases |h| - line
  {
    if line + 2 >= |h| || FindCrlf(h, line) == |h| then []
    else [(line, FindCrlf(h, line))] + BlockLines(h, FindCrlf(h, line) + 2)
  }

  predicate StartsWithCr(h: string, l: (nat, nat)) { AtEnd(h, l.0) }

  predicate NoneStartsWithCr(h: string, lines: seq<(nat, nat)>) {
    forall k :: 0 <= k < |lines| ==> !StartsWithCr(h, lines[k])
  }

  lemma LinesBegin(h: string, line: nat)
    requires line + 2 < |h| && FindCrlf(h, line) < |h|
    ensures FindCrlf(h, line) + 2 <= |h|
    ensures BlockLines(h, line) == [(line, FindCrlf(h, line))] + BlockLines(h, FindCrlf(h, line) + 2)
  {}

  /** The lines from the first one on that starts with a CR. */
  function Hidden(h: string, lines: seq<(nat, nat)>): seq<(nat, nat)> {
    if lines == [] || StartsWithCr(h, lines[0]) then lines else Hidden(h, lines[1..])
  }

  lemma HiddenBehind(h: string, x: (nat, nat), rest: seq<(nat, nat)>)
    requires !StartsWithCr(h, x)
    ensures Hidden(h, [x] + rest) == Hidden(h, rest)
  {
    assert ([x] + rest)[1..] == rest;
  }

  lemma {:induction false} NothingHidden(h: string, lines: seq<(nat, nat)>)
    ensures Hidden(h, lines) == [] <==> NoneStartsWithCr(h, lines)
  {
    if lines != [] && !StartsWithCr(h, lines[0]) {
      NothingHidden(h, lines[1..]);
      assert NoneStartsWithCr(h, lines) <==> NoneStartsWithCr(h, lines[1..]) by {
        assert forall k :: 0 < k < |lines| ==> lines[k] == lines[1..][k - 1];
      }
    }
  }

  lemma CrIsNotTheLast(h: string, line: nat)
    requires IsBlock(h) && line <= |h| - 2 && !AtEnd(h, line)
    ensures line + 2 < |h|
  {}

  /** The loop goes through the block's lines up to the first one that starts with a CR. */
  lemma {:induction false} VisitedThenHidden(h: string, line: nat, f: Framing)
    requires IsBlock(h) && 2 <= line <= |h| - 2 && CrlfAt(h, line - 2) && HeaderLines(h, line, f).Passed?
    ensures BlockLines(h, line) == Visited(h, line) + Hidden(h, BlockLines(h, line))
    decreases |h| - line
  {
    hide *;
    if AtEnd(h, line) {
      LinesStop(h, line, f);
      StopsEarly(h, line);
    } else {
      LineInside(h, line);
      CrIsNotTheLast(h, line);
      var end, mid := LinesStep(h, line, f);
      VisitedThenHidden(h, end + 2, mid);
      LinesBegin(h, line);
      LineStart(h, line, end);
      HiddenBehind(h, (line, end), BlockLines(h, end + 2));
      assert [(line, end)] + (Visited(h, end + 2) + Hidden(h, BlockLines(h, end + 2))) ==
             [(line, end)] + Visited(h, end + 2) + Hidden(h, BlockLines(h, end + 2));
    }
  }

  lemma StopsEarly(h: string, line: nat)
    requires IsBlock(h) && 2 <= line <= |h| - 2 && AtEnd(h, line)
    ensures BlockLines(h, line) == [] + Hidden(h, BlockLines(h, line))
  {}

  lemma LineStart(h: string, line: nat, end: nat)
    ensures StartsWithCr(h, (line, end)) == AtEnd(h, line)
  {}

  /** So it goes through all of them exactly when none before the empty one starts with a CR. */
  lemma VisitedAreAll(h: string, line: nat, f: Framing)
    requires IsBlock(h) && 2 <= line <= |h| - 2 && CrlfAt(h, line - 2) && HeaderLines(h, line, f).Passed?
    ensures Visited(h, line) <= BlockLines(h, line)
    ensures Visited(h, line) == BlockLines(h, line) <==> NoneStartsWithCr(h, BlockLines(h, line))
  {
    hide *;
    var seen, lines := Visited(h, line), BlockLines(h, line);
    VisitedThenHidden(h, line, f);
    NothingHidden(h, lines);
    assert Hidden(h, lines) == [] ==> seen + Hidden(h, lines) == seen;
  }

  /** Where the header lines of a block start. */
  function FirstLine(h: string): (line: nat)
    requires IsBlock(h)
    ensures 2 <= line <= |h| - 2 && CrlfAt(h, line - 2)
  {
    assert CrlfAt(h, |h| - 4);
    FindCrlf(h, 0) + 2
  }

  lemma PassedLines(h: string, canSend: bool)
    requires IsBlock(h) && ParseHeaders(h, canSend).Passed?
    ensures HeaderLines(h, FirstLine(h), Framing(0, -1, false, false)).Passed?
    ensures var g := HeaderLines(h, FirstLine(h), Framing(0, -1, false, false)).value.0;
            g == ParseHeaders(h, canSend).value.framing
  {
    hide HeaderLines, RequestLine;
  }

  lemma {:induction false} CountJoined(h: string, a: seq<(nat, nat)>, b: seq<(nat, nat)>, name: string)
    ensures CountNamed(h, a + b, name) == CountNamed(h, a, name) + CountNamed(h, b, name)
    ensures CountNamed(h, a, name) > 0 ==> FirstNamed(h, a + b, name) == FirstNamed(h, a, name)
  {
    hide Named;
    if a == [] {
      assert a + b == b;
    } else {
      CountJoined(h, a[1..], b, name);
      assert a + b == [a[0]] + (a[1..] + b) && a == [a[0]] + a[1..];
      CountMore(h, a[0], a[1..] + b, name);
      CountMore(h, a[0], a[1..], name);
    }
  }

  lemma {:induction false} NoneNamed(h: string, lines: seq<(nat, nat)>, name: string)
    ensures CountNamed(h, lines, name) == 0 <==> forall k :: 0 <= k < |lines| ==> !Named(h, lines[k], name)
  {
    if lines != [] {
      NoneNamed(h, lines[1..], name);
      assert forall k :: 0 < k < |lines| ==> lines[k] == lines[1..][k - 1];
    }
  }

  /** The line's name decides the framing. */
  predicate Decides(h: string, l: (nat, nat)) {
    Named(h, l, "Transfer-Encoding") || Named(h, l, "Content-Length") || Named(h, l, "Host")
  }

  /** Adding lines to the ones that give a framing keeps it unambiguous when none of them decides it. */
  lemma MoreToSay(h: string, seen: seq<(nat, nat)>, more: seq<(nat, nat)>, f: Framing, g: Framing)
    requires Unambiguous(h, seen, f, g) && f == Framing(0, -1, false, false)
    ensures Unambiguous(h, seen + more, f, g) <==> forall k :: 0 <= k < |more| ==> !Decides(h, more[k])
  {
    hide CountNamed, FirstNamed, Named, ValueIs;
    CountJoined(h, seen, more, "Transfer-Encoding");
    CountJoined(h, seen, more, "Content-Length");
    CountJoined(h, seen, more, "Host");
    NoneNamed(h, more, "Transfer-Encoding");
    NoneNamed(h, more, "Content-Length");
    NoneNamed(h, more, "Host");
  }

  /**
   What an accepted block says about its body and host is what all its lines say, without ambiguity,
   if and only if no line from the first on that starts with a CR is named Transfer-Encoding,
   Content-Length or Host.
   */
  lemma AcceptedIsUnambiguous(h: string, canSend: bool)
    requires IsBlock(h) && ParseHeaders(h, canSend).Passed?
    ensures var lines := BlockLines(h, FirstLine(h)); var hidden := Hidden(h, lines);
            Unambiguous(h, lines, Framing(0, -1, false, false), ParseHeaders(h, canSend).value.framing)
            <==> forall k :: 0 <= k < |hidden| ==> !Decides(h, hidden[k])
  {
    var line, f := FirstLine(h), Framing(0, -1, false, false);
    PassedLines(h, canSend);
    hide *;
    FramingIsUnambiguous(h, line, f);
    VisitedThenHidden(h, line, f);
    MoreToSay(h, Visited(h, line), Hidden(h, BlockLines(h, line)), f, HeaderLines(h, line, f).value.0);
  }

  /** A line without a CR ends at the CRLF behind it. */
  lemma {:induction false} CrlfBehind(h: string, i: nat, part: string)
    requires '\r' !in part && i + |part| + 1 < |h| && h[i..i + |part|] == part && CrlfAt(h, i + |part|)
    ensures FindCrlf(h, i) == i + |part|
    decreases |part|
  {
    if part != "" {
      assert h[i] == part[0];
      assert h[i + 1..i + |part|] == part[1..];
      CrlfBehind(h, i + 1, part[1..]);
    }
  }

  lemma PartStands(h: string, a: string, b: string, c: string)
    requires h == a + b + c
    ensures h[|a|..|a| + |b|] == b && forall k :: 0 <= k < |c| ==> h[|a| + |b| + k] == c[k]
  {}

  const ASKING := "G / HTTP/1.0"
  const CODING := "Transfer-Encoding: chunked"
  const HIDING_BLOCK := ASKING + "\r\n\rx\r\n" + CODING + "\r\n\r\n"

  lemma HidingParts()
    ensures |ASKING| == 12 && |CODING| == 26 && |HIDING_BLOCK| == 48
    ensures HIDING_BLOCK[0..12] == ASKING && HIDING_BLOCK[18..44] == CODING
    ensures HIDING_BLOCK[12..18] == "\r\n\rx\r\n" && HIDING_BLOCK[44..48] == "\r\n\r\n"
  {
    PartStands(HIDING_BLOCK, [], ASKING, "\r\n\rx\r\n" + CODING + "\r\n\r\n");
    PartStands(HIDING_BLOCK, ASKING + "\r\n\rx\r\n", CODING, "\r\n\r\n");
  }

  lemma HidingEnds()
    ensures var h := HIDING_BLOCK;
            && |h| == 48 && h[12] == '\r' && h[13] == '\n' && h[14] == '\r' && h[15] == 'x' && h[16] == '\r'
            && h[17] == '\n' && h[44] == '\r' && h[45] == '\n' && h[46] == '\r' && h[47] == '\n'
  {
    HidingParts();
    var h := HIDING_BLOCK;
    var x, y := h[12..18], h[44..48];
    assert h[12] == x[0] && h[13] == x[1] && h[14] == x[2] && h[15] == x[3] && h[16] == x[4] && h[17] == x[5];
    assert h[44] == y[0] && h[45] == y[1] && h[46] == y[2] && h[47] == y[3];
  }

  lemma HidingLines()
    ensures var h := HIDING_BLOCK;
            FindCrlf(h, 0) == 12 && FindCrlf(h, 14) == 16 && FindCrlf(h, 18) == 44
  {
    var h := HIDING_BLOCK;
    HidingParts();
    HidingEnds();
    CrlfBehind(h, 0, ASKING);
    CrlfBehind(h, 18, CODING);
    assert !CrlfAt(h, 14) && !CrlfAt(h, 15) && CrlfAt(h, 16);
    assert FindCrlf(h, 14) == FindCrlf(h, 15) == FindCrlf(h, 16);
  }

  lemma HidingIsBlock()
    ensures IsBlock(HIDING_BLOCK)
  {
    var h := HIDING_BLOCK;
    HidingParts();
    HidingEnds();
    forall i | 0 <= i < 44 ensures !BoundaryAt(h, i) {
      if i < 12 {
        assert h[i] == ASKING[i];
      } else if 18 <= i {
        assert h[i] == h[18..44][i - 18] == CODING[i - 18];
      } else if i == 14 {
      }
    }
  }

  lemma HidingRequestLine()
    ensures RequestLine(HIDING_BLOCK, 12) == Passed(Line(2, 4))
  {
    var h := HIDING_BLOCK;
    HidingParts();
    assert h[..12] == h[0..12] == "G" + " " + "/" + " " + "HTTP/1.0";
    assert AllTokens("G", 0, 1) && ' ' !in "/" && TargetOk("/", 1, 1);
    assert IsRequestLine(h[..12], "G", "/", "HTTP/1.0");
    ShapedLineAccepted(h, 12, "G", "/", "HTTP/1.0");
  }

  lemma HiddenCoding()
    ensures Named(HIDING_BLOCK, (18, 44), "Transfer-Encoding")
  {
    var h := HIDING_BLOCK;
    HidingParts();
    var name := "Transfer-Encoding";
    assert |name| == 17 && CODING[..17] == name && CODING[17] == ':';
    forall j | 18 <= j < 36 ensures h[j] == CODING[j - 18] { assert h[j] == h[18..44][j - 18]; }
    forall j | 18 <= j < 35 ensures h[j] != ':' { assert h[j] == name[j - 18]; }
    FindIs(h, ':', 18, 44, 35);
    assert h[18..35] == name;
  }

  /** An accepted block with a transfer coding, in a line that the loop never reads. */
  lemma CrLineHidesTheRest()
    ensures var h := HIDING_BLOCK;
            && h == "G / HTTP/1.0" + "\r\n\rx\r\n" + "Transfer-Encoding: chunked" + "\r\n\r\n"
            && IsBlock(h) && ParseHeaders(h, true).Passed? && ParseHeaders(h, true).value.framing.length < 0
            && BlockLines(h, FirstLine(h)) == [(14, 16), (18, 44)]
            && Named(h, (18, 44), "Transfer-Encoding") && !NoneStartsWithCr(h, BlockLines(h, FirstLine(h)))
  {
    var h := HIDING_BLOCK;
    HidingEnds();
    HidingIsBlock();
    HidingLines();
    HidingRequestLine();
    HiddenCoding();
    hide IsBlock, RequestLine, Named, FindCrlf;
    HidingParts();
    assert ASKING[11] == '0' && h[11] == h[0..12][11];
    assert h[4..12][7] == '0' && "HTTP/1.1"[7] == '1';
    assert HeaderLines(h, 14, Framing(0, -1, false, false)) == Passed((Framing(0, -1, false, false), 14));
    assert BlockLines(h, 14) == [(14, 16)] + BlockLines(h, 18);
    assert BlockLines(h, 18) == [(18, 44)] + BlockLines(h, 46);
    assert StartsWithCr(h, BlockLines(h, 14)[0]);
  }
}
