/**
 `parseHeaders` of runtime/sere_wsgi.c in place: it cuts the block into C strings by writing NULs
 over separators, reads them, and puts the bytes of every header line back.
 */
module RequestParse {
  import opened Words
  import opened RequestReceive
  import opened RequestHeaders

  /** From position `i` the buffer shows `h` up to `n`, where a C string ends. */
  ghost predicate Shows(raw: array<char>, h: string, i: nat, n: nat)
    reads raw
  {
    && i <= n < raw.Length && n <= |h| && raw[n] == '\0'
    && forall k :: i <= k < n ==> raw[k] == h[k] && h[k] != '\0'
  }

  /** The buffer agrees with `h` between two positions. */
  ghost predicate Agrees(raw: array<char>, h: string, i: nat, n: nat)
    reads raw
  {
    n <= |h| && n <= raw.Length && forall k :: i <= k < n ==> raw[k] == h[k] && h[k] != '\0'
  }

  // ---------------------------------------------------------------- reading C strings

  method StrChr(raw: array<char>, c: char, i: nat, ghost h: string, ghost n: nat) returns (found: bool, k: nat)
    requires Shows(raw, h, i, n) && c != '\0'
    ensures k == Find(h, c, i, n) && found == (k < n)
  {
    k := i;
    while raw[k] != '\0' && raw[k] != c
      invariant i <= k <= n && Find(h, c, k, n) == Find(h, c, i, n)
      decreases n - k
    {
      k := k + 1;
    }
    found := raw[k] == c;
  }

  /** The token check of a C string. */
  method CheckTokens(raw: array<char>, i: nat, ghost h: string, ghost n: nat) returns (ok: bool)
    requires Shows(raw, h, i, n)
    ensures ok == AllTokens(h, i, n)
  {
    var p := i;
    while raw[p] != '\0'
      invariant i <= p <= n && AllTokens(h, i, p)
      decreases n - p
    {
      if !IsToken(raw[p]) { return false; }
      p := p + 1;
    }
    ok := true;
  }

  method CheckTarget(raw: array<char>, i: nat, ghost h: string, ghost n: nat) returns (ok: bool)
    requires Shows(raw, h, i, n)
    ensures ok == TargetOk(h, i, n)
  {
    var p := i;
    while raw[p] != '\0'
      invariant i <= p <= n && TargetOk(h, p, n) == TargetOk(h, i, n)
      decreases n - p
    {
      if raw[p] <= ' ' || raw[p] == 127 as char || raw[p] == '#' { return false; }
      if raw[p] == '%' {
        if !IsHex(raw[p + 1]) { return false; }
        if !IsHex(raw[p + 2]) { return false; }
        p := p + 2;
      }
      p := p + 1;
    }
    ok := true;
  }

  /** `strcmp` is zero. */
  method StrEq(raw: array<char>, i: nat, text: string, ghost h: string, ghost n: nat) returns (r: bool)
    requires Shows(raw, h, i, n) && '\0' !in text
    ensures r == (h[i..n] == text)
  {
    var k := 0;
    while k < |text| && raw[i + k] == text[k]
      invariant 0 <= k <= |text| && i + k <= n && h[i..i + k] == text[..k]
    {
      k := k + 1;
    }
    if k < |text| {
      r := false;
      if i + k < n { assert h[i..n][k] != text[k]; }
    } else {
      r := raw[i + k] == '\0';
      assert h[i..i + k] == text;
    }
  }

  /** `equalName`. */
  method EqualName(raw: array<char>, i: nat, name: string, ghost h: string, ghost n: nat) returns (r: bool)
    requires Shows(raw, h, i, n) && '\0' !in name
    ensures r == SameName(h[i..n], name)
  {
    var k := 0;
    ghost var x := h[i..n];
    while raw[i + k] != '\0' && k < |name|
      invariant 0 <= k <= |name| && i + k <= n
      invariant forall j :: 0 <= j < k ==> Lower(x[j]) == Lower(name[j])
      decreases n - i - k
    {
      if Lower(raw[i + k]) != Lower(name[k]) {
        assert Lower(x[k]) != Lower(name[k]);
        return false;
      }
      k := k + 1;
    }
    r := raw[i + k] == '\0' && k == |name|;
  }

  /** The overflow guard of the length loop refuses exactly the steps that pass the limit. */
  lemma LengthGuard(length: nat, digit: nat)
    requires digit <= 9
    ensures length > (INT64_MAX - digit) / 10 <==> length * 10 + digit > INT64_MAX
  {}

  lemma {:induction false} DecimalGrows(h: string, i: nat, m: nat, n: nat)
    requires i <= m <= n <= |h| && AllDigits(h, i, n)
    ensures Decimal(h, i, m) <= Decimal(h, i, n)
    decreases n
  {
    if m < n { DecimalGrows(h, i, m, n - 1); }
  }

  /** The Content-Length loop: a body length that fits 63 bits, or nothing. */
  method ReadLength(raw: array<char>, i: nat, ghost h: string, ghost n: nat) returns (ok: bool, length: nat)
    requires Shows(raw, h, i, n)
    ensures ok <==> AllDigits(h, i, n) && Decimal(h, i, n) <= INT64_MAX
    ensures ok ==> length == Decimal(h, i, n)
  {
    length := 0;
    var p := i;
    while raw[p] != '\0'
      invariant i <= p <= n && AllDigits(h, i, p) && length == Decimal(h, i, p) <= INT64_MAX
      decreases n - p
    {
      var c := raw[p];
      if c < '0' || c > '9' { return false, 0; }
      var digit := c as int - '0' as int;
      LengthGuard(length, digit);
      if length > (INT64_MAX - digit) / 10 {
        if AllDigits(h, i, n) { DecimalGrows(h, i, p + 1, n); }
        return false, 0;
      }
      length := length * 10 + digit;
      p := p + 1;
    }
    ok := true;
  }

  // ---------------------------------------------------------------- one header line

  /** Whether the header's name is known, and what its value does to the framing. */
  method ApplyLine(raw: array<char>, line: nat, colon: nat, value: nat, last: nat, f: Framing, ghost h: string)
      returns (v: Verdict<Framing>)
    requires Shows(raw, h, line, colon) && Shows(raw, h, value, last) && colon <= value
    ensures v == Apply(h, line, colon, value, last, f)
  {
    hide SameName, AllDigits, Decimal;
    var isLength := EqualName(raw, line, "Content-Length", h, colon);
    if isLength {
      if f.length >= 0 || raw[value] == '\0' { return Refused(400); }
      var ok, length := ReadLength(raw, value, h, last);
      if !ok { return Refused(400); }
      return Passed(f.(length := length));
    }
    var isCoding := EqualName(raw, line, "Transfer-Encoding", h, colon);
    if isCoding { return Refused(501); }
    var isHost := EqualName(raw, line, "Host", h, colon);
    if isHost {
      if f.host || raw[value] == '\0' { return Refused(400); }
      return Passed(f.(host := true));
    }
    var isExpect := EqualName(raw, line, "Expect", h, colon);
    if isExpect {
      var known := EqualName(raw, value, "100-continue", h, last);
      if !known { return Refused(417); }
      return Passed(f.(waits := true));
    }
    v := Passed(f);
  }

  method FindColon(raw: array<char>, line: nat, end: nat, ghost h: string) returns (colon: nat)
    requires line <= end && Agrees(raw, h, line, end)
    ensures colon == Find(h, ':', line, end)
  {
    colon := line;
    while colon < end && raw[colon] != ':'
      invariant line <= colon <= end && Find(h, ':', colon, end) == Find(h, ':', line, end)
    {
      colon := colon + 1;
    }
  }

  method CheckLine(raw: array<char>, line: nat, colon: nat, end: nat, ghost h: string) returns (ok: bool)
    requires line <= colon < end && Agrees(raw, h, line, end)
    ensures ok == (AllTokens(h, line, colon) && AllFields(h, colon + 1, end))
  {
    var p := line;
    while p != colon
      invariant line <= p <= colon && AllTokens(h, line, p)
      decreases colon - p
    {
      if !IsToken(raw[p]) { return false; }
      p := p + 1;
    }
    p := colon + 1;
    while p != end
      invariant colon < p <= end && AllFields(h, colon + 1, p)
      decreases end - p
    {
      if !IsField(raw[p]) { return false; }
      p := p + 1;
    }
    ok := true;
  }

  /** Where the value starts and ends once the blanks around it are taken off. */
  method TrimValue(raw: array<char>, start: nat, end: nat, ghost h: string) returns (value: nat, last: nat)
    requires Shows(raw, h, start, end)
    ensures value == SkipBlanks(h, start, end) && last == DropBlanks(h, value, end)
  {
    value := start;
    while raw[value] == ' ' || raw[value] == '\t'
      invariant start <= value <= end && SkipBlanks(h, value, end) == SkipBlanks(h, start, end)
      decreases end - value
    {
      value := value + 1;
    }
    last := end;
    while last > value && (raw[last - 1] == ' ' || raw[last - 1] == '\t')
      invariant value <= last <= end && DropBlanks(h, value, last) == DropBlanks(h, value, end)
    {
      last := last - 1;
    }
  }

  /** One header line, cut at its colon, its end and the end of its value, and put back. */
  method ParseLine(raw: array<char>, line: nat, end: nat, f: Framing, ghost h: string) returns (v: Verdict<Framing>)
    requires line <= end < |h| && Agrees(raw, h, line, end + 1) && h[end] == '\r'
    modifies raw
    ensures v == HeaderLine(h, line, end, f)
    ensures v.Passed? ==> raw[..] == old(raw[..])
  {
    hide Apply, AllTokens, AllFields, SkipBlanks, DropBlanks, Find;
    var colon := FindColon(raw, line, end, h);
    if colon == end || colon == line { return Refused(400); }
    var ok := CheckLine(raw, line, colon, end, h);
    if !ok { return Refused(400); }
    raw[colon] := '\0';
    raw[end] := '\0';
    var value, last := TrimValue(raw, colon + 1, end, h);
    var saved := raw[last];
    raw[last] := '\0';
    v := ApplyLine(raw, line, colon, value, last, f, h);
    if v.Refused? { return; }
    raw[last] := saved;
    raw[colon] := ':';
    raw[end] := '\r';
    assert raw[..] == old(raw[..]);
  }

  // ---------------------------------------------------------------- the whole block

  /** `strstr` of CRLF where one is known to follow. */
  method FindLineEnd(raw: array<char>, i: nat, ghost h: string) returns (end: nat)
    requires i <= |h| && Agrees(raw, h, i, |h|) && FindCrlf(h, i) < |h|
    ensures end == FindCrlf(h, i)
  {
    end := i;
    while !(raw[end] == '\r' && raw[end + 1] == '\n')
      invariant i <= end < |h| - 1 && FindCrlf(h, end) == FindCrlf(h, i)
      decreases |h| - end
    {
      end := end + 1;
    }
  }

  /** The loop over header lines. */
  method ParseLines(raw: array<char>, start: nat, ghost h: string) returns (v: Verdict<(Framing, nat)>)
    requires IsBlock(h) && 2 <= start <= |h| - 2 && CrlfAt(h, start - 2) && Agrees(raw, h, start, |h|)
    modifies raw
    ensures v == HeaderLines(h, start, Framing(0, -1, false, false))
    ensures v.Passed? ==> raw[..] == old(raw[..]) && start <= v.value.1 <= |h| - 2
  {
    ghost var was := raw[..];
    var line := start;
    var f := Framing(0, -1, false, false);
    ghost var f0 := f;
    hide IsBlock, HeaderLine, FindCrlf, HeaderLines, CrlfAt;
    while raw[line] != '\r'
      invariant start <= line <= |h| - 2 && CrlfAt(h, line - 2) && raw[..] == was && Agrees(raw, h, start, |h|)
      invariant HeaderLines(h, line, f) == HeaderLines(h, start, f0)
      decreases |h| - line
    {
      LineInside(h, line);
      RoundOfLines(h, line, f);
      var end := FindLineEnd(raw, line, h);
      if end - line > LINE_LIMIT || f.count + 1 > HEADER_COUNT { return Refused(431); }
      var r := ParseLine(raw, line, end, f.(count := f.count + 1), h);
      if r.Refused? { return Refused(r.status); }
      f := r.value;
      line := end + 2;
      AgreesAgain(raw, was, h, start);
    }
    LinesStop(h, line, f);
    v := Passed((f, line));
  }

  lemma AgreesAgain(raw: array<char>, was: string, h: string, start: nat)
    requires raw[..] == was && |h| <= |was| && forall k :: start <= k < |h| ==> was[k] == h[k] && h[k] != '\0'
    ensures Agrees(raw, h, start, |h|)
  {}

  /** A round of the loop in terms of where its line ends. */
  lemma RoundOfLines(h: string, line: nat, f: Framing)
    requires line <= |h| && !AtEnd(h, line) && FindCrlf(h, line) <= |h| - 4
    ensures var end, f' := FindCrlf(h, line), f.(count := f.count + 1);
            && line <= end && h[end] == '\r' && CrlfAt(h, end + 2 - 2)
            && HeaderLines(h, line, f) ==
               if end - line > LINE_LIMIT || f.count + 1 > HEADER_COUNT then Refused(431)
               else match HeaderLine(h, line, end, f')
                    case Refused(s) => Refused(s)
                    case Passed(g) => HeaderLines(h, end + 2, g)
  {
    hide HeaderLine;
  }

  // ---------------------------------------------------------------- the request line

  /** The buffer after the request line was cut into its three parts. */
  function CutLine(was: string, end: nat, l: Line): string
    requires 2 <= l.first < l.second <= end < |was|
  {
    was[end := '\0'][l.first - 1 := '\0'][l.second - 1 := '\0']
  }

  /** The checks of the protocol and the target, read as C strings. */
  method CheckParts(raw: array<char>, first: nat, second: nat, ghost h: string, ghost end: nat)
      returns (v: Verdict<Line>)
    requires first < second - 1 && second <= end && Shows(raw, h, first, second - 1) && Shows(raw, h, second, end)
    ensures v == LineParts(h, first, second, end)
  {
    hide TargetOk;
    var old10 := StrEq(raw, second, "HTTP/1.0", h, end);
    var old11 := StrEq(raw, second, "HTTP/1.1", h, end);
    if !old10 && !old11 { return Refused(505); }
    if raw[first] != '/' {
      var star := StrEq(raw, first, "*", h, second - 1);
      if !star { return Refused(400); }
    }
    var ok := CheckTarget(raw, first, h, second - 1);
    if !ok { return Refused(400); }
    v := Passed(Line(first, second));
  }

  method ParseRequestLine(raw: array<char>, end: nat, ghost h: string) returns (v: Verdict<Line>)
    requires end < |h| && Agrees(raw, h, 0, |h|)
    modifies raw
    ensures v == RequestLine(h, end)
    ensures v.Passed? ==> raw[..] == CutLine(old(raw[..]), end, v.value)
    ensures v.Passed? ==> Shows(raw, h, 0, v.value.first - 1) && Shows(raw, h, v.value.first, v.value.second - 1)
    ensures v.Passed? ==> Shows(raw, h, v.value.second, end) && Agrees(raw, h, end + 2, |h|)
  {
    hide AllTokens, LineParts, Find;
    raw[end] := '\0';
    var found, k := StrChr(raw, ' ', 0, h, end);
    if !found || k == 0 { return Refused(400); }
    raw[k] := '\0';
    var first := k + 1;
    var ok := CheckTokens(raw, 0, h, k);
    if !ok { return Refused(400); }
    found, k := StrChr(raw, ' ', first, h, end);
    if !found || k == first { return Refused(400); }
    raw[k] := '\0';
    v := CheckParts(raw, first, k + 1, h, end);
  }

  /** `strcpy`. */
  method Copy(raw: array<char>, i: nat, ghost h: string, ghost n: nat) returns (t: string)
    requires Shows(raw, h, i, n)
    ensures t == h[i..n]
  {
    t := "";
    var k := i;
    while raw[k] != '\0'
      invariant i <= k <= n && t == h[i..k]
      decreases n - k
    {
      t := t + [raw[k]];
      k := k + 1;
    }
  }

  // ---------------------------------------------------------------- parseHeaders

  /** The four bytes of a block that stay cut: three in the request line, one after the last header. */
  function CutBlock(was: string, p: Parsed): string
    requires 2 <= p.line.first < p.line.second <= p.end < |was| && p.last < |was|
  {
    CutLine(was, p.end, p.line)[p.last := '\0']
  }

  datatype Head = Head(verb: string, target: string, protocol: string, headers: nat, remaining: nat)

  /** What the request object holds after a block was accepted. */
  function HeadOf(h: string, p: Parsed): Head
    requires 2 <= p.line.first < p.line.second - 1 && p.line.second <= p.end < |h|
  {
    Head(h[..p.line.first - 1], h[p.line.first..p.line.second - 1], h[p.line.second..p.end], p.end + 2,
         if p.framing.length < 0 then 0 else p.framing.length)
  }

  lemma BlockStarts(h: string)
    requires IsBlock(h)
    ensures var end := FindCrlf(h, 0);
            end <= |h| - 4 && CrlfAt(h, end)
  {
    assert CrlfAt(h, |h| - 4);
  }

  ghost predicate Accepts(p: Parsed, h: string) {
    2 <= p.line.first < p.line.second - 1 && p.line.second <= p.end < p.last < |h|
  }

  /** The checks and the last cut after the header lines. */
  method Finish(raw: array<char>, ghost h: string, l: Line, end: nat, f: Framing, last: nat, canSend: bool,
                verb: string, target: string, protocol: string) returns (v: Verdict<Head>)
    requires 2 <= l.first < l.second - 1 && l.second <= end < last < |h| && last < raw.Length
    requires verb == h[..l.first - 1] && target == h[l.first..l.second - 1] && protocol == h[l.second..end]
    modifies raw
    ensures match Decide(h, l, end, f, last, canSend)
            case Refused(s) => v == Refused(s)
            case Passed(p) => v == Passed(HeadOf(h, p)) && raw[..] == old(raw[..])[last := '\0']
  {
    if protocol == "HTTP/1.1" && !f.host { return Refused(400); }
    raw[last] := '\0';
    assert raw[..] == old(raw[..])[last := '\0'];
    if f.waits && f.length > 0 && !canSend { return Refused(400); }
    v := Passed(Head(verb, target, protocol, end + 2, if f.length < 0 then 0 else f.length));
  }

  /** Everything behind the request line. */
  method ParseAfterLine(raw: array<char>, l: Line, end: nat, canSend: bool, ghost h: string) returns (v: Verdict<Head>)
    requires IsBlock(h) && end + 4 <= |h| && CrlfAt(h, end)
    requires 2 <= l.first < l.second - 1 && l.second <= end && Agrees(raw, h, end + 2, |h|)
    requires Shows(raw, h, 0, l.first - 1) && Shows(raw, h, l.first, l.second - 1) && Shows(raw, h, l.second, end)
    modifies raw
    ensures match AfterLine(h, l, end, canSend)
            case Refused(s) => v == Refused(s)
            case Passed(p) =>
              && p.line == l && p.end == end && Accepts(p, h)
              && v == Passed(HeadOf(h, p)) && raw[..] == old(raw[..])[p.last := '\0']
  {
    hide IsBlock, HeaderLines, CrlfAt, Decide, HeadOf;
    var verb := Copy(raw, 0, h, l.first - 1);
    var target := Copy(raw, l.first, h, l.second - 1);
    var protocol := Copy(raw, l.second, h, end);
    var r := ParseLines(raw, end + 2, h);
    if r.Refused? { return Refused(r.status); }
    v := Finish(raw, h, l, end, r.value.0, r.value.1, canSend, verb, target, protocol);
    if v.Passed? { DecidedAs(h, l, end, r.value.0, r.value.1, canSend); }
  }

  /** `parseHeaders`: every header line stands in the buffer as it came. */
  method ParseBlock(raw: array<char>, ghost h: string, canSend: bool) returns (v: Verdict<Head>)
    requires IsBlock(h) && Agrees(raw, h, 0, |h|)
    modifies raw
    ensures match ParseHeaders(h, canSend)
            case Refused(s) => v == Refused(s)
            case Passed(p) => Accepts(p, h) && v == Passed(HeadOf(h, p)) && raw[..] == CutBlock(old(raw[..]), p)
  {
    hide IsBlock, FindCrlf, RequestLine, AfterLine, CrlfAt, HeadOf;
    BlockStarts(h);
    var end := FindLineEnd(raw, 0, h);
    if end > LINE_LIMIT { return Refused(414); }
    var l := ParseRequestLine(raw, end, h);
    if l.Refused? { return Refused(l.status); }
    v := ParseAfterLine(raw, l.value, end, canSend, h);
  }

  lemma DecidedAs(h: string, l: Line, end: nat, f: Framing, last: nat, canSend: bool)
    requires l.second <= end <= |h| && Decide(h, l, end, f, last, canSend).Passed?
    ensures Decide(h, l, end, f, last, canSend).value == Parsed(l, end, f, last)
  {}
}
