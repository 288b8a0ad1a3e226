/**
 What request lines and header lines are accepted, on the texts of their parts.

 Characters, names and limits are written out, so that these laws do not lean on the predicates and
 searches by which `RequestHeaders` reads a block.
 */
module RequestLaws {
  import opened Words
  import opened Characters
  import opened RequestReceive
  import opened RequestHeaders
  import opened RequestParse
  import opened RequestBody

  lemma Limits()
    ensures HEADER_LIMIT == 65536 && RequestReceive.LINE_LIMIT == 8192 && CHUNK == 4096 && HEADER_COUNT == 100
  {}

  // ---------------------------------------------------------------- characters

  lemma TokenIs(c: char)
    ensures IsToken(c) <==> c in TOKENS
  {
    DigitIs(c);
    SmallIs(c);
    CapitalIs(c);
    hide DIGITS, SMALLS, CAPITALS;
    OtherTokenIs(c);
  }

  lemma OtherTokenIs(c: char)
    ensures c in "!#$%&'*+-.^_`|~" <==> c in {'!', '#', '$', '%', '&', '\'', '*', '+', '-', '.', '^', '_', '`', '|', '~'}
  {
    var t := "!#$%&'*+-.^_`|~";
    assert |t| == 15;
    assert t[0] == '!' && t[1] == '#' && t[2] == '$' && t[3] == '%' && t[4] == '&' && t[5] == '\'' && t[6] == '*';
    assert t[7] == '+' && t[8] == '-' && t[9] == '.' && t[10] == '^' && t[11] == '_' && t[12] == '`' && t[13] == '|' && t[14] == '~';
  }

  /** The same character but for ASCII case. */
  predicate SameLetter(x: char, y: char) {
    || x == y
    || (x in CAPITALS && y as int == x as int + 32)
    || (y in CAPITALS && x as int == y as int + 32)
  }

  predicate SameWord(x: string, y: string) { |x| == |y| && forall i :: 0 <= i < |x| ==> SameLetter(x[i], y[i]) }

  lemma LetterIs(x: char, y: char)
    ensures Lower(x) == Lower(y) <==> SameLetter(x, y)
  {
    CapitalIs(x);
    CapitalIs(y);
    assert x == (x as int) as char && y == (y as int) as char;
    hide CAPITALS;
  }

  /** Names are compared without regard to ASCII case. */
  lemma NameIs(x: string, y: string)
    ensures SameName(x, y) <==> SameWord(x, y)
  {
    forall i | 0 <= i < |x| && |x| == |y| ensures Lower(x[i]) == Lower(y[i]) <==> SameLetter(x[i], y[i]) {
      LetterIs(x[i], y[i]);
    }
    hide Lower, SameLetter;
  }

  // ---------------------------------------------------------------- the request line

  /** A visible character, and a percent sign only before two hexadecimal digits. */
  predicate Visible(t: string, i: nat)
    requires i < |t|
  {
    && t[i] > ' ' && t[i] as int != 127 && t[i] != '#'
    && (t[i] == '%' ==> i + 2 < |t| && t[i + 1] in HEX && t[i + 2] in HEX)
  }

  /** A path or a star, of such characters. */
  predicate Target(t: string) {
    t != "" && (t[0] == '/' || t == "*") && forall i :: 0 <= i < |t| ==> Visible(t, i)
  }

  predicate PlaceOk(t: string, k: nat)
    requires k < |t|
  {
    && t[k] > ' ' && t[k] as int != 127 && t[k] != '#'
    && (t[k] == '%' ==> k + 2 < |t| && IsHex(t[k + 1]) && IsHex(t[k + 2]))
  }

  predicate PlacesOk(t: string, i: nat) { forall k :: i <= k < |t| ==> PlaceOk(t, k) }

  lemma PlacesStep(t: string, i: nat)
    requires i < |t|
    ensures PlacesOk(t, i) <==> PlaceOk(t, i) && PlacesOk(t, i + 1)
  {}

  lemma {:induction false} TargetIs(t: string, i: nat)
    requires i <= |t|
    ensures TargetOk(t, i, |t|) <==> PlacesOk(t, i)
    decreases |t| - i
  {
    hide PlacesOk;
    if i == |t| {
      PlacesEnd(t);
    } else {
      PlacesStep(t, i);
      if t[i] == '%' && i + 2 < |t| && IsHex(t[i + 1]) && IsHex(t[i + 2]) {
        TargetIs(t, i + 3);
        PlacesStep(t, i + 1);
        PlacesStep(t, i + 2);
      } else if t[i] != '%' {
        TargetIs(t, i + 1);
      }
    }
  }

  lemma PlacesEnd(t: string)
    ensures PlacesOk(t, |t|)
  {}

  lemma PlaceIs(t: string, k: nat)
    requires k < |t|
    ensures (PlaceOk(t, k) <==> Visible(t, k)) && (Visible(t, k) ==> t[k] != ' ')
  {
    if k + 2 < |t| {
      HexIs(t[k + 1]);
      HexIs(t[k + 2]);
    }
    hide HEX;
  }

  predicate Method(m: string) { m != "" && forall i :: 0 <= i < |m| ==> m[i] in TOKENS }

  lemma TokensAre(m: string)
    ensures AllTokens(m, 0, |m|) <==> forall i :: 0 <= i < |m| ==> m[i] in TOKENS
  {
    forall i | 0 <= i < |m| ensures IsToken(m[i]) <==> m[i] in TOKENS { TokenIs(m[i]); }
    hide IsToken, TOKENS;
  }

  lemma TargetMeans(t: string)
    ensures Target(t) <==> t != "" && ' ' !in t && (t[0] == '/' || t == "*") && TargetOk(t, 0, |t|)
  {
    TargetIs(t, 0);
    hide TargetOk, HEX, PlaceOk, Visible;
    forall k | 0 <= k < |t| ensures (PlaceOk(t, k) <==> Visible(t, k)) && (Visible(t, k) ==> t[k] != ' ') {
      PlaceIs(t, k);
    }
  }

  lemma LineIs(line: string, m: string, t: string, p: string)
    ensures IsRequestLine(line, m, t, p) <==>
            line == m + " " + t + " " + p && Method(m) && Target(t) && (p == "HTTP/1.0" || p == "HTTP/1.1")
  {
    TokensAre(m);
    TargetMeans(t);
    hide AllTokens, TargetOk, Target, TOKENS;
  }

  /**
   A request line is accepted if and only if it is a method of token characters, a target and one of
   two protocols with single spaces between.
   */
  lemma RequestLineIs(h: string, end: nat)
    requires end <= |h|
    ensures RequestLine(h, end).Passed? <==>
            exists m, t, p :: h[..end] == m + " " + t + " " + p && Method(m) && Target(t) && (p == "HTTP/1.0" || p == "HTTP/1.1")
  {
    hide RequestLine, Method, Target;
    if RequestLine(h, end).Passed? {
      AcceptedLineShape(h, end);
      var l := RequestLine(h, end).value;
      var m, t, p := h[..l.first - 1], h[l.first..l.second - 1], h[l.second..end];
      LineIs(h[..end], m, t, p);
    }
    if m, t, p :| h[..end] == m + " " + t + " " + p && Method(m) && Target(t) && (p == "HTTP/1.0" || p == "HTTP/1.1") {
      LineIs(h[..end], m, t, p);
      ShapedLineAccepted(h, end, m, t, p);
    }
  }

  // ---------------------------------------------------------------- a header line

  predicate Blanks(t: string) { forall i :: 0 <= i < |t| ==> t[i] in {' ', '\t'} }

  predicate Trimmed(t: string) { t == "" || (t[0] !in {' ', '\t'} && t[|t| - 1] !in {' ', '\t'}) }

  /** No control character but the tab, and no delete. */
  predicate Printable(t: string) { forall i :: 0 <= i < |t| ==> (t[i] >= ' ' || t[i] == '\t') && t[i] as int != 127 }

  predicate Decimal10(t: string) { t != "" && forall i :: 0 <= i < |t| ==> t[i] in DIGITS }

  function Number10(t: string): int {
    if t == "" then 0 else Number10(t[..|t| - 1]) * 10 + (t[|t| - 1] as int - 48)
  }

  /** A header line in its parts: name, colon, blanks, value, blanks. */
  predicate HeaderShape(line: string, name: string, before: string, value: string, after: string) {
    && line == name + ":" + before + value + after
    && Method(name) && Blanks(before) && Blanks(after) && Trimmed(value) && Printable(value)
    && (value == "" ==> after == "")
  }

  /** What a header does to the framing so far. */
  function Judgement(name: string, value: string, f: Framing): Verdict<Framing> {
    if SameWord(name, "Content-Length") then
      if f.length >= 0 || !Decimal10(value) || Number10(value) > 0x7FFF_FFFF_FFFF_FFFF then Refused(400)
      else Passed(f.(length := Number10(value)))
    else if SameWord(name, "Transfer-Encoding") then Refused(501)
    else if SameWord(name, "Host") then
      if f.host || value == "" then Refused(400) else Passed(f.(host := true))
    else if SameWord(name, "Expect") then
      if SameWord(value, "100-continue") then Passed(f.(waits := true)) else Refused(417)
    else Passed(f)
  }

  lemma {:induction false} BlanksSkipped(h: string, i: nat, k: nat, end: nat)
    requires i <= k <= end <= |h| && (forall j :: i <= j < k ==> h[j] in {' ', '\t'})
    requires k < end ==> h[k] !in {' ', '\t'}
    ensures SkipBlanks(h, i, end) == k
    decreases k - i
  {
    if i < k { BlanksSkipped(h, i + 1, k, end); }
  }

  lemma {:induction false} BlanksDropped(h: string, i: nat, k: nat, end: nat)
    requires i <= k <= end <= |h| && (forall j :: k <= j < end ==> h[j] in {' ', '\t'})
    requires i < k ==> h[k - 1] !in {' ', '\t'}
    ensures DropBlanks(h, i, end) == k
    decreases end - k
  {
    if k < end { BlanksDropped(h, i, k, end - 1); }
  }

  lemma {:induction false} DecimalIs(h: string, i: nat, k: nat, end: nat)
    requires i <= k <= end <= |h| && AllDigits(h, i, end)
    ensures Decimal(h, i, k) == Number10(h[i..k])
    decreases k
  {
    if i < k {
      DecimalIs(h, i, k - 1, end);
      assert h[i..k][..k - i - 1] == h[i..k - 1] && h[i..k][k - i - 1] == h[k - 1];
    }
  }

  lemma DigitsAre(h: string, i: nat, end: nat)
    requires i <= end <= |h|
    ensures AllDigits(h, i, end) && i < end <==> Decimal10(h[i..end])
  {
    var t := h[i..end];
    assert forall k :: i <= k < end ==> h[k] == t[k - i];
    forall k | 0 <= k < |t| ensures '0' <= t[k] <= '9' <==> t[k] in DIGITS { DigitIs(t[k]); }
    hide DIGITS;
    assert forall k :: 0 <= k < |t| ==> t[k] == h[i + k];
  }

  /** Where the parts of a header line stand. */
  lemma PartsStandAt(h: string, line: nat, end: nat, name: string, before: string, value: string, after: string)
    requires line <= end <= |h| && h[line..end] == name + ":" + before + value + after
    ensures var colon := line + |name|; var v := colon + 1 + |before|; var w := v + |value|;
            && end == w + |after| && h[line..colon] == name && h[colon] == ':' && h[v..w] == value
            && (forall j :: line <= j < colon ==> h[j] == name[j - line])
            && (forall j :: colon < j < v ==> h[j] == before[j - colon - 1])
            && (forall j :: v <= j < w ==> h[j] == value[j - v])
            && (forall j :: w <= j < end ==> h[j] == after[j - w])
  {
    var x := name + ":" + before + value + after;
    forall j | line <= j < end ensures h[j] == x[j - line] { assert h[line..end][j - line] == h[j]; }
  }

  lemma NameTokens(h: string, line: nat, colon: nat, name: string)
    requires line <= colon <= |h| && colon == line + |name| && Method(name)
    requires forall j :: line <= j < colon ==> h[j] == name[j - line]
    ensures AllTokens(h, line, colon) && forall j :: line <= j < colon ==> h[j] != ':'
  {
    forall j | line <= j < colon ensures IsToken(h[j]) && h[j] != ':' {
      TokenIs(name[j - line]);
      assert h[j] == name[j - line] && name[j - line] in TOKENS;
      assert !IsToken(':');
    }
  }

  /** Where the searches find the parts of a line of the right shape. */
  lemma Located(h: string, line: nat, end: nat, name: string, before: string, value: string, after: string)
    requires line <= end <= |h| && HeaderShape(h[line..end], name, before, value, after)
    ensures var colon := line + |name|; var v := colon + 1 + |before|; var w := v + |value|;
            && line < colon < end && v <= w <= end && h[line..colon] == name && h[v..w] == value
            && Find(h, ':', line, end) == colon && AllTokens(h, line, colon) && AllFields(h, colon + 1, end)
            && SkipBlanks(h, colon + 1, end) == v && DropBlanks(h, v, end) == w
  {
    hide *;
    ShapeParts(h[line..end], name, before, value, after);
    PartsStandAt(h, line, end, name, before, value, after);
    var colon := line + |name|;
    var v := colon + 1 + |before|;
    var w := v + |value|;
    NameTokens(h, line, colon, name);
    FindIs(h, ':', line, end, colon);
    FieldsAre(h, colon + 1, v, w, end, before, value, after);
    BlanksAround(h, colon + 1, v, w, end, before, value, after);
  }

  /** A line of the right shape is judged by its name and value alone. */
  lemma ShapedHeader(h: string, line: nat, end: nat, f: Framing, name: string, before: string, value: string, after: string)
    requires line <= end <= |h| && HeaderShape(h[line..end], name, before, value, after)
    ensures HeaderLine(h, line, end, f) == Judgement(name, value, f)
  {
    hide *;
    Located(h, line, end, name, before, value, after);
    var colon := line + |name|;
    var v := colon + 1 + |before|;
    HeaderLineAt(h, line, end, f, colon, v, v + |value|);
    Applied(h, line, colon, v, v + |value|, f, name, value);
  }

  lemma ShapeParts(line: string, name: string, before: string, value: string, after: string)
    requires HeaderShape(line, name, before, value, after)
    ensures line == name + ":" + before + value + after && |name| > 0
    ensures Method(name) && Blanks(before) && Blanks(after) && Trimmed(value) && Printable(value) && (value == "" ==> after == "")
  {}

  lemma ShapeFrom(line: string, name: string, before: string, value: string, after: string)
    requires line == name + ":" + before + value + after
    requires Method(name) && Blanks(before) && Blanks(after) && Trimmed(value) && Printable(value) && (value == "" ==> after == "")
    ensures HeaderShape(line, name, before, value, after)
  {}

  lemma HeaderLineAt(h: string, line: nat, end: nat, f: Framing, colon: nat, v: nat, w: nat)
    requires line < colon < end <= |h| && Find(h, ':', line, end) == colon && AllTokens(h, line, colon)
    requires AllFields(h, colon + 1, end) && SkipBlanks(h, colon + 1, end) == v && DropBlanks(h, v, end) == w
    ensures HeaderLine(h, line, end, f) == Apply(h, line, colon, v, w, f)
  {
    hide Find, AllTokens, AllFields, SkipBlanks, DropBlanks, Apply;
  }

  lemma HeaderLineForm(h: string, line: nat, end: nat, f: Framing)
    requires line <= end <= |h| && HeaderLine(h, line, end, f) != Refused(400)
    ensures var colon := Find(h, ':', line, end);
            line < colon < end && AllTokens(h, line, colon) && AllFields(h, colon + 1, end)
  {
    hide Find, AllTokens, AllFields, SkipBlanks, DropBlanks, Apply;
  }

  lemma FieldsAre(h: string, from: nat, v: nat, w: nat, end: nat, before: string, value: string, after: string)
    requires from <= v <= w <= end <= |h| && v == from + |before| && w == v + |value| && end == w + |after|
    requires Blanks(before) && Blanks(after) && Printable(value)
    requires (forall j :: from <= j < v ==> h[j] == before[j - from]) && (forall j :: v <= j < w ==> h[j] == value[j - v])
    requires forall j :: w <= j < end ==> h[j] == after[j - w]
    ensures AllFields(h, from, end)
  {
    forall j | from <= j < end ensures IsField(h[j]) {
      if j < v { assert before[j - from] in {' ', '\t'}; }
      else if j < w { assert (value[j - v] >= ' ' || value[j - v] == '\t') && value[j - v] as int != 127; }
      else { assert after[j - w] in {' ', '\t'}; }
    }
  }

  lemma BlanksAround(h: string, from: nat, v: nat, w: nat, end: nat, before: string, value: string, after: string)
    requires from <= v <= w <= end <= |h| && v == from + |before| && w == v + |value| && end == w + |after|
    requires Blanks(before) && Blanks(after) && Trimmed(value) && (value == "" ==> after == "")
    requires (forall j :: from <= j < v ==> h[j] == before[j - from]) && (forall j :: v <= j < w ==> h[j] == value[j - v])
    requires forall j :: w <= j < end ==> h[j] == after[j - w]
    ensures SkipBlanks(h, from, end) == v && DropBlanks(h, v, end) == w
  {
    BlanksSkipped(h, from, v, end);
    BlanksDropped(h, v, w, end);
  }

  lemma Applied(h: string, line: nat, colon: nat, v: nat, w: nat, f: Framing, name: string, value: string)
    requires line <= colon <= v <= w <= |h| && h[line..colon] == name && h[v..w] == value
    ensures Apply(h, line, colon, v, w, f) == Judgement(name, value, f)
  {
    NameIs(name, "Content-Length");
    NameIs(name, "Transfer-Encoding");
    NameIs(name, "Host");
    NameIs(name, "Expect");
    NameIs(value, "100-continue");
    DigitsAre(h, v, w);
    if AllDigits(h, v, w) { DecimalIs(h, v, w, w); }
    hide SameName, SameWord, AllDigits, Decimal10, Decimal, Number10;
  }

  /** Any line that is accepted, or refused for another reason than its form, has that shape. */
  lemma HeaderHasShape(h: string, line: nat, end: nat, f: Framing)
      returns (name: string, before: string, value: string, after: string)
    requires line <= end <= |h| && HeaderLine(h, line, end, f) != Refused(400)
    ensures HeaderShape(h[line..end], name, before, value, after)
  {
    hide *;
    HeaderLineForm(h, line, end, f);
    var colon := Find(h, ':', line, end);
    var v := SkipBlanks(h, colon + 1, end);
    BlankAhead(h, colon + 1, end);
    var w := DropBlanks(h, v, end);
    name, before, value, after := h[line..colon], h[colon + 1..v], h[v..w], h[w..end];
    FiveParts(h, line, colon, v, w, end);
    TokensOf(h, line, colon);
    SkippedAreBlanks(h, colon + 1, end);
    DroppedAreBlanks(h, v, end);
    FieldsOf(h, colon + 1, v, w, end);
    TrimmedAt(h, v, w);
    ShapeFrom(h[line..end], name, before, value, after);
  }

  lemma TrimmedAt(h: string, v: nat, w: nat)
    requires v <= w <= |h| && (v < w ==> h[v] !in {' ', '\t'} && h[w - 1] !in {' ', '\t'})
    ensures Trimmed(h[v..w])
  {
    var t := h[v..w];
    if v < w { assert t[0] == h[v] && t[|t| - 1] == h[w - 1]; }
  }

  lemma BlankAhead(h: string, i: nat, end: nat)
    requires i <= end <= |h|
    ensures var v := SkipBlanks(h, i, end); v < end ==> h[v] !in {' ', '\t'}
  {}

  lemma FiveParts(h: string, a: nat, colon: nat, v: nat, w: nat, end: nat)
    requires a <= colon < v <= w <= end <= |h| && h[colon] == ':'
    ensures h[a..end] == h[a..colon] + ":" + h[colon + 1..v] + h[v..w] + h[w..end]
  {}

  lemma TokensOf(h: string, line: nat, colon: nat)
    requires line < colon <= |h| && AllTokens(h, line, colon)
    ensures Method(h[line..colon])
  {
    var m := h[line..colon];
    forall i | 0 <= i < |m| ensures m[i] in TOKENS {
      assert m[i] == h[line + i];
      TokenIs(m[i]);
    }
  }

  lemma {:induction false} SkippedAreBlanks(h: string, i: nat, end: nat)
    requires i <= end <= |h|
    ensures Blanks(h[i..SkipBlanks(h, i, end)])
    decreases end - i
  {
    if i < end && IsBlank(h[i]) {
      SkippedAreBlanks(h, i + 1, end);
      var k := SkipBlanks(h, i, end);
      assert h[i..k] == [h[i]] + h[i + 1..k];
    }
  }

  lemma {:induction false} DroppedAreBlanks(h: string, i: nat, end: nat)
    requires i <= end <= |h| && (i < end ==> h[i] !in {' ', '\t'})
    ensures var w := DropBlanks(h, i, end);
            && Blanks(h[w..end]) && (i < w ==> h[w - 1] !in {' ', '\t'}) && (w == i ==> w == end)
    decreases end
  {
    if i < end && IsBlank(h[end - 1]) {
      DroppedAreBlanks(h, i, end - 1);
      var w := DropBlanks(h, i, end);
      assert h[w..end] == h[w..end - 1] + [h[end - 1]];
    }
  }

  lemma FieldsOf(h: string, from: nat, v: nat, w: nat, end: nat)
    requires from <= v <= w <= end <= |h| && AllFields(h, from, end)
    ensures Printable(h[v..w])
  {
    var t := h[v..w];
    forall i | 0 <= i < |t| ensures (t[i] >= ' ' || t[i] == '\t') && t[i] as int != 127 {
      assert t[i] == h[v + i] && IsField(h[v + i]);
    }
  }

  /** What the laws of framing call the name and the value of a line are its name and value. */
  lemma NameAndValue(h: string, line: nat, end: nat, name: string, before: string, value: string, after: string, x: string, n: int)
    requires line <= end <= |h| && HeaderShape(h[line..end], name, before, value, after)
    ensures Named(h, (line, end), x) <==> SameWord(name, x)
    ensures ValueIs(h, (line, end), n) <==> Decimal10(value) && n == Number10(value)
  {
    hide *;
    Located(h, line, end, name, before, value, after);
    var colon := line + |name|;
    var v := colon + 1 + |before|;
    var w := v + |value|;
    NameIs(name, x);
    NamedAt(h, line, end, colon, x);
    ValueAt(h, line, end, colon, v, w, n);
    DigitsAre(h, v, w);
    if AllDigits(h, v, w) { DecimalIs(h, v, w, w); }
  }

  lemma NamedAt(h: string, line: nat, end: nat, colon: nat, x: string)
    requires line <= colon < end <= |h| && Find(h, ':', line, end) == colon
    ensures Named(h, (line, end), x) <==> SameName(h[line..colon], x)
  {}

  lemma ValueAt(h: string, line: nat, end: nat, colon: nat, v: nat, w: nat, n: int)
    requires line <= colon < end <= |h| && Find(h, ':', line, end) == colon
    requires SkipBlanks(h, colon + 1, end) == v && DropBlanks(h, v, end) == w
    ensures ValueIs(h, (line, end), n) <==> v < w && AllDigits(h, v, w) && n == Decimal(h, v, w)
  {
    hide AllDigits, Decimal, SkipBlanks, DropBlanks, Find;
  }

  // ---------------------------------------------------------------- limits and last checks

  /** A line that is too long, or one too many, is refused before it is read. */
  lemma TooMuch(h: string, line: nat, f: Framing)
    requires line <= |h| && !AtEnd(h, line) && FindCrlf(h, line) < |h|
    requires FindCrlf(h, line) - line > 8192 || f.count >= 100
    ensures HeaderLines(h, line, f) == Refused(431)
  {}

  /** A block with a first line within the limit is accepted if and only if its lines are, a host is there for HTTP/1.1, and an interim answer can be sent when one is due. */
  lemma BlockIsAccepted(h: string, canSend: bool)
    requires IsBlock(h) && FindCrlf(h, 0) <= 8192
    ensures var end := FindCrlf(h, 0); var l, r := RequestLine(h, end), HeaderLines(h, FirstLine(h), Framing(0, -1, false, false));
            ParseHeaders(h, canSend).Passed? <==>
              && l.Passed? && r.Passed?
              && (h[l.value.second..end] == "HTTP/1.1" ==> r.value.0.host)
              && (r.value.0.waits && r.value.0.length > 0 ==> canSend)
  {
    hide RequestLine, HeaderLines;
  }

  /** An accepted block has an accepted request line, and what comes after it is accepted too. */
  lemma LineOfParse(h: string, canSend: bool)
    requires IsBlock(h) && ParseHeaders(h, canSend).Passed?
    ensures var end := FindCrlf(h, 0);
            && end + 2 <= |h| - 2 && RequestLine(h, end).Passed?
            && ParseHeaders(h, canSend) == AfterLine(h, RequestLine(h, end).value, end, canSend)
  {
    BlockStarts(h);
    hide RequestLine, AfterLine, FindCrlf, IsBlock, CrlfAt;
  }

  lemma LinesOfParse(h: string, l: Line, end: nat, canSend: bool)
    requires l.second <= end && end + 2 <= |h| && AfterLine(h, l, end, canSend).Passed?
    ensures var r := HeaderLines(h, end + 2, Framing(0, -1, false, false));
            r.Passed? && AfterLine(h, l, end, canSend).value == Parsed(l, end, r.value.0, r.value.1)
  {
    hide HeaderLines, Decide;
    var r := HeaderLines(h, end + 2, Framing(0, -1, false, false));
    DecidedAs(h, l, end, r.value.0, r.value.1, canSend);
  }

  /** The texts kept of an accepted block are its request line taken apart. */
  lemma HeadIsLine(h: string, canSend: bool)
    requires IsBlock(h) && ParseHeaders(h, canSend).Passed?
    ensures var p := ParseHeaders(h, canSend).value; var end := FindCrlf(h, 0);
            && Accepts(p, h) && end + 2 <= |h| && CrlfAt(h, end)
            && var head := HeadOf(h, p);
               head.verb + " " + head.target + " " + head.protocol == h[..end] && head.headers == end + 2
  {
    hide *;
    var end := FindCrlf(h, 0);
    LineOfParse(h, canSend);
    LinesOfParse(h, RequestLine(h, end).value, end, canSend);
    BlockStarts(h);
    LineTakenApart(h, end);
    LastInside(h, end);
    HeadMeans(h, ParseHeaders(h, canSend).value);
  }

  lemma HeadMeans(h: string, p: Parsed)
    requires 2 <= p.line.first < p.line.second - 1 && p.line.second <= p.end < p.last < |h|
    ensures Accepts(p, h)
    ensures var head := HeadOf(h, p);
            && head.verb == h[..p.line.first - 1] && head.target == h[p.line.first..p.line.second - 1]
            && head.protocol == h[p.line.second..p.end] && head.headers == p.end + 2
  {}

  lemma LineTakenApart(h: string, end: nat)
    requires end <= |h| && RequestLine(h, end).Passed?
    ensures var l := RequestLine(h, end).value;
            h[..l.first - 1] + " " + h[l.first..l.second - 1] + " " + h[l.second..end] == h[..end]
  {
    hide RequestLine;
    AcceptedLineShape(h, end);
  }

  lemma LastInside(h: string, end: nat)
    requires IsBlock(h) && end + 2 <= |h| - 2 && CrlfAt(h, end) && HeaderLines(h, end + 2, Framing(0, -1, false, false)).Passed?
    ensures end < HeaderLines(h, end + 2, Framing(0, -1, false, false)).value.1 < |h|
  {
    LinesEnd(h, end + 2, Framing(0, -1, false, false));
  }

  /** The body of an accepted block is as long as its framing says, or empty. */
  lemma BodyIsFramed(h: string, canSend: bool)
    requires ParseHeaders(h, canSend).Passed?
    ensures var n := ParseHeaders(h, canSend).value.framing.length; BodyLength(h, canSend) == if n >= 0 then n else 0
  {}

  // ---------------------------------------------------------------- the end of the headers

  /** What is found is the first CRLFCRLF. */
  lemma {:induction false} FoundIsFirst(stream: string, plan: seq<nat>, used: nat)
    requires used <= |stream| && Receive(stream, plan, used).Found?
    ensures var b := Receive(stream, plan, used).boundary;
            && 4 <= b <= |stream| && stream[b - 4..b] == "\r\n\r\n"
            && forall i :: 0 <= i < b - 4 ==> !("\r\n\r\n" <= stream[i..])
    decreases |plan|
  {
    hide HasCrlf;
    var now := used + Got(stream, plan, used);
    var b := FindBoundary(stream, 0, now);
    if b != 0 {
      assert BoundaryAt(stream, b - 4);
      assert stream[b - 4..b] == "\r\n\r\n";
      forall i | 0 <= i < b - 4 ensures !("\r\n\r\n" <= stream[i..]) {
        BoundaryIs(stream, i);
      }
    } else {
      FoundIsFirst(stream, plan[1..], now);
    }
  }

  lemma BoundaryIs(s: string, i: nat)
    requires i <= |s|
    ensures BoundaryAt(s, i) <==> "\r\n\r\n" <= s[i..]
  {
    var t := "\r\n\r\n";
    assert t[0] == '\r' && t[1] == '\n' && t[2] == '\r' && t[3] == '\n';
    if t <= s[i..] {
      assert s[i..][0] == t[0] && s[i..][1] == t[1] && s[i..][2] == t[2] && s[i..][3] == t[3];
    }
    if BoundaryAt(s, i) { assert s[i..][..4] == t; }
  }
}
