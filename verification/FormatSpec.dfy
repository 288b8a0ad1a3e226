/**
 `sere_fmt_parse` of runtime/sere_rt.c: reading the text of a format spec, and which options survive
 being written and read.
 */
module FormatSpec {
  import opened Wrappers
  import opened Words
  import opened IntParse
  import opened IntFormat
  import opened IntRoundTrip

  // ---------------------------------------------------------------- one option at a time

  predicate IsAlign(c: char) { c == '<' || c == '>' || c == '^' || c == '=' }

  predicate IsSign(c: char) { c == '+' || c == '-' || c == ' ' }

  /** The byte length of the UTF-8 sequence a lead byte starts. */
  function Utf8Length(c: char): (n: nat)
    ensures 1 <= n <= 4
  {
    var lead := c as int;
    if 0xC0 <= lead < 0xE0 then 2 else if 0xE0 <= lead < 0xF0 then 3 else if 0xF0 <= lead < 0xF8 then 4 else 1
  }

  function SkipSpaces(t: string): string { if t != "" && t[0] == ' ' then SkipSpaces(t[1..]) else t }

  /** Fill and alignment; a fill character counts only before an alignment. */
  function TakeAlign(t: string): (string, char, string) {
    if t == "" then ("", '\0', t)
    else
      var n := Utf8Length(t[0]);
      if n < |t| && IsAlign(t[n]) then (t[..n], t[n], t[n + 1..])
      else if IsAlign(t[0]) then ("", t[0], t[1..])
      else ("", '\0', t)
  }

  function TakeSign(t: string): (char, string) {
    if t != "" && IsSign(t[0]) then (t[0], t[1..]) else ('\0', t)
  }

  function TakeFlag(t: string, c: char): (bool, string) {
    if t != "" && t[0] == c then (true, t[1..]) else (false, t)
  }

  /** The length of the run of digits in front. */
  function DigitRun(t: string): (n: nat)
    ensures n <= |t|
  {
    if t != "" && IsDigit(t[0], 10) then 1 + DigitRun(t[1..]) else 0
  }

  /** The conversion of the 64-bit accumulator to the 32-bit field. */
  function ToInt32(n: nat): int {
    var m := n % 0x1_0000_0000;
    if m >= 0x8000_0000 then m - 0x1_0000_0000 else m
  }

  /** A number in front, or -1. */
  function TakeNumber(t: string): (int, string) {
    var n := DigitRun(t);
    (if n == 0 then -1 else ToInt32(Number(t[..n], 10)), t[n..])
  }

  /** A precision needs a digit after its dot. */
  function TakePrecision(t: string): Option<(int, string)> {
    if t == "" || t[0] != '.' then Some((-1, t))
    else if DigitRun(t[1..]) == 0 then None
    else Some(TakeNumber(t[1..]))
  }

  function TakeKind(t: string): (char, string) { if t == "" then ('\0', t) else (t[0], t[1..]) }

  /** What follows fill and alignment. */
  function ParseRest(fill: string, align: char, t: string): Option<Spec> {
    var (sign, t1) := TakeSign(t);
    var (alternate, t2) := TakeFlag(t1, '#');
    var (zeroPad, t3) := TakeFlag(t2, '0');
    var (width, t4) := TakeNumber(t3);
    var (comma, t5) := TakeFlag(t4, ',');
    match TakePrecision(t5)
    case None => None
    case Some((precision, t6)) =>
      var (kind, t7) := TakeKind(t6);
      if t7 == "" then Some(Spec(fill, align, sign, alternate, zeroPad, width, comma, precision, kind)) else None
  }

  /** `sere_fmt_parse`. */
  function ParseSpec(t: string): Option<Spec> {
    var (fill, align, rest) := TakeAlign(SkipSpaces(t));
    ParseRest(fill, align, rest)
  }

  // ---------------------------------------------------------------- writing a spec

  function Mark(c: char): string { if c == '\0' then "" else [c] }

  function Flag(b: bool, c: char): string { if b then [c] else "" }

  function NumberText(n: int): string { if n < 0 then "" else Digits(n, 10, false) }

  function AfterWidth(s: Spec): string {
    Flag(s.comma, ',') + (Flag(s.precision >= 0, '.') + (NumberText(s.precision) + Mark(s.kind)))
  }

  function AfterAlign(s: Spec): string {
    Mark(s.sign) + (Flag(s.alternate, '#') + (Flag(s.zeroPad, '0') + (NumberText(s.width) + AfterWidth(s))))
  }

  function Print(s: Spec): string { s.fill + (Mark(s.align) + AfterAlign(s)) }

  /** The options there are: a fill comes with an alignment and is one character of up to four bytes. */
  predicate Writable(s: Spec) {
    && (s.align == '\0' || IsAlign(s.align))
    && (s.fill == "" || (s.align != '\0' && |s.fill| == Utf8Length(s.fill[0])))
    && (s.sign == '\0' || IsSign(s.sign))
    && -1 <= s.width < 0x8000_0000
    && -1 <= s.precision < 0x8000_0000
    && (s.kind == '\0' || PlainKind(s.kind))
  }

  /** A width of zero reads as the zero flag, unless that is there already. */
  predicate Legible(s: Spec) { Writable(s) && (s.width == 0 ==> s.zeroPad) }

  /** A kind that is none of the other options. */
  predicate PlainKind(c: char) {
    !IsAlign(c) && !IsSign(c) && !IsDigit(c, 10) && c != '#' && c != ',' && c != '.' && c != '\0'
  }

  // ---------------------------------------------------------------- reading it back

  lemma {:induction false} RunOfDigits(d: string, rest: string)
    requires AllDigits(d, 10) && (rest == "" || !IsDigit(rest[0], 10))
    ensures DigitRun(d + rest) == |d|
    decreases |d|
  {
    if d == "" {
      assert d + rest == rest;
    } else {
      assert (d + rest)[1..] == d[1..] + rest;
      RunOfDigits(d[1..], rest);
    }
  }

  lemma NumberReads(n: int, rest: string)
    requires -1 <= n < 0x8000_0000 && (rest == "" || !IsDigit(rest[0], 10))
    ensures TakeNumber(NumberText(n) + rest) == (n, rest)
    ensures n >= 0 ==> DigitRun(NumberText(n) + rest) > 0
  {
    var d := NumberText(n);
    if n < 0 {
      assert d + rest == rest;
    } else {
      DigitsRead(n, 10, false);
      hide DigitRun, NumberText, NumberUpTo;
      RunOfDigits(d, rest);
      Parts(d, rest);
    }
  }

  lemma Parts(d: string, rest: string)
    ensures (d + rest)[..|d|] == d && (d + rest)[|d|..] == rest
  {}

  lemma {:induction false} FirstDigit(m: nat)
    requires m > 0
    ensures Positional(m, 10, false) != "" && Positional(m, 10, false)[0] != '0'
    decreases m
  {
    if m >= 10 {
      FirstDigit(m / 10);
    } else {
      assert m / 10 == 0 && m % 10 == m;
      assert Positional(m, 10, false) == [DigitChar(false, m)];
    }
  }

  lemma FlagReads(b: bool, c: char, rest: string)
    requires rest == "" || rest[0] != c
    ensures TakeFlag(Flag(b, c) + rest, c) == (b, rest)
  {
    if b { assert ([c] + rest)[1..] == rest; } else { assert "" + rest == rest; }
  }

  /** A text starts with the first character of its first part that is not empty. */
  lemma StartOf(a: string, b: string)
    ensures a != "" ==> (a + b)[0] == a[0]
    ensures a == "" ==> a + b == b
  {}

  /** What the text from the width on can start with. */
  lemma AfterWidthStarts(s: Spec)
    requires Legible(s)
    ensures var t := AfterWidth(s); t == "" || t[0] == ',' || t[0] == '.' || PlainKind(t[0])
    ensures var t := Flag(s.precision >= 0, '.') + (NumberText(s.precision) + Mark(s.kind));
            t == "" || t[0] == '.' || PlainKind(t[0])
  {
    var u := NumberText(s.precision) + Mark(s.kind);
    StartOf(NumberText(s.precision), Mark(s.kind));
    StartOf(Flag(s.precision >= 0, '.'), u);
    StartOf(Flag(s.comma, ','), Flag(s.precision >= 0, '.') + u);
  }

  lemma WidthStarts(s: Spec)
    requires Legible(s)
    ensures var t := NumberText(s.width) + AfterWidth(s);
            && (t == "" || IsDigit(t[0], 10) || t[0] == ',' || t[0] == '.' || PlainKind(t[0]))
            && (!s.zeroPad ==> t == "" || t[0] != '0')
  {
    AfterWidthStarts(s);
    StartOf(NumberText(s.width), AfterWidth(s));
    if s.width >= 0 { DigitsRead(s.width, 10, false); }
    if s.width > 0 { FirstDigit(s.width); }
    hide AfterWidth, Positional;
  }

  lemma PrecisionReads(s: Spec)
    requires Legible(s)
    ensures TakePrecision(Flag(s.precision >= 0, '.') + (NumberText(s.precision) + Mark(s.kind))) ==
            Some((s.precision, Mark(s.kind)))
  {
    var u := NumberText(s.precision) + Mark(s.kind);
    NumberReads(s.precision, Mark(s.kind));
    hide TakeNumber, DigitRun, Digits;
    if s.precision >= 0 {
      assert (['.'] + u)[1..] == u;
    } else {
      assert "" + u == u == Mark(s.kind);
    }
  }

  lemma KindReads(c: char)
    ensures TakeKind(Mark(c)) == (c, "")
  {
    assert [c][1..] == "";
  }

  /** The text from the width on, from the zero flag on, from the alternate flag on. */
  function FromWidth(s: Spec): string { NumberText(s.width) + AfterWidth(s) }

  function FromZero(s: Spec): string { Flag(s.zeroPad, '0') + FromWidth(s) }

  function FromAlternate(s: Spec): string { Flag(s.alternate, '#') + FromZero(s) }

  lemma AlternateStarts(s: Spec)
    requires Legible(s)
    ensures var t := FromZero(s); t == "" || (t[0] != '#' && !IsSign(t[0]))
    ensures var t := FromAlternate(s); t == "" || !IsSign(t[0])
  {
    hide AfterWidth, NumberText, Digits, Legible;
    WidthStarts(s);
    StartOf(Flag(s.zeroPad, '0'), FromWidth(s));
    StartOf(Flag(s.alternate, '#'), FromZero(s));
  }

  /** From the alternate flag on, the options read back as written. */
  lemma FlagsRead(s: Spec)
    requires Legible(s)
    ensures TakeFlag(FromAlternate(s), '#') == (s.alternate, FromZero(s))
    ensures TakeFlag(FromZero(s), '0') == (s.zeroPad, FromWidth(s))
    ensures TakeNumber(FromWidth(s)) == (s.width, AfterWidth(s))
  {
    AlternateStarts(s);
    WidthStarts(s);
    AfterWidthStarts(s);
    hide Flag, NumberText, TakeFlag, TakeNumber, AfterWidth;
    FlagReads(s.alternate, '#', FromZero(s));
    if !s.zeroPad { FlagReads(s.zeroPad, '0', FromWidth(s)); } else { FlagTaken('0', FromWidth(s)); }
    NumberReads(s.width, AfterWidth(s));
  }

  lemma FlagTaken(c: char, rest: string)
    ensures TakeFlag(Flag(true, c) + rest, c) == (true, rest)
  {
    assert ([c] + rest)[1..] == rest;
  }

  lemma TailReads(s: Spec)
    requires Legible(s)
    ensures var (comma, t) := TakeFlag(AfterWidth(s), ',');
            comma == s.comma && TakePrecision(t) == Some((s.precision, Mark(s.kind)))
    ensures TakeKind(Mark(s.kind)) == (s.kind, "")
  {
    AfterWidthStarts(s);
    KindReads(s.kind);
    PrecisionReads(s);
    hide Flag, NumberText, TakeFlag, TakePrecision, Mark;
    FlagReads(s.comma, ',', Flag(s.precision >= 0, '.') + (NumberText(s.precision) + Mark(s.kind)));
  }

  lemma SignFirst(s: Spec)
    ensures AfterAlign(s) == Mark(s.sign) + FromAlternate(s)
    ensures Legible(s) ==> s.sign == '\0' || IsSign(s.sign)
  {}

  /** From the sign on, the options read back as written. */
  lemma RestReads(s: Spec)
    requires Legible(s)
    ensures ParseRest(s.fill, s.align, AfterAlign(s)) == Some(s)
    ensures IsSign(s.sign) ==>
              AfterAlign(s) != "" && ParseRest(s.fill, s.align, AfterAlign(s)[1..]) == Some(s.(sign := '\0'))
  {
    hide Mark, Flag, NumberText, TakeFlag, TakeNumber, TakePrecision, TakeKind, TakeSign;
    hide AfterAlign, AfterWidth, FromAlternate, FromZero, FromWidth, Legible;
    AlternateStarts(s);
    SignFirst(s);
    FlagsRead(s);
    TailReads(s);
    SignReads(s.sign, FromAlternate(s));
  }

  lemma SignReads(c: char, rest: string)
    requires (c == '\0' || IsSign(c)) && (rest == "" || !IsSign(rest[0]))
    ensures TakeSign(Mark(c) + rest) == (c, rest)
    ensures IsSign(c) ==> Mark(c) + rest != "" && (Mark(c) + rest)[1..] == rest
    ensures TakeSign(rest) == ('\0', rest)
  {
    if c == '\0' { assert "" + rest == rest; } else { assert ([c] + rest)[1..] == rest; }
  }

  // ---------------------------------------------------------------- the whole text

  predicate NoAligns(t: string) { forall i :: 0 <= i < |t| ==> !IsAlign(t[i]) }

  lemma {:induction false} NoAlignsInNumber(n: int)
    ensures NoAligns(NumberText(n))
  {
    if n >= 0 {
      DigitsRead(n, 10, false);
      var d := NumberText(n);
      forall i | 0 <= i < |d| ensures !IsAlign(d[i]) { assert IsDigit(d[i], 10); }
    }
  }

  lemma NoAlignsAfter(s: Spec)
    requires Legible(s)
    ensures NoAligns(AfterAlign(s))
  {
    hide NumberText, NoAligns;
    NoAlignsInNumber(s.width);
    NoAlignsInNumber(s.precision);
    NoAlignsInMark(s.kind);
    NoAlignsInMark(s.sign);
    NoAlignsInFlag(s.comma, ',');
    NoAlignsInFlag(s.precision >= 0, '.');
    NoAlignsInFlag(s.alternate, '#');
    NoAlignsInFlag(s.zeroPad, '0');
    var t6 := NumberText(s.precision) + Mark(s.kind);
    NoAlignsConcat(NumberText(s.precision), Mark(s.kind));
    NoAlignsConcat(Flag(s.precision >= 0, '.'), t6);
    NoAlignsConcat(Flag(s.comma, ','), Flag(s.precision >= 0, '.') + t6);
    NoAlignsConcat(NumberText(s.width), AfterWidth(s));
    NoAlignsConcat(Flag(s.zeroPad, '0'), FromWidth(s));
    NoAlignsConcat(Flag(s.alternate, '#'), FromZero(s));
    NoAlignsConcat(Mark(s.sign), FromAlternate(s));
  }

  lemma NoAlignsConcat(a: string, b: string)
    requires NoAligns(a) && NoAligns(b)
    ensures NoAligns(a + b)
  {}

  lemma NoAlignsInMark(c: char)
    requires !IsAlign(c)
    ensures NoAligns(Mark(c))
  {}

  lemma NoAlignsInFlag(b: bool, c: char)
    requires !IsAlign(c)
    ensures NoAligns(Flag(b, c))
  {}

  lemma PastSpaces(t: string)
    requires t == "" || t[0] != ' '
    ensures SkipSpaces(t) == t
  {}

  lemma AlignReads(s: Spec)
    requires Legible(s) && s.align != '\0' && s.fill != " "
    ensures SkipSpaces(Print(s)) == Print(s) && TakeAlign(Print(s)) == (s.fill, s.align, AfterAlign(s))
  {
    var rest := AfterAlign(s);
    NoAlignsAfter(s);
    hide AfterAlign, SkipSpaces, TakeAlign, NoAligns;
    if s.fill == "" {
      AlignTaken(s.align, rest);
      assert Print(s) == [s.align] + rest;
    } else {
      FillTaken(s.fill, s.align, rest);
    }
    PastSpaces(Print(s));
  }

  lemma AlignTaken(c: char, rest: string)
    requires IsAlign(c) && NoAligns(rest)
    ensures TakeAlign([c] + rest) == ("", c, rest)
  {
    var t := [c] + rest;
    assert t[1..] == rest && Utf8Length(c) == 1;
    if 1 < |t| { assert t[1] == rest[0]; }
  }

  lemma FillTaken(fill: string, c: char, rest: string)
    requires IsAlign(c) && fill != "" && |fill| == Utf8Length(fill[0]) && fill != " "
    ensures TakeAlign(fill + ([c] + rest)) == (fill, c, rest) && (fill + ([c] + rest))[0] != ' '
  {
    var t, n := fill + ([c] + rest), |fill|;
    assert t[0] == fill[0] && t[n] == c && t[..n] == fill && t[n + 1..] == rest;
    assert fill[0] == ' ' ==> fill == " ";
  }

  /** A space in front of the alignment is skipped like any other leading space. */
  lemma SpaceFillSkipped(s: Spec)
    requires Legible(s) && s.align != '\0' && s.fill == " "
    ensures ParseSpec(Print(s)) == ParseSpec(Print(s.(fill := "")))
  {
    var rest := AfterAlign(s);
    var u := Print(s.(fill := ""));
    assert AfterAlign(s.(fill := "")) == rest;
    hide AfterAlign, ParseRest, TakeAlign;
    assert u == [s.align] + rest;
    assert Print(s) == [' '] + u;
    assert ([' '] + u)[1..] == u;
  }

  /** What is left of the options after writing and reading, but for a width of zero. */
  function Settled(s: Spec): Spec {
    if s.align == '\0' then (if s.sign == ' ' then s.(sign := '\0') else s)
    else if s.fill == " " then s.(fill := "")
    else s
  }

  lemma LegibleParses(s: Spec)
    requires Legible(s)
    ensures ParseSpec(Print(s)) == Some(Settled(s))
  {
    if s.align != '\0' {
      var u := if s.fill == " " then s.(fill := "") else s;
      AlignedParses(u);
      if s.fill == " " { SpaceFillSkipped(s); }
    } else {
      UnalignedParses(s);
    }
  }

  lemma AlignedParses(s: Spec)
    requires Legible(s) && s.align != '\0' && s.fill != " "
    ensures ParseSpec(Print(s)) == Some(s)
  {
    hide Print, AfterAlign, ParseRest, TakeAlign, SkipSpaces, Legible;
    RestReads(s);
    AlignReads(s);
  }

  lemma UnalignedParses(s: Spec)
    requires Legible(s) && s.align == '\0'
    ensures ParseSpec(Print(s)) == Some(if s.sign == ' ' then s.(sign := '\0') else s)
  {
    RestReads(s);
    var rest := AfterAlign(s);
    NoAlignsAfter(s);
    AlternateStarts(s);
    SignReads(s.sign, FromAlternate(s));
    SignFirst(s);
    assert Print(s) == rest by { assert "" + ("" + rest) == rest; }
    hide Print, AfterAlign, ParseRest, FromAlternate;
    StartOf(Mark(s.sign), FromAlternate(s));
    if s.sign == ' ' {
      PastSpaces(rest[1..]);
      assert NoAligns(rest[1..]);
    } else {
      PastSpaces(rest);
    }
  }

  /** What is left of the options after writing and reading. */
  function Kept(s: Spec): Spec {
    Settled(if s.width == 0 && !s.zeroPad then s.(zeroPad := true, width := -1) else s)
  }

  lemma ZeroWidthPrints(s: Spec)
    requires s.width == 0 && !s.zeroPad
    ensures Print(s) == Print(s.(zeroPad := true, width := -1))
  {
    var u := s.(zeroPad := true, width := -1);
    var t := AfterWidth(s);
    assert AfterWidth(u) == t && NumberText(0) == "0" && NumberText(-1) == "";
    hide AfterWidth, NumberText;
    assert "" + ("0" + t) == "0" + ("" + t);
  }

  /**
   A written spec reads back as it was, but for three things: a space fill is lost, a space sign
   without an alignment is lost, and a width of zero without the zero flag becomes that flag.
   */
  lemma PrintedSpecParses(s: Spec)
    requires Writable(s)
    ensures ParseSpec(Print(s)) == Some(Kept(s))
  {
    hide Print, ParseSpec, Settled;
    if s.width == 0 && !s.zeroPad {
      ZeroWidthPrints(s);
      LegibleParses(s.(zeroPad := true, width := -1));
    } else {
      LegibleParses(s);
    }
  }

  /** So exactly those options survive that ask for none of the three. */
  lemma SpecSurvives(s: Spec)
    requires Writable(s)
    ensures ParseSpec(Print(s)) == Some(s) <==>
            s.fill != " " && !(s.align == '\0' && s.sign == ' ') && !(s.width == 0 && !s.zeroPad)
  {
    hide Print, ParseSpec;
    PrintedSpecParses(s);
  }

  // ---------------------------------------------------------------- the characters of a spec

  const PLAIN := Spec("", '\0', '\0', false, false, -1, false, -1, '\0')

  /** What each option looks like on its own. */
  lemma AlignAlone(c: char)
    requires c in {'<', '>', '^', '='}
    ensures ParseSpec([c]) == Some(PLAIN.(align := c))
  {
    hide ParseSpec;
    OneReads(PLAIN.(align := c), [c]);
  }

  lemma SignAlone(c: char)
    requires c in {'+', '-'}
    ensures ParseSpec([c]) == Some(PLAIN.(sign := c))
  {
    hide ParseSpec;
    OneReads(PLAIN.(sign := c), [c]);
  }

  lemma KindAlone(c: char)
    requires c in {'d', 'b', 'o', 'x', 'X', 'e', 'E', 'f', 'F', 'g', 'G', '%', 's', 'c'}
    ensures ParseSpec([c]) == Some(PLAIN.(kind := c))
  {
    hide ParseSpec;
    OneReads(PLAIN.(kind := c), [c]);
  }

  lemma FlagsAlone()
    ensures ParseSpec("#") == Some(PLAIN.(alternate := true)) && ParseSpec("0") == Some(PLAIN.(zeroPad := true))
    ensures ParseSpec(",") == Some(PLAIN.(comma := true)) && ParseSpec(".") == None && ParseSpec("") == Some(PLAIN)
  {
    EmptyReads();
    DotIsRefused();
    hide ParseSpec;
    OneReads(PLAIN.(alternate := true), "#");
    OneReads(PLAIN.(zeroPad := true), "0");
    OneReads(PLAIN.(comma := true), ",");
  }

  lemma EmptyReads()
    ensures ParseSpec("") == Some(PLAIN)
  {
    PrintedSpecParses(PLAIN);
    assert Print(PLAIN) == "";
  }

  lemma OneReads(s: Spec, t: string)
    requires Writable(s) && |t| == 1 && s.fill == "" && s.width == -1 && s.precision == -1 && s.sign != ' '
    requires Mark(s.align) + (Mark(s.sign) + (Flag(s.alternate, '#') + (Flag(s.zeroPad, '0') + (Flag(s.comma, ',') + Mark(s.kind))))) == t
    ensures ParseSpec(t) == Some(s)
  {
    PrintedSpecParses(s);
    assert NumberText(-1) == "" && Flag(false, '.') == "";
    hide Mark, Flag, NumberText, ParseSpec;
    assert Print(s) == t;
  }

  lemma DotIsRefused()
    ensures ParseSpec(".") == None
  {
    var t := ".";
    assert SkipSpaces(t) == t && TakeAlign(t) == ("", '\0', t) && TakeSign(t) == ('\0', t);
    assert TakeFlag(t, '#') == (false, t) && TakeFlag(t, '0') == (false, t) && TakeFlag(t, ',') == (false, t);
    assert TakeNumber(t) == (-1, t) by { assert t[0..] == t; }
    assert TakePrecision(t) == None by { assert t[1..] == ""; }
    hide SkipSpaces, TakeAlign, TakeSign, TakeFlag, TakeNumber, TakePrecision;
  }

  /** A fill of one to four bytes, by its lead byte, and an alignment. */
  lemma FillReads(fill: string, c: char)
    requires c in {'<', '>', '^', '='} && fill != "" && fill != " "
    requires var lead := fill[0] as int;
             |fill| == (if lead < 0xC0 then 1 else if lead < 0xE0 then 2 else if lead < 0xF0 then 3 else if lead < 0xF8 then 4 else 1)
    ensures ParseSpec(fill + [c]) == Some(PLAIN.(fill := fill, align := c))
  {
    var s := PLAIN.(fill := fill, align := c);
    PrintedSpecParses(s);
    assert AfterAlign(s) == "";
    hide AfterAlign;
    assert Print(s) == fill + [c];
  }

  /** All options together, in their order. */
  lemma FullSpecReads(f: char, c: char, g: char, width: nat, precision: nat, k: char)
    requires f as int < 0x80 && f != ' ' && c in {'<', '>', '^', '='} && g in {'+', '-', ' '}
    requires width < 0x8000_0000 && precision < 0x8000_0000 && k in {'d', 'b', 'o', 'x', 'X', 'e', 'f', 'g', '%', 's'}
    ensures ParseSpec([f, c, g, '#', '0'] + Digits(width, 10, false) + [',', '.'] + Digits(precision, 10, false) + [k]) ==
            Some(Spec([f], c, g, true, true, width, true, precision, k))
  {
    var s := Spec([f], c, g, true, true, width, true, precision, k);
    PrintedSpecParses(s);
    hide ParseSpec, Digits;
    var w, p := Digits(width, 10, false), Digits(precision, 10, false);
    FullText(f, c, g, w, p, k);
  }

  lemma FullText(f: char, c: char, g: char, w: string, p: string, k: char)
    ensures [f] + ([c] + ([g] + (['#'] + (['0'] + (w + ([','] + (['.'] + (p + [k])))))))) == [f, c, g, '#', '0'] + w + [',', '.'] + p + [k]
  {}

  /** " d" asks for a space before positive numbers and reads as a plain "d". */
  lemma SpaceSignIsLost(t: string)
    requires t == " d"
    ensures ParseSpec(t) == Some(Spec("", '\0', '\0', false, false, -1, false, -1, 'd'))
  {
    var s := Spec("", '\0', ' ', false, false, -1, false, -1, 'd');
    PrintedSpecParses(s);
    assert Print(s) == t;
  }

  /** Left alignment with spaces, the zero flag and a width of five. */
  const SPACED := Spec(" ", '<', '\0', false, true, 5, false, -1, 'd')

  /** " <05d" asks for spaces behind the number and pads with zeros: seven is printed as seventy thousand. */
  lemma SpaceFillIsLost()
    ensures Print(SPACED) == " <05d" && ParseSpec(" <05d") == Some(SPACED.(fill := ""))
    ensures Formatted(7, SPACED) == "7    " && Formatted(7, SPACED.(fill := "")) == "70000"
  {
    hide Print, ParseSpec, Formatted, Utf8Length;
    SpacedPrints();
    assert Utf8Length(' ') == 1 by { SpaceIsOneByte(); }
    PrintedSpecParses(SPACED);
    SevenPadded();
  }

  lemma SpaceIsOneByte()
    ensures Utf8Length(' ') == 1
  {}

  lemma OneDigit(n: nat)
    requires 0 < n < 10
    ensures Digits(n, 10, false) == [DigitChar(false, n)]
  {
    assert Positional(n, 10, false) == Positional(0, 10, false) + [DigitChar(false, n)];
  }

  lemma SpacedPrints()
    ensures Print(SPACED) == " <05d"
  {
    hide Digits;
    OneDigit(5);
    assert AfterWidth(SPACED) == "d";
    hide AfterWidth;
    assert AfterAlign(SPACED) == "05d";
  }

  lemma SevenPadded()
    ensures Formatted(7, SPACED) == "7    " && Formatted(7, SPACED.(fill := "")) == "70000"
  {
    hide Digits, Repeat;
    OneDigit(7);
    FourTimes(" ");
    FourTimes("0");
    assert Body(7, SPACED) == "7" && Body(7, SPACED.(fill := "")) == "7";
    assert Prefix(7, SPACED) == "" && Prefix(7, SPACED.(fill := "")) == "";
    hide Body, Prefix;
  }

  lemma FourTimes(fill: string)
    requires |fill| == 1
    ensures Repeat(fill, 0) == "" && Repeat(fill, 4) == [fill[0], fill[0], fill[0], fill[0]]
  {
    assert Repeat(fill, 1) == fill && Repeat(fill, 2) == [fill[0], fill[0]] && Repeat(fill, 3) == [fill[0], fill[0], fill[0]];
  }

  // ---------------------------------------------------------------- the loops

  method SkipLoop(t: string) returns (index: nat)
    ensures index <= |t| && t[index..] == SkipSpaces(t)
  {
    index := 0;
    assert t[0..] == t;
    while index < |t| && t[index] == ' '
      invariant 0 <= index <= |t| && SkipSpaces(t[index..]) == SkipSpaces(t)
    {
      assert t[index..][0] == t[index] && t[index..][1..] == t[index + 1..];
      index := index + 1;
    }
    PastSpaces(t[index..]);
  }

  /** The two digit loops; the accumulator is converted when any digit was read. */
  method NumberLoop(t: string, start: nat) returns (value: int, index: nat)
    requires start <= |t|
    ensures start <= index <= |t| && TakeNumber(t[start..]) == (value, t[index..])
    ensures index > start <==> DigitRun(t[start..]) > 0
  {
    hide DigitRun, NumberUpTo, TakeNumber, ToInt32;
    var number := 0;
    index := start;
    NothingYet(t[start..]);
    ghost var u := t[start..];
    while index < |t| && IsDigit(t[index], 10)
      invariant start <= index <= |t| && DigitRun(u) == index - start + DigitRun(t[index..])
      invariant number == NumberUpTo(u, 10, index - start)
    {
      DigitPassed(t, start, index);
      number := number * 10 + DigitValue(t[index]);
      index := index + 1;
    }
    value := if index > start then ToInt32(number) else -1;
    DigitsEnd(t, start, index);
  }

  lemma NothingYet(u: string)
    ensures NumberUpTo(u, 10, 0) == 0
  {}

  /** One digit more of the run that starts at `start`. */
  lemma DigitPassed(t: string, start: nat, index: nat)
    requires start <= index < |t| && IsDigit(t[index], 10)
    ensures DigitRun(t[index..]) == 1 + DigitRun(t[index + 1..])
    ensures NumberUpTo(t[start..], 10, index - start + 1) ==
            NumberUpTo(t[start..], 10, index - start) * 10 + DigitValue(t[index])
  {
    assert t[index..][0] == t[index] && t[index..][1..] == t[index + 1..] && t[start..][index - start] == t[index];
  }

  /** The end of the run: its digits are the number read. */
  lemma DigitsEnd(t: string, start: nat, index: nat)
    requires start <= index <= |t| && (index < |t| ==> !IsDigit(t[index], 10))
    requires DigitRun(t[start..]) == index - start + DigitRun(t[index..])
    ensures DigitRun(t[start..]) == index - start
    ensures TakeNumber(t[start..]) ==
            (if index > start then ToInt32(NumberUpTo(t[start..], 10, index - start)) else -1, t[index..])
  {
    var u, n := t[start..], index - start;
    if index < |t| { assert t[index..][0] == t[index]; }
    assert u == u[..n] + u[n..] && u[n..] == t[index..];
    NumberOfPrefix(u[..n], u[n..], 10, n);
  }

  /** The alignment step; a fill is at most four bytes, so it always fits its field. */
  method AlignStep(t: string, start: nat) returns (fill: string, align: char, index: nat)
    requires start <= |t|
    ensures start <= index <= |t| && TakeAlign(t[start..]) == (fill, align, t[index..])
  {
    fill, align, index := "", '\0', start;
    if index < |t| {
      var fillLen := Utf8Length(t[index]);
      Suffix(t, start, fillLen);
      Suffix(t, start, 0);
      if index + fillLen < |t| && IsAlign(t[index + fillLen]) {
        fill := t[index..index + fillLen];
        align := t[index + fillLen];
        index := index + fillLen + 1;
      } else if IsAlign(t[index]) {
        align := t[index];
        index := index + 1;
      }
    }
  }

  lemma Suffix(t: string, i: nat, n: nat)
    requires i < |t|
    ensures i + n < |t| ==> t[i..][n] == t[i + n] && t[i..][..n] == t[i..i + n] && t[i..][n + 1..] == t[i + n + 1..]
  {}

  method ParseSpecText(t: string) returns (r: Option<Spec>)
    ensures r == ParseSpec(t)
  {
    hide SkipSpaces, DigitRun, TakeNumber;
    var index := SkipLoop(t);
    var fill, align;
    fill, align, index := AlignStep(t, index);
    r := ParseOptions(t, index, fill, align);
  }

  method ParseOptions(t: string, start: nat, fill: string, align: char) returns (r: Option<Spec>)
    requires start <= |t|
    ensures r == ParseRest(fill, align, t[start..])
  {
    hide DigitRun, TakeNumber;
    var index := start;
    var sign := '\0';
    ghost var t0 := t[index..];
    if index < |t| && (t[index] == '+' || t[index] == '-' || t[index] == ' ') {
      sign := t[index];
      index := index + 1;
    }
    assert TakeSign(t0) == (sign, t[index..]);
    var alternate, zeroPad;
    alternate, index := FlagStep(t, index, '#');
    zeroPad, index := FlagStep(t, index, '0');
    var width;
    width, index := NumberLoop(t, index);
    hide TakeSign, TakeFlag;
    r := ParseTail(t, index, Spec(fill, align, sign, alternate, zeroPad, width, false, -1, '\0'));
  }

  method FlagStep(t: string, start: nat, c: char) returns (b: bool, index: nat)
    requires start <= |t|
    ensures start <= index <= |t| && TakeFlag(t[start..], c) == (b, t[index..])
  {
    b, index := false, start;
    if index < |t| && t[index] == c {
      b, index := true, index + 1;
    }
  }

  /** What `ParseRest` does from the comma on. */
  function Tail(s: Spec, t: string): Option<Spec> {
    var (comma, t5) := TakeFlag(t, ',');
    match TakePrecision(t5)
    case None => None
    case Some((precision, t6)) =>
      var (kind, t7) := TakeKind(t6);
      if t7 == "" then Some(s.(comma := comma, precision := precision, kind := kind)) else None
  }

  method ParseTail(t: string, start: nat, s: Spec) returns (r: Option<Spec>)
    requires start <= |t|
    ensures r == Tail(s, t[start..])
  {
    hide DigitRun, TakeNumber;
    var comma, index := FlagStep(t, start, ',');
    ghost var t5 := t[index..];
    var precision := -1;
    if index < |t| && t[index] == '.' {
      assert t5[0] == '.' && t5[1..] == t[index + 1..];
      var digits := index + 1;
      precision, index := NumberLoop(t, digits);
      if index == digits { return None; }
    }
    assert TakePrecision(t5) == Some((precision, t[index..]));
    var kind := '\0';
    if index < |t| {
      kind := t[index];
      index := index + 1;
    }
    if index == |t| { r := Some(s.(comma := comma, precision := precision, kind := kind)); } else { r := None; }
  }
}
