/**
 The texts that `sere_parse_int` accepts and what it stores for each, as a grammar.

 The grammar writes its characters out and gives a numeral the value of its digits, so that it does
 not lean on the predicates and functions by which `IntParse` reads a text.
 */
module IntTexts {
  import opened Wrappers
  import opened Words
  import opened IntParse
  import opened IntFormat
  import opened IntRoundTrip

  const LOWER: string := "0123456789abcdef"
  const UPPER: string := "0123456789ABCDEF"

  /** The character writes the digit. */
  predicate Digit(c: char, d: nat) { d < 16 && (c == LOWER[d] || c == UPPER[d]) }

  /** The text writes the digits, at least one, with single underscores between them. */
  predicate Writes(t: string, ds: seq<nat>)
    decreases |t|
  {
    var n, m := |t|, |ds|;
    && n > 0 && m > 0 && Digit(t[n - 1], ds[m - 1])
    && (if m == 1 then n == 1
        else Writes(t[..n - 1], ds[..m - 1]) || (n > 1 && t[n - 2] == '_' && Writes(t[..n - 2], ds[..m - 1])))
  }

  predicate Below(ds: seq<nat>, base: nat) { forall i :: 0 <= i < |ds| ==> ds[i] < base }

  /** The number some digits stand for, most significant first. */
  function ValueOf(ds: seq<nat>, base: nat): nat {
    if ds == [] then 0 else ValueOf(ds[..|ds| - 1], base) * base + ds[|ds| - 1]
  }

  predicate Blank(t: string) { forall i :: 0 <= i < |t| ==> t[i] in {' ', '\t', '\n', '\r'} }

  /** The prefixes and the bases they announce. */
  predicate Announces(p: string, base: nat) {
    || (p == "" && base == 10)
    || (p in {"0x", "0X"} && base == 16)
    || (p in {"0o", "0O"} && base == 8)
    || (p in {"0b", "0B"} && base == 2)
  }

  /** The parts of a text. */
  datatype Parts = Parts(lead: string, sign: string, prefix: string, numeral: string, digits: seq<nat>, base: nat, trail: string)

  predicate Grammatical(x: Parts) {
    && Blank(x.lead) && Blank(x.trail) && x.sign in {"", "+", "-"} && Announces(x.prefix, x.base)
    && Writes(x.numeral, x.digits) && Below(x.digits, x.base)
  }

  function TextOf(x: Parts): string { x.lead + (x.sign + (x.prefix + x.numeral)) + x.trail }

  /** What is stored for a sign and a magnitude in a width of that many bits, or nothing. */
  function Stored(minus: bool, n: nat, bits: int, signed: bool): Option<int> {
    if bits <= 0 || bits > 64 then None
    else if !signed then
      if minus || n >= Power(bits) then None else Some(if n < Power(63) then n else n - Power(64))
    else if minus then
      if n > Power(bits - 1) then None else Some(if n == Power(bits - 1) then 0 - Power(63) else 0 - n)
    else if n >= Power(bits - 1) then None
    else Some(n)
  }

  // ---------------------------------------------------------------- numerals

  lemma DigitIs(c: char, d: nat)
    requires d < 16
    ensures Digit(c, d) <==> DigitValue(c) == d
  {
    assert c == (c as int) as char;
  }

  lemma {:induction false} NumeralFront(t: string, base: nat, n: nat, k: nat)
    requires k <= n <= |t|
    ensures NumberUpTo(t[..n], base, k) == NumberUpTo(t, base, k)
    decreases k
  {
    if k > 0 { NumeralFront(t, base, n, k - 1); }
  }

  /** A numeral, perhaps an underscore, and one more digit. */
  lemma NumeralMore(t: string, base: nat, k: nat)
    requires 0 < k < |t| && IsNumeral(t[..k], base) && IsDigit(t[|t| - 1], base) && !IsDigit('_', base)
    requires k == |t| - 1 || (k == |t| - 2 && t[k] == '_')
    ensures IsNumeral(t, base) && Number(t, base) == Number(t[..k], base) * base + DigitValue(t[|t| - 1])
  {
    NumeralFront(t, base, k, k);
    forall i | 0 <= i < k ensures t[i] == t[..k][i] {}
    if k == |t| - 2 { assert NumberUpTo(t, base, k + 1) == NumberUpTo(t, base, k); }
  }

  lemma BelowFront(ds: seq<nat>, base: nat)
    requires Below(ds, base) && ds != []
    ensures Below(ds[..|ds| - 1], base) && ds[|ds| - 1] < base
    ensures ValueOf(ds, base) == ValueOf(ds[..|ds| - 1], base) * base + ds[|ds| - 1]
  {}

  /** A written numeral is one for the parser, of the same value. */
  lemma {:induction false} WrittenIsNumeral(t: string, ds: seq<nat>, base: nat)
    requires Writes(t, ds) && Below(ds, base) && base <= 16
    ensures IsNumeral(t, base) && Number(t, base) == ValueOf(ds, base)
    decreases |t|
  {
    var n, m := |t|, |ds|;
    DigitIs(t[n - 1], ds[m - 1]);
    BelowFront(ds, base);
    if m == 1 {
      assert ds[..0] == [] && NumberUpTo(t, base, 0) == 0;
    } else {
      hide IsNumeral, Number, Below, ValueOf, Digit, DigitValue;
      var k := if Writes(t[..n - 1], ds[..m - 1]) then n - 1 else n - 2;
      WrittenIsNumeral(t[..k], ds[..m - 1], base);
      NoDigit('_', base);
      WritesSome(t[..k], ds[..m - 1]);
      NumeralMore(t, base, k);
    }
  }

  lemma NoDigit(c: char, base: nat)
    requires c == '_'
    ensures !IsDigit(c, base)
  {}

  lemma WritesSome(t: string, ds: seq<nat>)
    requires Writes(t, ds)
    ensures |t| > 0
  {}

  /** And every numeral of the parser is written by some digits. */
  lemma {:induction false} NumeralIsWritten(t: string, base: nat) returns (ds: seq<nat>)
    requires IsNumeral(t, base) && base <= 16
    ensures Writes(t, ds) && Below(ds, base)
    decreases |t|
  {
    var n := |t|;
    var d := DigitValue(t[n - 1]);
    DigitIs(t[n - 1], d);
    if n == 1 {
      ds := [d];
    } else if t[n - 2] != '_' {
      var front := NumeralIsWritten(t[..n - 1], base);
      ds := front + [d];
      assert ds[..|ds| - 1] == front && |front| > 0;
    } else {
      assert t[n - 3] != '_';
      var front := NumeralIsWritten(t[..n - 2], base);
      ds := front + [d];
      assert ds[..|ds| - 1] == front && |front| > 0;
    }
  }

  // ---------------------------------------------------------------- sign, prefix and spaces

  lemma BlankIs(t: string)
    ensures Blank(t) <==> AllSpaces(t)
  {}

  lemma NumeralIsSolid(t: string, base: nat)
    requires IsNumeral(t, base) && base <= 16
    ensures Solid(t) && !Signed(t) && (base == 10 && |t| >= 2 ==> t[1] !in {'x', 'X', 'b', 'B', 'o', 'O'})
  {
    assert IsDigit(t[0], base) && IsDigit(t[|t| - 1], base);
  }

  lemma PrefixedReads(p: string, t: string, base: nat)
    requires Announces(p, base) && IsNumeral(t, base)
    ensures Solid(p + t) && !Signed(p + t) && Radix(p + t) == base && Significand(p + t) == t
  {
    NumeralIsSolid(t, base);
    var u := p + t;
    assert u[|u| - 1] == t[|t| - 1];
    if p == "" {
      assert u == t;
    } else {
      assert u[0] == '0' && u[1] == p[1] && u[2..] == t;
    }
  }

  lemma SignedReads(sign: string, u: string)
    requires sign in {"", "+", "-"} && Solid(u) && !Signed(u)
    ensures Solid(sign + u) && Unsigned(sign + u) == u && Negative(sign + u) == (sign == "-")
  {
    var core := sign + u;
    assert core[|core| - 1] == u[|u| - 1];
    if sign == "" { assert core == u; } else { assert core[0] == sign[0] && core[1..] == u; }
  }

  /** What the parser makes of a text of the grammar. */
  lemma MeaningIs(x: Parts)
    requires Grammatical(x)
    ensures var n := ValueOf(x.digits, x.base);
            && Meaning(TextOf(x)) == Some(if x.sign == "-" then 0 - n else n)
            && Negative(TrimBack(TrimFront(TextOf(x)))) == (x.sign == "-")
  {
    hide Writes, Below, IsNumeral, Blank, AllSpaces, Solid, Radix, Significand, Signed, Unsigned, Negative, TrimBack, TrimFront, Number, Meaning;
    var u := x.prefix + x.numeral;
    WrittenIsNumeral(x.numeral, x.digits, x.base);
    BlankIs(x.lead);
    BlankIs(x.trail);
    PrefixedReads(x.prefix, x.numeral, x.base);
    SignedReads(x.sign, u);
    Trimmed(x.lead, x.sign + u, x.trail);
    CoreMeaning(TextOf(x), x.sign + u, x.numeral, x.base, x.sign == "-");
  }

  lemma CoreMeaning(data: string, core: string, t: string, base: nat, minus: bool)
    requires TrimBack(TrimFront(data)) == core && Negative(core) == minus
    requires Significand(Unsigned(core)) == t && Radix(Unsigned(core)) == base && IsNumeral(t, base)
    ensures Meaning(data) == Some(if minus then 0 - Number(t, base) else Number(t, base))
  {}

  /**
   Every text of the grammar is stored as the number its digits stand for, when that fits the width,
   and refused otherwise; an unsigned one is refused with a minus, whatever its digits.
   */
  lemma GrammarIsParsed(x: Parts, bits: int, signed: bool)
    requires Grammatical(x)
    ensures Parsed(TextOf(x), bits, signed) == Stored(x.sign == "-", ValueOf(x.digits, x.base), bits, signed)
  {
    MeaningIs(x);
    PowerValues();
    if 0 < bits <= 64 && signed && x.sign != "-" { assert ValueOf(x.digits, x.base) != 0 - Power(bits - 1); }
    hide Meaning, TextOf, TrimBack, TrimFront, Negative, ValueOf, Grammatical, Power;
  }

  lemma {:induction false} FrontTrimmed(t: string) returns (lead: string)
    ensures AllSpaces(lead) && t == lead + TrimFront(t)
    ensures TrimFront(t) == "" || !IsSpace(TrimFront(t)[0])
    decreases |t|
  {
    if t != "" && IsSpace(t[0]) {
      var more := FrontTrimmed(t[1..]);
      lead := [t[0]] + more;
      Reassociate([t[0]], more, TrimFront(t));
    } else {
      lead := "";
    }
  }

  lemma {:induction false} BackTrimmed(t: string) returns (trail: string)
    ensures AllSpaces(trail) && t == TrimBack(t) + trail
    decreases |t|
  {
    if t != "" && IsSpace(t[|t| - 1]) {
      var more := BackTrimmed(t[..|t| - 1]);
      trail := more + [t[|t| - 1]];
      Reassociate(TrimBack(t), more, [t[|t| - 1]]);
    } else {
      trail := "";
    }
  }

  lemma PrefixOf(u: string) returns (p: string)
    requires IsNumeral(Significand(u), Radix(u))
    ensures Announces(p, Radix(u)) && u == p + Significand(u)
  {
    if Radix(u) == 10 {
      p := "";
    } else {
      p := u[..2];
      assert p == [u[0], u[1]];
    }
  }

  lemma SignOf(t: string) returns (sign: string)
    ensures sign in {"", "+", "-"} && t == sign + Unsigned(t)
  {
    sign := if Signed(t) then [t[0]] else "";
  }

  /** And only texts of the grammar are accepted. */
  lemma ParsedIsGrammar(data: string, bits: int, signed: bool) returns (x: Parts)
    requires Parsed(data, bits, signed).Some?
    ensures Grammatical(x) && TextOf(x) == data
  {
    var lead := FrontTrimmed(data);
    var trail := BackTrimmed(TrimFront(data));
    var core := TrimBack(TrimFront(data));
    var sign := SignOf(core);
    var u := Unsigned(core);
    var p := PrefixOf(u);
    var t := Significand(u);
    var ds := NumeralIsWritten(t, Radix(u));
    BlankIs(lead);
    BlankIs(trail);
    x := Parts(lead, sign, p, t, ds, Radix(u), trail);
    hide *;
    assert core == sign + (p + t);
    Reassociate(lead, core, trail);
    assert data == lead + (core + trail);
    PartsStand(x, core);
  }

  lemma Reassociate(a: string, b: string, c: string)
    ensures a + (b + c) == a + b + c
  {}

  lemma PartsStand(x: Parts, core: string)
    requires core == x.sign + (x.prefix + x.numeral)
    ensures TextOf(x) == x.lead + core + x.trail
  {}

  /** The bounds of the usual widths. */
  lemma WidthBounds()
    ensures Power(7) == 128 && Power(8) == 256 && Power(15) == 32768 && Power(16) == 65536
    ensures Power(31) == 2147483648 && Power(32) == 4294967296
    ensures Power(63) == 9223372036854775808 && Power(64) == 18446744073709551616
  {
    PowerValues();
    PowerSplits(8, 7);
    PowerSplits(8, 8);
    PowerSplits(16, 15);
    PowerSplits(16, 16);
    assert Power(7) == 128;
  }

  // ---------------------------------------------------------------- printed integers

  /** The text is the digits, each written by its character in the table. */
  predicate Spelled(t: string, ds: seq<nat>, table: string) {
    |t| == |ds| && forall i :: 0 <= i < |ds| ==> ds[i] < |table| && t[i] == table[ds[i]]
  }

  lemma SpelledMore(t: string, ds: seq<nat>, table: string, d: nat)
    requires Spelled(t, ds, table) && d < |table|
    ensures Spelled(t + [table[d]], ds + [d], table)
  {}

  lemma {:induction false} PositionalSpelled(m: nat, base: nat, upper: bool) returns (ds: seq<nat>)
    requires 2 <= base <= 16
    ensures Spelled(Positional(m, base, upper), ds, if upper then UPPER else LOWER) && Below(ds, base)
    ensures ValueOf(ds, base) == m && (m > 0 ==> |ds| > 0 && ds[0] != 0)
    decreases m
  {
    if m == 0 {
      ds := [];
    } else {
      var q, r := m / base, m % base;
      DivMod(m, base);
      HalfIsEnough(m, base);
      var front := PositionalSpelled(q, base, upper);
      ds := front + [r];
      assert ds[..|ds| - 1] == front;
      SpelledMore(Positional(q, base, upper), front, if upper then UPPER else LOWER, r);
      if q == 0 { assert Positional(0, base, upper) == ""; }
    }
  }

  /** The digits of a number: its value, without a leading zero. */
  lemma DigitsSpelled(m: nat, base: nat, upper: bool) returns (ds: seq<nat>)
    requires 2 <= base <= 16
    ensures Spelled(Digits(m, base, upper), ds, if upper then UPPER else LOWER) && Below(ds, base)
    ensures ValueOf(ds, base) == m && |ds| > 0 && (|ds| > 1 ==> ds[0] != 0)
  {
    if m == 0 {
      ds := [0];
      assert ds[..0] == [];
    } else {
      ds := PositionalSpelled(m, base, upper);
    }
  }

  function Times(f: string, n: nat): string { if n == 0 then "" else f + Times(f, n - 1) }

  lemma {:induction false} TimesMore(f: string, n: nat)
    ensures Times(f, n + 1) == Times(f, n) + f
  {
    if n == 0 {
      assert Times(f, 1) == f + Times(f, 0) == f && Times(f, 0) + f == f;
    } else {
      TimesMore(f, n - 1);
      assert f + (Times(f, n - 1) + f) == (f + Times(f, n - 1)) + f;
    }
  }

  lemma {:induction false} RepeatIs(f: string, n: nat)
    ensures Repeat(f, n) == Times(f, n)
  {
    if n > 0 {
      RepeatIs(f, n - 1);
      TimesMore(f, n - 1);
    }
  }

  /** The base a kind asks for. */
  function KindBase(kind: char): nat {
    if kind == 'b' then 2 else if kind == 'o' then 8 else if kind in {'x', 'X'} then 16 else 10
  }

  function KindPrefix(kind: char): string {
    if kind == 'b' then "0b" else if kind == 'o' then "0o" else if kind == 'x' then "0x"
    else if kind == 'X' then "0X" else ""
  }

  /** Sign and prefix. */
  function Front(v: int, s: Spec): string {
    (if v < 0 then "-" else if s.sign in {'+', ' '} then [s.sign] else "") + if s.alternate then KindPrefix(s.kind) else ""
  }

  /** Padding before, around or behind the whole or, for '=', in front of the digits. */
  function LaidOut(align: char, fill: string, front: string, body: string, n: nat): string {
    if align == '=' then front + Times(fill, n) + body
    else if align == '>' then Times(fill, n) + (front + body)
    else if align == '^' then Times(fill, n / 2) + (front + body) + Times(fill, n - n / 2)
    else (front + body) + Times(fill, n)
  }

  /** The text of an integer: its sign, the prefix of its base if asked for, its digits, and padding up to the width. */
  lemma PrintedIs(v: int, s: Spec) returns (ds: seq<nat>, digits: string)
    requires s.kind !in {'e', 'E', 'f', 'F', 'g', 'G', '%'}
    ensures Spelled(digits, ds, if s.kind == 'X' then UPPER else LOWER) && Below(ds, KindBase(s.kind))
    ensures ValueOf(ds, KindBase(s.kind)) == (if v < 0 then 0 - v else v) && |ds| > 0 && (|ds| > 1 ==> ds[0] != 0)
    ensures !WantsFloat(s.kind)
    ensures var body := if s.comma && KindBase(s.kind) == 10 then Grouped(digits) else digits;
            var length := |Front(v, s)| + |body|;
            Formatted(v, s) ==
            LaidOut(if s.align != '\0' then s.align else if s.zeroPad then '=' else '>',
                    if s.fill != "" then s.fill else if s.zeroPad then "0" else " ",
                    Front(v, s), body, if s.width > length then s.width - length else 0)
  {
    NotFloat(s.kind);
    assert BaseOf(s.kind) == KindBase(s.kind);
    digits := Digits(Magnitude(v), BaseOf(s.kind), s.kind == 'X');
    ds := DigitsSpelled(Magnitude(v), BaseOf(s.kind), s.kind == 'X');
    FrontIs(v, s);
    hide Prefix, Digits, Grouped, LaidOut, Assembled, Spelled, ValueOf, Front, BaseOf, KindBase;
    Placed(Alignment(s), Fill(s), Prefix(v, s), Body(v, s), Padding(s, |Prefix(v, s)| + |Body(v, s)|));
  }

  lemma FrontIs(v: int, s: Spec)
    ensures Prefix(v, s) == Front(v, s)
  {}

  lemma NotFloat(kind: char)
    ensures kind !in {'e', 'E', 'f', 'F', 'g', 'G', '%'} <==> !WantsFloat(kind)
  {}

  lemma Placed(align: char, fill: string, prefix: string, body: string, n: nat)
    ensures Assembled(align, fill, prefix, body, n) == LaidOut(align, fill, prefix, body, n)
  {
    RepeatIs(fill, n);
    RepeatIs(fill, n / 2);
    RepeatIs(fill, n - n / 2);
    assert Repeat(fill, 0) == "";
    hide Repeat, Times;
    Shuffle(Repeat(fill, n), prefix, body);
    Shuffle(Repeat(fill, n / 2), prefix, body);
  }

  lemma Shuffle(a: string, b: string, c: string)
    ensures a + b + c == a + (b + c) && "" + b + c == b + c && a + b + c + "" == a + (b + c)
  {}
}
