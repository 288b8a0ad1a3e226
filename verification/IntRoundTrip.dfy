/**
 Printing a 64-bit integer with `sere_format_value` and reading it back with `sere_parse_int`.
 */
module IntRoundTrip {
  import opened Wrappers
  import opened Words
  import opened IntParse
  import opened IntFormat

  // ---------------------------------------------------------------- digits read back

  predicate AllDigits(d: string, base: nat) { forall i :: 0 <= i < |d| ==> IsDigit(d[i], base) }

  lemma DigitCharReads(upper: bool, k: nat)
    requires k < 16
    ensures DigitValue(DigitChar(upper, k)) == k
  {}

  lemma {:induction false} NumberOfPrefix(t: string, u: string, base: nat, n: nat)
    requires n <= |t|
    ensures NumberUpTo(t + u, base, n) == NumberUpTo(t, base, n)
    decreases n
  {
    if n > 0 {
      assert (t + u)[n - 1] == t[n - 1];
      NumberOfPrefix(t, u, base, n - 1);
    }
  }

  lemma OneMoreDigit(d: string, c: char, base: nat)
    requires AllDigits(d, base) && IsDigit(c, base)
    ensures AllDigits(d + [c], base) && Number(d + [c], base) == Number(d, base) * base + DigitValue(c)
  {
    NumberOfPrefix(d, [c], base, |d|);
  }

  lemma {:induction false} PositionalReads(m: nat, base: nat, upper: bool)
    requires 2 <= base <= 16
    ensures var d := Positional(m, base, upper);
            AllDigits(d, base) && Number(d, base) == m && (m > 0 ==> d != "")
    decreases m
  {
    if m > 0 {
      var q, r := m / base, m % base;
      assert m == q * base + r;
      HalfIsEnough(m, base);
      PositionalReads(q, base, upper);
      DigitCharReads(upper, r);
      OneMoreDigit(Positional(q, base, upper), DigitChar(upper, r), base);
    }
  }

  lemma DigitsRead(m: nat, base: nat, upper: bool)
    requires 2 <= base <= 16
    ensures var d := Digits(m, base, upper);
            AllDigits(d, base) && Number(d, base) == m && d != ""
  {
    PositionalReads(m, base, upper);
    assert NumberUpTo("0", base, 1) == NumberUpTo("0", base, 0) * base + 0;
  }

  lemma {:induction false} RepeatChar(c: char, k: nat)
    ensures |Repeat([c], k)| == k && forall i :: 0 <= i < k ==> Repeat([c], k)[i] == c
  {
    if k > 0 { RepeatChar(c, k - 1); }
  }

  lemma {:induction false} ZerosAddNothing(k: nat, d: string, base: nat, n: nat)
    requires n <= |d| && base > 0
    ensures |Repeat("0", k)| == k && NumberUpTo(Repeat("0", k) + d, base, k + n) == NumberUpTo(d, base, n)
    decreases n, k
  {
    RepeatChar('0', k);
    var t := Repeat("0", k) + d;
    if n > 0 {
      assert t[k + n - 1] == d[n - 1];
      ZerosAddNothing(k, d, base, n - 1);
    } else if k > 0 {
      assert t[k - 1] == '0';
      NumberOfPrefix(Repeat("0", k), d, base, k - 1);
      NumberOfPrefix(Repeat("0", k - 1), "0", base, k - 1);
      NumberOfPrefix(Repeat("0", k - 1), d, base, k - 1);
      ZerosAddNothing(k - 1, d, base, 0);
    }
  }

  /** Leading zeros do not change the number a run of digits stands for. */
  lemma PaddedDigitsRead(k: nat, m: nat, base: nat, upper: bool)
    requires 2 <= base <= 16
    ensures var t := Repeat("0", k) + Digits(m, base, upper);
            AllDigits(t, base) && IsNumeral(t, base) && Number(t, base) == m && t != ""
  {
    var d := Digits(m, base, upper);
    DigitsRead(m, base, upper);
    ZerosAddNothing(k, d, base, |d|);
    RepeatChar('0', k);
    var t := Repeat("0", k) + d;
    assert forall i :: 0 <= i < |t| ==> t[i] == if i < k then '0' else d[i - k];
    assert !IsDigit('_', base);
  }

  // ---------------------------------------------------------------- sign and base prefix

  /** The text of a base, or none for decimal. */
  predicate PrefixFor(p: string, base: nat) {
    || (p == "" && base == 10)
    || (|p| == 2 && p[0] == '0' &&
        ((base == 16 && (p[1] == 'x' || p[1] == 'X')) || (base == 8 && p[1] == 'o') || (base == 2 && p[1] == 'b')))
  }

  lemma PrefixReads(p: string, t: string, base: nat)
    requires PrefixFor(p, base) && AllDigits(t, base) && t != ""
    ensures Radix(p + t) == base && Significand(p + t) == t && !Signed(p + t)
  {
    var u := p + t;
    if p == "" {
      assert u == t && IsDigit(t[0], 10) && (|t| > 1 ==> IsDigit(t[1], 10));
    } else {
      assert u[0] == '0' && u[1] == p[1] && u[2..] == t;
    }
  }

  predicate AllSpaces(t: string) { forall i :: 0 <= i < |t| ==> IsSpace(t[i]) }

  predicate Solid(t: string) { t != "" && !IsSpace(t[0]) && !IsSpace(t[|t| - 1]) }

  lemma {:induction false} TrimmedFront(lead: string, t: string)
    requires AllSpaces(lead) && (t == "" || !IsSpace(t[0]))
    ensures TrimFront(lead + t) == t
    decreases |lead|
  {
    if lead == "" {
      assert lead + t == t;
    } else {
      assert (lead + t)[1..] == lead[1..] + t;
      TrimmedFront(lead[1..], t);
    }
  }

  lemma {:induction false} TrimmedBack(t: string, trail: string)
    requires AllSpaces(trail) && (t == "" || !IsSpace(t[|t| - 1]))
    ensures TrimBack(t + trail) == t
    decreases |trail|
  {
    if trail == "" {
      assert t + trail == t;
    } else {
      var n := |trail| - 1;
      assert (t + trail)[..|t| + n] == t + trail[..n];
      TrimmedBack(t, trail[..n]);
    }
  }

  lemma Trimmed(lead: string, t: string, trail: string)
    requires AllSpaces(lead) && AllSpaces(trail) && Solid(t)
    ensures TrimBack(TrimFront(lead + t + trail)) == t
  {
    assert lead + t + trail == lead + (t + trail);
    TrimmedFront(lead, t + trail);
    TrimmedBack(t, trail);
  }

  /** A sign the parser reads; the space sign is trimmed away with the padding. */
  predicate SignFor(sign: string, v: int) { if v < 0 then sign == "-" else sign == "" || sign == "+" }

  lemma SignReads(sign: string, u: string, v: int)
    requires SignFor(sign, v) && Solid(u) && !Signed(u)
    ensures Solid(sign + u) && Unsigned(sign + u) == u && Negative(sign + u) == (v < 0)
  {
    var core := sign + u;
    assert core[|core| - 1] == u[|u| - 1];
    if sign == "" {
      assert core == u;
    } else {
      assert core[0] == sign[0] && core[1..] == u;
    }
  }

  lemma PrefixIsSolid(p: string, t: string, base: nat)
    requires PrefixFor(p, base) && AllDigits(t, base) && t != ""
    ensures Solid(p + t)
  {
    var u := p + t;
    assert u[0] == (if p == "" then t[0] else '0') && u[|u| - 1] == t[|t| - 1];
    assert IsDigit(t[0], base) && IsDigit(t[|t| - 1], base);
  }

  /** Sign, base prefix and padded digits, between spaces, stand for the number. */
  lemma CoreReads(lead: string, sign: string, p: string, k: nat, v: int, base: nat, upper: bool, trail: string)
    requires AllSpaces(lead) && AllSpaces(trail) && SignFor(sign, v)
    requires 2 <= base <= 16 && PrefixFor(p, base)
    ensures Meaning(lead + (sign + (p + (Repeat("0", k) + Digits(Magnitude(v), base, upper)))) + trail) == Some(v)
  {
    hide *;
    var t := Repeat("0", k) + Digits(Magnitude(v), base, upper);
    PaddedDigitsRead(k, Magnitude(v), base, upper);
    PrefixReads(p, t, base);
    PrefixIsSolid(p, t, base);
    SignReads(sign, p + t, v);
    Trimmed(lead, sign + (p + t), trail);
    MeaningOf(lead + (sign + (p + t)) + trail, sign + (p + t), t, base, v);
  }

  lemma MeaningOf(data: string, core: string, t: string, base: nat, v: int)
    requires TrimBack(TrimFront(data)) == core && Negative(core) == (v < 0)
    requires Significand(Unsigned(core)) == t && Radix(Unsigned(core)) == base
    requires IsNumeral(t, base) && Number(t, base) == Magnitude(v)
    ensures Meaning(data) == Some(v)
  {}

  // ---------------------------------------------------------------- the round trip

  /** Decimal without grouping, or another base written with its prefix. */
  predicate Readable(s: Spec) { if BaseOf(s.kind) == 10 then !s.comma else s.alternate }

  /** Zeros between prefix and digits, or spaces around the whole; the default alignments do one or the other. */
  predicate HarmlessPadding(s: Spec) { if Alignment(s) == '=' then Fill(s) == "0" else Fill(s) == " " }

  lemma BasePrefixFor(s: Spec)
    requires Readable(s)
    ensures PrefixFor(BasePrefix(s), BaseOf(s.kind))
  {}

  lemma ZerosInside(space: string, sign: string, p: string, d: string, pad: nat)
    ensures Assembled('=', "0", space + sign + p, d, pad) == space + (sign + (p + (Repeat("0", pad) + d))) + ""
  {}

  lemma SpacesOutside(align: char, space: string, sign: string, p: string, d: string, pad: nat)
      returns (lead: string, trail: string)
    requires align != '=' && AllSpaces(space)
    ensures AllSpaces(lead) && AllSpaces(trail)
    ensures Assembled(align, " ", space + sign + p, d, pad) == lead + (sign + (p + (Repeat("0", 0) + d))) + trail
  {
    var left := if align == '>' then pad else if align == '^' then pad / 2 else 0;
    RepeatChar(' ', left);
    RepeatChar(' ', pad - left);
    lead, trail := Repeat(" ", left) + space, Repeat(" ", pad - left);
    assert Repeat("0", 0) + d == d;
    Regroup(Repeat(" ", left), space, sign, p, d, trail);
  }

  lemma Regroup(left: string, space: string, sign: string, p: string, d: string, right: string)
    ensures (left + space) + (sign + (p + d)) + right == left + (space + sign + p) + d + right
  {}

  /** A space sign belongs to the padding. */
  lemma SignParts(v: int, c: char) returns (space: string, sign: string)
    ensures space + sign == SignText(v, c) && AllSpaces(space) && SignFor(sign, v)
  {
    if SignText(v, c) == " " {
      space, sign := " ", "";
    } else {
      space, sign := "", SignText(v, c);
    }
  }

  lemma ReadableParts(v: int, s: Spec, space: string, sign: string) returns (pad: nat)
    requires !WantsFloat(s.kind) && Readable(s) && space + sign == SignText(v, s.sign)
    ensures Formatted(v, s) == Assembled(Alignment(s), Fill(s), space + sign + BasePrefix(s),
                                         Digits(Magnitude(v), BaseOf(s.kind), s.kind == 'X'), pad)
  {
    hide Digits, BasePrefix, SignText, Assembled;
    pad := Padding(s, |Prefix(v, s)| + |Body(v, s)|);
  }

  /** The formatted text in the shape the parser sees it. */
  lemma FormattedShape(v: int, s: Spec) returns (lead: string, sign: string, k: nat, trail: string)
    requires !WantsFloat(s.kind) && Readable(s) && HarmlessPadding(s)
    ensures AllSpaces(lead) && AllSpaces(trail) && SignFor(sign, v)
    ensures Formatted(v, s) ==
            lead + (sign + (BasePrefix(s) + (Repeat("0", k) + Digits(Magnitude(v), BaseOf(s.kind), s.kind == 'X')))) + trail
  {
    hide Formatted, Assembled, Digits, BasePrefix, Repeat, Fill, SignText, Alignment;
    var p, d := BasePrefix(s), Digits(Magnitude(v), BaseOf(s.kind), s.kind == 'X');
    var space;
    space, sign := SignParts(v, s.sign);
    var pad := ReadableParts(v, s, space, sign);
    if Alignment(s) == '=' {
      lead, k, trail := space, pad, "";
      ZerosInside(space, sign, p, d, pad);
    } else {
      k := 0;
      lead, trail := SpacesOutside(Alignment(s), space, sign, p, d, pad);
    }
  }

  /** Every 64-bit integer printed in a readable way is read back as itself. */
  lemma PrintedIntegersParse(v: int, s: Spec)
    requires IsInt64(v) && !WantsFloat(s.kind) && Readable(s) && HarmlessPadding(s)
    ensures Parsed(Formatted(v, s), 64, true) == Some(v)
  {
    var lead, sign, k, trail := FormattedShape(v, s);
    BasePrefixFor(s);
    hide Formatted, Repeat, Digits, BasePrefix, Meaning;
    CoreReads(lead, sign, BasePrefix(s), k, v, BaseOf(s.kind), s.kind == 'X', trail);
    PowerValues();
  }

  // ---------------------------------------------------------------- grouping is not read back

  lemma {:induction false} CommaSurvivesTrims(t: string)
    requires ',' in t
    ensures ',' in TrimFront(t) && ',' in TrimBack(t)
    decreases |t|
  {
    if IsSpace(t[0]) {
      assert t == [t[0]] + t[1..];
      CommaSurvivesTrims(t[1..]);
    }
    if IsSpace(t[|t| - 1]) {
      assert t == t[..|t| - 1] + [t[|t| - 1]];
      CommaSurvivesTrims(t[..|t| - 1]);
    }
  }

  /** A text with a comma anywhere is no integer. */
  lemma CommaIsRefused(data: string)
    requires ',' in data
    ensures Meaning(data) == None
  {
    CommaSurvivesTrims(data);
    CommaSurvivesTrims(TrimFront(data));
    var t := TrimBack(TrimFront(data));
    var u := Unsigned(t);
    if Signed(t) { assert t == [t[0]] + u; }
    var s := Significand(u);
    if Radix(u) != 10 { assert u == [u[0], u[1]] + s; }
    var i :| 0 <= i < |s| && s[i] == ',';
    assert !IsDigit(s[i], Radix(u));
  }

  lemma FourDigits(m: nat)
    requires m >= 1000
    ensures |Digits(m, 10, false)| > 3
  {
    var a, b, c := m / 10, m / 100, m / 1000;
    assert a / 10 == b && b / 10 == c && c > 0;
    assert |Positional(c, 10, false)| > 0;
    assert |Positional(b, 10, false)| > 1;
    assert |Positional(a, 10, false)| > 2;
  }

  /** So an integer that the formatter grouped is never read back, whatever its padding. */
  lemma GroupedIntegersAreRefused(v: int, s: Spec, bits: int, signed: bool)
    requires !WantsFloat(s.kind) && s.comma && BaseOf(s.kind) == 10 && Magnitude(v) >= 1000
    ensures Parsed(Formatted(v, s), bits, signed) == None
  {
    var d := Digits(Magnitude(v), 10, false);
    FourDigits(Magnitude(v));
    assert Body(v, s) == Grouped(d[..|d| - 3]) + "," + d[|d| - 3..];
    assert Body(v, s)[|Grouped(d[..|d| - 3])|] == ',';
    BodyIsInside(v, s);
    CommaIsRefused(Formatted(v, s));
  }

  lemma BodyIsInside(v: int, s: Spec)
    requires !WantsFloat(s.kind)
    ensures forall c :: c in Body(v, s) ==> c in Formatted(v, s)
  {}
}
