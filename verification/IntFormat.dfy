/**
 The integer path of `sere_format_value` in runtime/sere_rt.c: digits, grouping, prefix and padding.
 */
module IntFormat {
  import opened Words
  import opened IntParse

  /** `SereFmtSpec`; a zero character means the option is absent. */
  datatype Spec = Spec(fill: string, align: char, sign: char, alternate: bool, zeroPad: bool,
                       width: int, comma: bool, precision: int, kind: char)

  function Magnitude(v: int): nat { if v < 0 then -v else v }

  // ---------------------------------------------------------------- digits

  function BaseOf(kind: char): nat {
    if kind == 'b' then 2 else if kind == 'o' then 8 else if kind == 'x' || kind == 'X' then 16 else 10
  }

  /** The kinds for which an integer is converted and printed as a floating-point number. */
  predicate WantsFloat(kind: char) { kind in "eEfFgG%" }

  function DigitChar(upper: bool, d: nat): char
    requires d < 16
  {
    (if upper then "0123456789ABCDEF" else "0123456789abcdef")[d]
  }

  /** The digits of a number, most significant first; none for zero. */
  function Positional(m: nat, base: nat, upper: bool): string
    requires 2 <= base <= 16
    decreases m
  {
    if m == 0 then "" else Positional(m / base, base, upper) + [DigitChar(upper, m % base)]
  }

  function Digits(m: nat, base: nat, upper: bool): string
    requires 2 <= base <= 16
  {
    if m == 0 then "0" else Positional(m, base, upper)
  }

  /** The same digits as the division loop produces them, least significant first. */
  function Reversed(s: string): string { if s == "" then "" else [s[|s| - 1]] + Reversed(s[..|s| - 1]) }

  // ---------------------------------------------------------------- grouping

  /** Commas before every third digit from the right. */
  function Grouped(d: string): string {
    if |d| <= 3 then d else Grouped(d[..|d| - 3]) + "," + d[|d| - 3..]
  }

  function WithoutCommas(s: string): string {
    if s == "" then "" else (if s[0] == ',' then "" else [s[0]]) + WithoutCommas(s[1..])
  }

  /** The text after the first `w` digits, as the writing loop builds it. */
  function GroupedUpTo(d: string, w: nat): string
    requires w <= |d|
  {
    if w == 0 then ""
    else GroupedUpTo(d, w - 1) + (if Separates(|d|, w - 1) then "," else "") + [d[w - 1]]
  }

  /** A comma comes before the digit that leaves a multiple of three still to write, unless it is the first. */
  predicate Separates(n: nat, written: nat) { written > 0 && (n - written) % 3 == 0 }

  lemma {:induction false} GroupedUpToPrefix(d: string, w: nat)
    requires w + 3 <= |d|
    ensures GroupedUpTo(d, w) == GroupedUpTo(d[..|d| - 3], w)
  {
    if w > 0 { GroupedUpToPrefix(d, w - 1); }
  }

  lemma PlainStep(d: string, w: nat)
    requires w < |d| && !Separates(|d|, w)
    ensures GroupedUpTo(d, w + 1) == GroupedUpTo(d, w) + [d[w]]
  {}

  lemma CommaStep(d: string, w: nat)
    requires w < |d| && Separates(|d|, w)
    ensures GroupedUpTo(d, w + 1) == (GroupedUpTo(d, w) + ",") + [d[w]]
  {}

  lemma FirstGroup(d: string)
    requires |d| <= 3
    ensures GroupedUpTo(d, |d|) == d
  {
    hide Separates;
    NothingWritten(d);
    hide GroupedUpTo;
    NoComma(|d|);
    if |d| > 0 { PlainStep(d, 0); assert GroupedUpTo(d, 1) == d[..1]; }
    if |d| > 1 { PlainStep(d, 1); assert GroupedUpTo(d, 2) == d[..2]; }
    if |d| > 2 { PlainStep(d, 2); assert GroupedUpTo(d, 3) == d[..3]; }
    assert d[..|d|] == d;
  }

  lemma NothingWritten(d: string)
    ensures GroupedUpTo(d, 0) == "" == d[..0]
  {}

  lemma NoComma(n: nat)
    requires n <= 3
    ensures forall w :: 0 <= w < n ==> !Separates(n, w)
  {}

  lemma LastGroupWritten(d: string)
    requires |d| > 3
    ensures GroupedUpTo(d, |d|) == GroupedUpTo(d, |d| - 3) + "," + d[|d| - 3..]
  {
    var n := |d|;
    assert Separates(n, n - 3) && !Separates(n, n - 2) && !Separates(n, n - 1);
    hide GroupedUpTo, Separates;
    CommaStep(d, n - 3);
    PlainStep(d, n - 2);
    PlainStep(d, n - 1);
    Three(GroupedUpTo(d, n - 3) + ",", d);
  }

  lemma Three(x: string, d: string)
    requires |d| >= 3
    ensures x + [d[|d| - 3]] + [d[|d| - 2]] + [d[|d| - 1]] == x + d[|d| - 3..]
  {}

  lemma {:induction false} LoopGroups(d: string)
    ensures GroupedUpTo(d, |d|) == Grouped(d)
    decreases |d|
  {
    hide GroupedUpTo;
    if |d| <= 3 {
      FirstGroup(d);
    } else {
      LoopGroups(d[..|d| - 3]);
      GroupedUpToPrefix(d, |d| - 3);
      LastGroupWritten(d);
    }
  }

  lemma {:induction false} WithoutCommasConcat(a: string, b: string)
    ensures WithoutCommas(a + b) == WithoutCommas(a) + WithoutCommas(b)
    decreases |a|
  {
    if a == "" {
      assert a + b == b;
    } else {
      assert (a + b)[1..] == a[1..] + b;
      WithoutCommasConcat(a[1..], b);
    }
  }

  lemma {:induction false} NothingToRemove(d: string)
    requires ',' !in d
    ensures WithoutCommas(d) == d
  {
    if d != "" { NothingToRemove(d[1..]); }
  }

  /** Removing the commas of a grouped number leaves its digits. */
  lemma {:induction false} GroupingIsReversible(d: string)
    requires ',' !in d
    ensures WithoutCommas(Grouped(d)) == d
    decreases |d|
  {
    if |d| <= 3 {
      NothingToRemove(d);
    } else {
      GroupingIsReversible(d[..|d| - 3]);
      LastGroup(Grouped(d[..|d| - 3]), d[|d| - 3..]);
      assert d == d[..|d| - 3] + d[|d| - 3..];
    }
  }

  lemma LastGroup(g: string, last: string)
    requires ',' !in last
    ensures WithoutCommas(g + "," + last) == WithoutCommas(g) + last
  {
    assert WithoutCommas(",") == "";
    hide WithoutCommas;
    NothingToRemove(last);
    WithoutCommasConcat(g + ",", last);
    WithoutCommasConcat(g, ",");
  }

  /** Counted from the right, the commas stand at every fourth place and nowhere else. */
  lemma FourFurther(i: nat)
    requires i >= 4
    ensures i % 4 == (i - 4) % 4
  {}

  lemma {:induction false} GroupsAreThreeLong(d: string, i: nat)
    requires ',' !in d && i < |Grouped(d)|
    ensures Grouped(d)[|Grouped(d)| - 1 - i] == ',' <==> i % 4 == 3
    ensures d != "" ==> Grouped(d)[0] != ','
    decreases |d|
  {
    if |d| > 3 {
      var front, g := d[..|d| - 3], Grouped(d[..|d| - 3]);
      assert |Grouped(d)| == |g| + 4;
      GroupedIsEmpty(front);
      if i < 4 {
        GroupsAreThreeLong(front, 0);
      } else {
        GroupsAreThreeLong(front, i - 4);
        assert Grouped(d)[|Grouped(d)| - 1 - i] == g[|g| - 1 - (i - 4)];
        FourFurther(i);
      }
    }
  }

  lemma {:induction false} GroupedIsEmpty(d: string)
    ensures |Grouped(d)| == 0 <==> d == ""
    decreases |d|
  {}

  // ---------------------------------------------------------------- the text of an integer

  function SignText(v: int, sign: char): string {
    if v < 0 then "-" else if sign == '+' then "+" else if sign == ' ' then " " else ""
  }

  function BasePrefix(s: Spec): string {
    var base := BaseOf(s.kind);
    if !s.alternate then ""
    else if base == 16 then (if s.kind == 'X' then "0X" else "0x")
    else if base == 8 then "0o"
    else if base == 2 then "0b"
    else ""
  }

  function Prefix(v: int, s: Spec): string { SignText(v, s.sign) + BasePrefix(s) }

  function Body(v: int, s: Spec): string {
    var d := Digits(Magnitude(v), BaseOf(s.kind), s.kind == 'X');
    if s.comma && BaseOf(s.kind) == 10 then Grouped(d) else d
  }

  function Repeat(fill: string, n: nat): string { if n == 0 then "" else Repeat(fill, n - 1) + fill }

  function Padding(s: Spec, content: nat): nat {
    if s.width > 0 && s.width > content then s.width - content else 0
  }

  function Alignment(s: Spec): char { if s.align != '\0' then s.align else if s.zeroPad then '=' else '>' }

  function Fill(s: Spec): string { if s.fill != "" then s.fill else if s.zeroPad then "0" else " " }

  function Assembled(align: char, fill: string, prefix: string, body: string, pad: nat): string {
    var left := if align == '>' then pad else if align == '^' then pad / 2 else 0;
    if align == '=' then prefix + Repeat(fill, pad) + body
    else Repeat(fill, left) + prefix + body + Repeat(fill, pad - left)
  }

  /** The integer path of `sere_format_value`. */
  function Formatted(v: int, s: Spec): string
    requires !WantsFloat(s.kind)
  {
    Assembled(Alignment(s), Fill(s), Prefix(v, s), Body(v, s), Padding(s, |Prefix(v, s)| + |Body(v, s)|))
  }

  lemma {:induction false} RepeatLength(fill: string, n: nat)
    requires |fill| == 1
    ensures |Repeat(fill, n)| == n
  {
    if n > 0 { RepeatLength(fill, n - 1); }
  }

  /** Every alignment fills exactly the width, and centring puts at most one more fill on the right. */
  lemma FormattedWidth(v: int, s: Spec)
    requires |s.fill| <= 1 && !WantsFloat(s.kind)
    ensures var content := |Prefix(v, s)| + |Body(v, s)|;
            |Formatted(v, s)| == if s.width > content then s.width else content
    ensures Alignment(s) == '^' ==>
              exists left: nat, right: nat :: left <= right <= left + 1 &&
                Formatted(v, s) == Repeat(Fill(s), left) + Prefix(v, s) + Body(v, s) + Repeat(Fill(s), right)
  {
    hide Prefix, Body, Repeat;
    var pad := Padding(s, |Prefix(v, s)| + |Body(v, s)|);
    RepeatLength(Fill(s), pad);
    RepeatLength(Fill(s), pad / 2);
    RepeatLength(Fill(s), pad - pad / 2);
    RepeatLength(Fill(s), 0);
  }

  // ---------------------------------------------------------------- the loops

  /** `n` digits are enough for a number below two to the `n`. */
  lemma {:induction false} PositionalLength(m: nat, base: nat, upper: bool, n: nat)
    requires 2 <= base <= 16 && m < Power(n)
    ensures |Positional(m, base, upper)| <= n
    decreases n
  {
    if m > 0 {
      HalfIsEnough(m, base);
      PositionalLength(m / base, base, upper, n - 1);
    }
  }

  lemma HalfIsEnough(m: nat, base: nat)
    requires 2 <= base && m > 0
    ensures m / base <= m / 2
  {
    var q := m / base;
    assert m == base * q + m % base;
    Scaled(q, base);
  }

  lemma Scaled(q: nat, base: nat)
    requires 2 <= base
    ensures 2 * q <= base * q
  {
    assert base * q == 2 * q + (base - 2) * q;
  }

  lemma SixtyFourDigits(m: nat, base: nat, upper: bool)
    requires 2 <= base <= 16 && m <= 0x8000_0000_0000_0000
    ensures |Digits(m, base, upper)| <= 64
  {
    PowerValues();
    PositionalLength(m, base, upper, 64);
  }

  /** The division loop fills the 72-byte buffer from the least significant digit. */
  method FillDigits(m: nat, base: nat, upper: bool, digits: array<char>) returns (count: nat)
    requires 2 <= base <= 16 && m <= 0x8000_0000_0000_0000 && digits.Length == 72
    modifies digits
    ensures count <= 64 && digits[..count] == Reversed(Digits(m, base, upper))
  {
    SixtyFourDigits(m, base, upper);
    if m == 0 {
      digits[0] := '0';
      count := 1;
      assert digits[..1] == "0" && Reversed("") == "";
    } else {
      count := Divide(m, base, upper, digits);
    }
  }

  method Divide(m: nat, base: nat, upper: bool, digits: array<char>) returns (count: nat)
    requires 2 <= base <= 16 && |Positional(m, base, upper)| <= 64 && digits.Length == 72
    modifies digits
    ensures count <= 64 && digits[..count] == Reversed(Positional(m, base, upper))
  {
    ghost var whole, done := Positional(m, base, upper), "";
    assert whole == whole + done && digits[..0] == Reversed(done);
    hide Reversed, Positional, LastDigit, Rest;
    count := 0;
    var magnitude: nat := m;
    while magnitude > 0
      invariant count == |done| && |whole| <= 64
      invariant whole == Positional(magnitude, base, upper) + done
      invariant digits[..count] == Reversed(done)
    {
      NextDigit(magnitude, base, upper, done);
      ghost var digit := LastDigit(magnitude, base, upper);
      ReversedPush(digit, done);
      done := [digit] + done;
      magnitude := StoreDigit(digits, count, magnitude, base, upper);
      count := count + 1;
    }
    PositionalOfZero(base, upper);
    assert whole == done;
  }

  function LastDigit(m: nat, base: nat, upper: bool): char
    requires 2 <= base <= 16
  {
    DigitChar(upper, m % base)
  }

  function Rest(m: nat, base: nat): (q: nat)
    requires 2 <= base
    ensures m > 0 ==> q < m
  {
    if m > 0 then
      HalfIsEnough(m, base);
      m / base
    else 0
  }

  method StoreDigit(digits: array<char>, count: nat, m: nat, base: nat, upper: bool) returns (rest: nat)
    requires count < digits.Length && 2 <= base <= 16
    modifies digits
    ensures digits[..count + 1] == old(digits[..count]) + [LastDigit(m, base, upper)] && rest == Rest(m, base)
  {
    var alphabet := if upper then "0123456789ABCDEF" else "0123456789abcdef";
    digits[count] := alphabet[m % base];
    rest := m / base;
    assert m == 0 ==> rest == 0;
  }

  lemma PositionalOfZero(base: nat, upper: bool)
    requires 2 <= base <= 16
    ensures Positional(0, base, upper) == ""
  {}

  lemma NextDigit(m: nat, base: nat, upper: bool, done: string)
    requires 2 <= base <= 16 && m > 0
    ensures Positional(m, base, upper) + done ==
            Positional(Rest(m, base), base, upper) + ([LastDigit(m, base, upper)] + done)
    ensures |Positional(m, base, upper)| > 0
  {
    hide Positional, Rest, LastDigit;
    PositionalStep(m, base, upper);
    var front, last := Positional(Rest(m, base), base, upper), LastDigit(m, base, upper);
    assert (front + [last]) + done == front + ([last] + done);
  }

  lemma PositionalStep(m: nat, base: nat, upper: bool)
    requires 2 <= base <= 16 && m > 0
    ensures Positional(m, base, upper) == Positional(Rest(m, base), base, upper) + [LastDigit(m, base, upper)]
  {}

  lemma {:induction false} ReversedPush(c: char, s: string)
    ensures Reversed([c] + s) == Reversed(s) + [c]
    decreases |s|
  {
    if s == "" {
      assert [c] + s == [c];
    } else {
      var t := [c] + s;
      assert t[..|t| - 1] == [c] + s[..|s| - 1];
      ReversedPush(c, s[..|s| - 1]);
    }
  }

  lemma {:induction false} ReversedAt(s: string, i: nat)
    requires i < |s|
    ensures |Reversed(s)| == |s| && Reversed(s)[i] == s[|s| - 1 - i]
    decreases |s|
  {
    if i > 0 {
      ReversedAt(s[..|s| - 1], i - 1);
    } else if |s| > 1 {
      ReversedAt(s[..|s| - 1], 0);
    }
  }

  /** The text after `w` digits, grouped or plain. */
  function WrittenUpTo(comma: bool, d: string, w: nat): string
    requires w <= |d|
  {
    if comma then GroupedUpTo(d, w) else d[..w]
  }

  lemma WriteNext(comma: bool, d: string, w: nat)
    requires w < |d|
    ensures var t := WrittenUpTo(comma, d, w);
            WrittenUpTo(comma, d, w + 1) == (if comma && Separates(|d|, w) then t + "," else t) + [d[w]]
  {}

  lemma WriteEnds(comma: bool, d: string)
    ensures WrittenUpTo(comma, d, 0) == ""
    ensures WrittenUpTo(comma, d, |d|) == if comma then Grouped(d) else d
  {
    LoopGroups(d);
  }

  /** The writing loop, from the most significant digit down. */
  method WriteDigits(digits: array<char>, count: nat, comma: bool, ghost d: string) returns (body: string)
    requires count <= digits.Length && digits[..count] == Reversed(d) && |d| == count
    ensures body == if comma then Grouped(d) else d
  {
    WriteEnds(comma, d);
    hide WrittenUpTo, Separates, Grouped, Reversed;
    body := "";
    var written := 0;
    while written < count
      invariant 0 <= written <= count && body == WrittenUpTo(comma, d, written)
    {
      ReversedAt(d, count - written - 1);
      WriteNext(comma, d, written);
      var separate := NeedsComma(count, written);
      if comma && separate {
        body := body + ",";
      }
      body := body + [digits[count - written - 1]];
      written := written + 1;
    }
  }

  method NeedsComma(count: nat, written: nat) returns (r: bool)
    requires written <= count
    ensures r == Separates(count, written)
  {
    r := written > 0 && (count - written) % 3 == 0;
  }

  /** `sere_fmt_int_body`; the magnitude of the 64-bit minimum is reached without overflow. */
  method FmtIntBody(v: int, s: Spec) returns (prefix: string, body: string)
    requires IsInt64(v)
    ensures prefix == Prefix(v, s) && body == Body(v, s)
  {
    var base := BaseOf(s.kind);
    var upper := s.kind == 'X';
    prefix := "";
    var magnitude := 0;
    if v < 0 {
      prefix := prefix + "-";
      var flipped := -(v + 1);
      assert IsInt64(flipped);
      magnitude := flipped + 1;
    } else {
      if s.sign == '+' {
        prefix := prefix + "+";
      } else if s.sign == ' ' {
        prefix := prefix + " ";
      }
      magnitude := v;
    }
    if s.alternate {
      if base == 16 {
        prefix := prefix + (if upper then "0X" else "0x");
      } else if base == 8 {
        prefix := prefix + "0o";
      } else if base == 2 {
        prefix := prefix + "0b";
      }
    }
    var digits := new char[72];
    var count := FillDigits(magnitude, base, upper, digits);
    ghost var d := Digits(magnitude, base, upper);
    if d != "" { ReversedAt(d, 0); }
    body := WriteDigits(digits, count, s.comma && base == 10, d);
  }

  /** `sere_fmt_buf_repeat`. */
  method PushRepeat(out: string, fill: string, count: int) returns (r: string)
    requires fill != ""
    ensures r == out + Repeat(fill, if count < 0 then 0 else count)
  {
    r := out;
    if count <= 0 { return; }
    var index := 0;
    while index < count
      invariant 0 <= index <= count && r == out + Repeat(fill, index)
    {
      r := r + fill;
      index := index + 1;
    }
  }

  /** The padding at the end of `sere_format_value`. */
  method Assemble(align: char, fill: string, prefix: string, body: string, pad: nat) returns (out: string)
    requires fill != ""
    ensures out == Assembled(align, fill, prefix, body, pad)
  {
    hide Repeat;
    var left := if align == '>' then pad else if align == '^' then pad / 2 else 0;
    out := "";
    if align == '=' {
      out := out + prefix;
      assert out == prefix;
      out := PushRepeat(out, fill, pad);
      out := out + body;
    } else {
      out := PushRepeat(out, fill, left);
      assert out == Repeat(fill, left);
      out := out + prefix;
      out := out + body;
      out := PushRepeat(out, fill, pad - left);
    }
  }

  method FormatInt(v: int, s: Spec) returns (out: string)
    requires IsInt64(v) && !WantsFloat(s.kind)
    ensures out == Formatted(v, s)
  {
    var prefix, body := FmtIntBody(v, s);
    var content := |prefix| + |body|;
    var pad := if s.width > 0 then s.width - content else 0;
    if pad < 0 { pad := 0; }
    var align := s.align;
    if align == '\0' { align := if s.zeroPad then '=' else '>'; }
    var fill := if s.fill != "" then s.fill else " ";
    if s.zeroPad && s.fill == "" { fill := "0"; }
    hide Assembled, Prefix, Body;
    out := Assemble(align, fill, prefix, body, pad);
  }
}
