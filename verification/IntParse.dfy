/**
 `sere_parse_int` of runtime/sere_rt.c: what the text of an integer means, and the loops that read it.
 */
module IntParse {
  import opened Wrappers
  import opened Words

  // ---------------------------------------------------------------- numerals

  predicate IsSpace(c: char) { c == ' ' || c == '\t' || c == '\n' || c == '\r' }

  function DigitValue(c: char): int {
    if '0' <= c <= '9' then c as int - '0' as int
    else if 'a' <= c <= 'f' then c as int - 'a' as int + 10
    else if 'A' <= c <= 'F' then c as int - 'A' as int + 10
    else -1
  }

  predicate IsDigit(c: char, base: nat) { 0 <= DigitValue(c) < base }

  /** Digits of the base, with single underscores only between them, as far as position `n`. */
  predicate NumeralUpTo(t: string, base: nat, n: nat)
    requires n <= |t|
  {
    && (forall i :: 0 <= i < n ==> t[i] == '_' || IsDigit(t[i], base))
    && (n > 0 ==> t[0] != '_')
    && (forall i :: 0 < i < n && t[i] == '_' ==> t[i - 1] != '_')
  }

  predicate IsNumeral(t: string, base: nat) {
    t != "" && NumeralUpTo(t, base, |t|) && t[|t| - 1] != '_'
  }

  /** The number the first `n` characters stand for. */
  function NumberUpTo(t: string, base: nat, n: nat): nat
    requires n <= |t|
  {
    if n == 0 then 0
    else if !IsDigit(t[n - 1], base) then NumberUpTo(t, base, n - 1)
    else NumberUpTo(t, base, n - 1) * base + DigitValue(t[n - 1])
  }

  function Number(t: string, base: nat): nat { NumberUpTo(t, base, |t|) }

  // ---------------------------------------------------------------- the meaning of a text

  function TrimFront(t: string): string { if t != "" && IsSpace(t[0]) then TrimFront(t[1..]) else t }

  function TrimBack(t: string): string {
    if t != "" && IsSpace(t[|t| - 1]) then TrimBack(t[..|t| - 1]) else t
  }

  predicate Signed(t: string) { t != "" && (t[0] == '+' || t[0] == '-') }

  function Unsigned(t: string): string { if Signed(t) then t[1..] else t }

  function Radix(t: string): (base: nat)
    ensures base != 10 ==> |t| >= 2
  {
    if |t| >= 2 && t[0] == '0' then
      if t[1] == 'x' || t[1] == 'X' then 16
      else if t[1] == 'b' || t[1] == 'B' then 2
      else if t[1] == 'o' || t[1] == 'O' then 8
      else 10
    else 10
  }

  function Significand(t: string): string { if Radix(t) == 10 then t else t[2..] }

  predicate Negative(t: string) { t != "" && t[0] == '-' }

  /** The integer a text stands for, of any size. */
  function Meaning(data: string): Option<int> {
    var t := TrimBack(TrimFront(data));
    var u := Unsigned(t);
    if !IsNumeral(Significand(u), Radix(u)) then None
    else if Negative(t) then Some(0 - Number(Significand(u), Radix(u)))
    else Some(Number(Significand(u), Radix(u)))
  }

  predicate Fits(v: int, bits: int, signed: bool)
    requires 0 < bits
  {
    if signed then 0 - Power(bits - 1) <= v < Power(bits - 1) else 0 <= v < Power(bits)
  }

  /** The 64-bit pattern of an unsigned value, read as a signed one. */
  function Reinterpreted(v: nat): int { if v >= Power(63) then v - Power(64) else v }

  /** `sere_parse_int`: the minimum of every signed width is stored as the 64-bit minimum. */
  function Parsed(data: string, bits: int, signed: bool): Option<int> {
    if bits <= 0 || bits > 64 then None
    else
      match Meaning(data)
      case None => None
      case Some(v) =>
        if !signed && Negative(TrimBack(TrimFront(data))) then None
        else if !Fits(v, bits, signed) then None
        else if !signed then Some(Reinterpreted(v))
        else if v == 0 - Power(bits - 1) then Some(INT64_MIN)
        else Some(v)
  }

  lemma PowerValues()
    ensures Power(63) == 0x8000_0000_0000_0000 && Power(64) == UINT64_MAX + 1
  {
    PowerSplits(0, 32);
    PowerSplits(32, 31);
    PowerSplits(32, 32);
    assert Power(8) == 256;
    PowerSplits(8, 8);
    PowerSplits(16, 8);
    PowerSplits(24, 7);
    PowerSplits(24, 8);
  }

  /** A signed text is stored as its value, but for the minimum of a width below 64. */
  lemma SignedParseIsExact(data: string, bits: int)
    requires 0 < bits <= 64 && Parsed(data, bits, true).Some?
    ensures Meaning(data).Some? && Fits(Meaning(data).value, bits, true)
    ensures Parsed(data, bits, true) == Meaning(data) <==>
            bits == 64 || Meaning(data).value != 0 - Power(bits - 1)
  {
    PowerValues();
    if bits < 64 {
      PowerGrows(bits - 1, 62);
      assert Power(63) == 2 * Power(62);
    }
  }

  /** "-128" fits eight bits, but what is stored for it is the 64-bit minimum. */
  lemma NarrowMinimumIsWidened(data: string)
    requires data == "-128"
    ensures Meaning(data) == Some(-128) && Parsed(data, 8, true) == Some(INT64_MIN)
  {
    var u := Unsigned(data);
    assert u == "128" && TrimBack(TrimFront(data)) == data;
    assert NumberUpTo(u, 10, 1) == 1 && NumberUpTo(u, 10, 2) == 12 && NumberUpTo(u, 10, 3) == 128;
  }

  // ---------------------------------------------------------------- the loops

  /** The overflow guard of the digit loop refuses exactly the steps that leave 64 bits. */
  lemma GuardIsExact(value: nat, digit: nat, base: nat)
    requires digit < base && base <= 16
    ensures value > (UINT64_MAX - digit) / base <==> value * base + digit > UINT64_MAX
  {
    var q := (UINT64_MAX - digit) / base;
    if value > q {
      assert value * base >= (q + 1) * base;
    } else {
      assert value * base <= q * base;
    }
  }

  lemma TimesGrows(v: nat, base: nat)
    requires base > 0
    ensures v <= v * base
  {}

  lemma {:induction false} NumberGrows(t: string, base: nat, m: nat, n: nat)
    requires m <= n <= |t| && base > 0
    ensures NumberUpTo(t, base, m) <= NumberUpTo(t, base, n)
    decreases n
  {
    if m < n {
      NumberGrows(t, base, m, n - 1);
      TimesGrows(NumberUpTo(t, base, n - 1), base);
    }
  }

  /** `sere_strip_span`. */
  method Strip(data: string) returns (first: nat, size: nat)
    ensures first + size <= |data| && data[first..first + size] == TrimBack(TrimFront(data))
  {
    first, size := 0, |data|;
    assert data[0..] == data;
    while size > 0 && IsSpace(data[first])
      invariant first + size == |data| && TrimFront(data[first..]) == TrimFront(data)
    {
      assert data[first..][0] == data[first] && data[first..][1..] == data[first + 1..];
      first := first + 1;
      size := size - 1;
    }
    assert data[first..first + size] == data[first..] == TrimFront(data);
    while size > 0 && IsSpace(data[first + size - 1])
      invariant first + size <= |data| && TrimBack(data[first..first + size]) == TrimBack(TrimFront(data))
    {
      var t := data[first..first + size];
      assert t[size - 1] == data[first + size - 1] && t[..size - 1] == data[first..first + (size - 1)];
      size := size - 1;
    }
  }

  lemma NumeralStep(t: string, base: nat, n: nat)
    requires n < |t| && NumeralUpTo(t, base, n)
    ensures NumeralUpTo(t, base, n + 1) <==>
            if t[n] == '_' then n > 0 && t[n - 1] != '_' else IsDigit(t[n], base)
    ensures !NumeralUpTo(t, base, n + 1) ==> !NumeralUpTo(t, base, |t|)
  {}

  /** The digit loop. */
  method ReadDigits(t: string, base: nat) returns (r: Option<nat>)
    requires base == 2 || base == 8 || base == 10 || base == 16
    ensures r == if IsNumeral(t, base) && Number(t, base) <= UINT64_MAX then Some(Number(t, base)) else None
  {
    var value := 0;
    var sawDigit, lastUnderscore := false, false;
    var index := 0;
    assert NumeralUpTo(t, base, 0);
    hide NumeralUpTo, DigitValue;
    while index < |t|
      invariant 0 <= index <= |t| && NumeralUpTo(t, base, index)
      invariant value == NumberUpTo(t, base, index) <= UINT64_MAX
      invariant sawDigit == (index > 0) && lastUnderscore == (index > 0 && t[index - 1] == '_')
    {
      var character := t[index];
      NumeralStep(t, base, index);
      assert !IsDigit('_', base);
      if character == '_' {
        if !sawDigit || lastUnderscore { return None; }
        lastUnderscore := true;
        index := index + 1;
        continue;
      }
      var digit := DigitValue(character);
      if digit < 0 || digit >= base { return None; }
      GuardIsExact(value, digit, base);
      if value > (UINT64_MAX - digit) / base {
        NumberGrows(t, base, index + 1, |t|);
        return None;
      }
      value := value * base + digit;
      sawDigit := true;
      lastUnderscore := false;
      index := index + 1;
    }
    if !sawDigit || lastUnderscore { return None; }
    r := Some(value);
  }

  /** `sere_parse_int`, for a text and an output pointer that are not null. */
  method ParseInt(data: string, bits: int, signed: bool) returns (r: Option<int>)
    ensures r == Parsed(data, bits, signed)
  {
    if bits <= 0 || bits > 64 { return None; }
    var first, size := Strip(data);
    var t := data[first..first + size];
    if size == 0 { return None; }
    var negative := false;
    var u := t;
    if t[0] == '+' || t[0] == '-' {
      negative := t[0] == '-';
      u := t[1..];
    }
    if !signed && negative { return None; }
    var base := 10;
    var s := u;
    if |u| >= 2 && u[0] == '0' {
      var prefix := u[1];
      if prefix == 'x' || prefix == 'X' {
        base, s := 16, u[2..];
      } else if prefix == 'b' || prefix == 'B' {
        base, s := 2, u[2..];
      } else if prefix == 'o' || prefix == 'O' {
        base, s := 8, u[2..];
      }
    }
    assert u == Unsigned(t) && base == Radix(u) && s == Significand(u);
    var digits := ReadDigits(s, base);
    r := Store(data, t, digits, negative, bits, signed);
  }

  /** The range checks at the end. */
  method Store(ghost data: string, ghost t: string, digits: Option<nat>, negative: bool, bits: nat, signed: bool)
      returns (r: Option<int>)
    requires 0 < bits <= 64 && t == TrimBack(TrimFront(data)) && negative == Negative(t) && (signed || !negative)
    requires var u := Unsigned(t);
             var n := Number(Significand(u), Radix(u));
             digits == if IsNumeral(Significand(u), Radix(u)) && n <= UINT64_MAX then Some(n) else None
    ensures r == Parsed(data, bits, signed)
  {
    PowerValues();
    PowerGrows(bits, 64);
    hide Number, NumeralUpTo, Radix, Significand, Unsigned, Negative, TrimBack, TrimFront;
    if digits.None? { return None; }
    var value := digits.value;
    if signed {
      var limit := Power(bits - 1);
      if negative {
        if value > limit { return None; }
        return Some(if value == limit then INT64_MIN else -value);
      }
      if value >= limit { return None; }
      return Some(value);
    }
    if value > Power(bits) - 1 { return None; }
    r := Some(Reinterpreted(value));
  }
}
