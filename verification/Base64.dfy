/**
 Base64 of runtime/sere_sys.c against section 4 of RFC 4648, both read as strings of bits.

 Shifts and masks of non-negative words are written as division and remainder by powers of two,
 and `|` of words with no common bit as a sum.
 */
module Base64 {
  import opened Words

  type Bits = seq<bool>

  const CAPITALS: string := "ABCDEFGHIJKLMNOPQRSTUVWXYZ"
  const SMALLS: string := "abcdefghijklmnopqrstuvwxyz"
  const DIGITS: string := "0123456789"

  /** `kB64`. */
  const ALPHABET: string := CAPITALS + SMALLS + DIGITS + "+/"

  function Letter(v: nat): char
    requires v < 64
  {
    ALPHABET[v]
  }

  // ---------------------------------------------------------------- numbers as bits

  /** The low `w` bits of a number, most significant first. */
  function LowBits(n: nat, w: nat): (b: Bits)
    ensures |b| == w
  {
    if w == 0 then [] else LowBits(n / 2, w - 1) + [n % 2 == 1]
  }

  function Value(b: Bits): nat {
    if b == [] then 0 else 2 * Value(b[..|b| - 1]) + (if b[|b| - 1] then 1 else 0)
  }

  /** `n >> k`. */
  function Shifted(n: nat, k: nat): nat { if k == 0 then n else Shifted(n / 2, k - 1) }

  lemma {:induction false} BitsSplit(n: nat, w: nat, k: nat)
    ensures LowBits(n, w + k) == LowBits(Shifted(n, k), w) + LowBits(n, k)
    decreases k
  {
    if k == 0 {
      assert LowBits(n, w) + [] == LowBits(n, w);
    } else {
      BitsSplit(n / 2, w, k - 1);
    }
  }

  /** Only a number's remainder decides its low bits. */
  lemma {:induction false} BitsIgnoreHigh(n: nat, q: nat, k: nat)
    ensures LowBits(n + q * Power(k), k) == LowBits(n, k)
    decreases k
  {
    if k > 0 {
      TwiceTimes(q, Power(k - 1));
      BitsIgnoreHigh(n / 2, q, k - 1);
    }
  }

  lemma TwiceTimes(q: nat, d: nat)
    ensures q * (2 * d) == 2 * (q * d)
  {}

  lemma HalfRemainder(n: nat, d: nat)
    requires d > 0
    ensures 2 * (n / 2 % d) + n % 2 == n % (2 * d)
  {
    var q, r := n / 2 / d, n / 2 % d;
    DivMod(n / 2, d);
    TwiceTimes(q, d);
    DivModUnique(n, 2 * d, q, 2 * r + n % 2);
  }

  /** The low bits of a number are the binary digits of its remainder. */
  lemma {:induction false} ValueOfLowBits(n: nat, w: nat)
    ensures Value(LowBits(n, w)) == n % Power(w)
  {
    if w > 0 {
      ValueOfLowBits(n / 2, w - 1);
      ValueStep(n, w - 1);
      HalfRemainder(n, Power(w - 1));
    }
  }

  lemma ValueStep(n: nat, w: nat)
    ensures Value(LowBits(n, w + 1)) == 2 * Value(LowBits(n / 2, w)) + n % 2
  {
    var b := LowBits(n, w + 1);
    assert b[..|b| - 1] == LowBits(n / 2, w);
  }

  // ---------------------------------------------------------------- the reference encoding

  function ByteBits(data: seq<Byte>): (b: Bits)
    ensures |b| == 8 * |data|
  {
    if data == [] then [] else LowBits(data[0], 8) + ByteBits(data[1..])
  }

  /** Groups of six bits as numbers, the last one filled up with zero bits. */
  function Sextets(b: Bits): seq<nat>
    decreases |b|
  {
    if b == [] then []
    else if |b| < 6 then [Value(b + seq(6 - |b|, _ => false))]
    else [Value(b[..6])] + Sextets(b[6..])
  }

  function Letters(v: seq<nat>): (t: string)
    ensures |t| == |v|
  {
    if v == [] then "" else [Letter(v[0] % 64)] + Letters(v[1..])
  }

  /** Fills a text up to a multiple of four characters. */
  function Equals(n: nat): string { if n % 4 == 2 then "==" else if n % 4 == 3 then "=" else "" }

  /** Section 4 of RFC 4648. */
  function Encoded(data: seq<Byte>): string {
    var t := Letters(Sextets(ByteBits(data)));
    t + Equals(|t|)
  }

  // ---------------------------------------------------------------- the reference decoding

  function LetterValue(c: char): int {
    if 'A' <= c <= 'Z' then c as int - 'A' as int
    else if 'a' <= c <= 'z' then c as int - 'a' as int + 26
    else if '0' <= c <= '9' then c as int - '0' as int + 52
    else if c == '+' then 62
    else if c == '/' then 63
    else -1
  }

  /** The bits of the letters of a text; every other character is passed over. */
  function TextBits(t: string): Bits {
    if t == "" then []
    else (if LetterValue(t[0]) < 0 then [] else LowBits(LetterValue(t[0]), 6)) + TextBits(t[1..])
  }

  /** Groups of eight bits as bytes; a last incomplete group is dropped. */
  function Octets(b: Bits): seq<Byte>
    decreases |b|
  {
    if |b| < 8 then [] else [Value(b[..8]) % 256] + Octets(b[8..])
  }

  function Decoded(t: string): seq<Byte> { Octets(TextBits(t)) }

  // ---------------------------------------------------------------- the round trip

  lemma LetterOf(v: nat)
    ensures LetterValue(Letter(v % 64)) == v % 64
  {
    TableParts(v % 64);
  }

  lemma TableParts(k: nat)
    requires k < 64
    ensures Letter(k) == if k < 26 then 'A' + k as char
                         else if k < 52 then 'a' + (k - 26) as char
                         else if k < 62 then '0' + (k - 52) as char
                         else if k == 62 then '+' else '/'
  {
    hide CAPITALS, SMALLS, DIGITS;
    CapitalAt(0);
    SmallAt(0);
    DigitAt(0);
    if k < 26 {
      CapitalAt(k);
    } else if k < 52 {
      SmallAt(k - 26);
    } else if k < 62 {
      DigitAt(k - 52);
    }
  }

  lemma CapitalAt(k: nat)
    requires k < 26
    ensures |CAPITALS| == 26 && CAPITALS[k] == 'A' + k as char
  {}

  lemma SmallAt(k: nat)
    requires k < 26
    ensures |SMALLS| == 26 && SMALLS[k] == 'a' + k as char
  {}

  lemma DigitAt(k: nat)
    requires k < 10
    ensures |DIGITS| == 10 && DIGITS[k] == '0' + k as char
  {}

  lemma {:induction false} TextBitsConcat(a: string, b: string)
    ensures TextBits(a + b) == TextBits(a) + TextBits(b)
    decreases |a|
  {
    if a == "" {
      assert a + b == b;
    } else {
      assert (a + b)[1..] == a[1..] + b;
      TextBitsConcat(a[1..], b);
    }
  }

  lemma {:induction false} PassedOver(junk: string)
    requires forall i :: 0 <= i < |junk| ==> LetterValue(junk[i]) < 0
    ensures TextBits(junk) == []
  {
    if junk != "" { PassedOver(junk[1..]); }
  }

  /** Characters outside the alphabet change nothing, wherever they stand. */
  lemma DecodingIgnoresOthers(a: string, junk: string, b: string)
    requires forall i :: 0 <= i < |junk| ==> LetterValue(junk[i]) < 0
    ensures Decoded(a + junk + b) == Decoded(a + b)
  {
    PassedOver(junk);
    TextBitsConcat(a + junk, b);
    TextBitsConcat(a, junk);
    TextBitsConcat(a, b);
    assert TextBits(a) + [] == TextBits(a);
  }

  lemma {:induction false} BitsOfValue(b: Bits)
    ensures LowBits(Value(b), |b|) == b
    decreases |b|
  {
    if b != [] {
      BitsOfValue(b[..|b| - 1]);
      assert Value(b) / 2 == Value(b[..|b| - 1]);
      assert b == b[..|b| - 1] + [b[|b| - 1]];
    }
  }

  lemma {:induction false} ValueBound(b: Bits)
    ensures Value(b) < Power(|b|)
    decreases |b|
  {
    if b != [] { ValueBound(b[..|b| - 1]); }
  }

  lemma ValueUnder64(b: Bits)
    requires |b| == 6
    ensures Value(b) < 64
  {
    ValueBound(b);
    assert Power(6) == 64;
  }

  /** The first six bits, filled up with zero bits, and the bits after them. */
  function FirstGroup(b: Bits): (g: Bits)
    ensures |g| == 6
  {
    if |b| < 6 then b + seq(6 - |b|, _ => false) else b[..6]
  }

  function AfterGroup(b: Bits): Bits { if |b| < 6 then [] else b[6..] }

  lemma GroupReads(b: Bits)
    requires b != []
    ensures TextBits(Letters(Sextets(b))) == FirstGroup(b) + TextBits(Letters(Sextets(AfterGroup(b))))
    ensures |Sextets(b)| == 1 + |Sextets(AfterGroup(b))|
  {
    hide *;
    var g, rest := FirstGroup(b), Sextets(AfterGroup(b));
    ValueUnder64(g);
    LetterOf(Value(g));
    BitsOfValue(g);
    SextetsStep(b);
    FirstLetter(Value(g), rest);
  }

  lemma SextetsStep(b: Bits)
    requires b != []
    ensures Sextets(b) == [Value(FirstGroup(b))] + Sextets(AfterGroup(b))
  {}

  lemma FirstLetter(v: nat, rest: seq<nat>)
    requires v < 64 && LetterValue(Letter(v)) == v
    ensures TextBits(Letters([v] + rest)) == LowBits(v, 6) + TextBits(Letters(rest))
  {
    hide Letter, LetterValue, LowBits;
    assert ([v] + rest)[1..] == rest;
    assert Letters([v] + rest) == [Letter(v)] + Letters(rest);
    assert ([Letter(v)] + Letters(rest))[1..] == Letters(rest);
  }

  /** Reading the letters of some bits gives the bits back, with zero bits up to a multiple of six. */
  lemma {:induction false} LettersRead(b: Bits)
    ensures var r := TextBits(Letters(Sextets(b)));
            |b| <= |r| < |b| + 6 && r[..|b|] == b && 6 * |Sextets(b)| == |r|
    decreases |b|
  {
    if b != [] {
      LettersRead(AfterGroup(b));
      GroupReads(b);
      hide TextBits, Letters, Sextets;
      assert |b| >= 6 ==> b == FirstGroup(b) + AfterGroup(b);
    }
  }

  lemma FirstOctet(g: Bits, rest: Bits)
    requires |g| == 8
    ensures Octets(g + rest) == [Value(g) % 256] + Octets(rest)
  {
    assert (g + rest)[..8] == g && (g + rest)[8..] == rest;
  }

  lemma FirstByte(data: seq<Byte>, extra: Bits)
    requires data != []
    ensures Octets(ByteBits(data) + extra) == [data[0]] + Octets(ByteBits(data[1..]) + extra)
  {
    hide Octets, Value, Power;
    var g, more := LowBits(data[0], 8), ByteBits(data[1..]);
    assert ByteBits(data) == g + more;
    FirstOctet(g, more + extra);
    assert (g + more) + extra == g + (more + extra);
    ByteValue(data[0]);
  }

  lemma ByteValue(b: Byte)
    ensures Value(LowBits(b, 8)) % 256 == b
  {
    hide Value, LowBits;
    ValueOfLowBits(b, 8);
    assert Power(4) == 16;
    assert Power(8) == 256;
  }

  lemma {:induction false} OctetsOfBytes(data: seq<Byte>, extra: Bits)
    requires |extra| < 8
    ensures Octets(ByteBits(data) + extra) == data
    decreases |data|
  {
    if data == [] {
      assert ByteBits(data) + extra == extra;
    } else {
      hide Octets, ByteBits, LowBits, Value, Power;
      FirstByte(data, extra);
      OctetsOfBytes(data[1..], extra);
    }
  }

  /** Decoding an encoded byte string gives it back. */
  lemma DecodeEncode(data: seq<Byte>)
    ensures Decoded(Encoded(data)) == data
  {
    hide ByteBits, Sextets, Letters, TextBits, Octets;
    var b := ByteBits(data);
    var t := Letters(Sextets(b));
    LettersRead(b);
    PassedOver(Equals(|t|));
    TextBitsConcat(t, Equals(|t|));
    var r := TextBits(t);
    assert TextBits(Encoded(data)) == r + [] == r;
    assert r == b + r[|b|..];
    OctetsOfBytes(data, r[|b|..]);
  }

  /** Four characters for every three bytes begun. */
  lemma EncodedLength(data: seq<Byte>)
    ensures |Encoded(data)| == 4 * ((|data| + 2) / 3)
  {
    LettersRead(ByteBits(data));
    LengthRounds(|data|, |Sextets(ByteBits(data))|);
  }

  lemma LengthRounds(d: nat, k: nat)
    requires 8 * d <= 6 * k < 8 * d + 6
    ensures k + |Equals(k)| == 4 * ((d + 2) / 3)
  {
    var q := (d + 2) / 3;
    DivMod(d + 2, 3);
    assert d == 3 * q - 2 || d == 3 * q - 1 || d == 3 * q;
    if d == 3 * q - 2 {
      assert k == 4 * (q - 1) + 2;
    } else if d == 3 * q - 1 {
      assert k == 4 * (q - 1) + 3;
    } else {
      assert k == 4 * q;
    }
  }
}
