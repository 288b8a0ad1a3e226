/**
 The loops of `sere_b64_encode` and `sere_b64_decode` in runtime/sere_sys.c over their buffers.
 */
module Base64Loops {
  import opened Words
  import opened Base64

  /** The accumulator is a 32-bit word. */
  const WORD: nat := 0x1_0000_0000

  // ---------------------------------------------------------------- one group of the encoder

  function Triple(b0: Byte, b1: Byte, b2: Byte): nat { b0 * 65536 + b1 * 256 + b2 }

  lemma ShiftedBySix(n: nat)
    ensures Shifted(n, 6) == n / 64
  {
    assert Shifted(n / 32, 1) == n / 64;
    assert Shifted(n / 8, 3) == Shifted(n / 32, 1);
    assert Shifted(n / 2, 5) == Shifted(n / 8, 3);
  }

  lemma ShiftedByEight(n: nat)
    ensures Shifted(n, 8) == n / 256
  {
    ShiftedBySix(n / 4);
    assert n / 4 / 64 == n / 256;
    assert Shifted(n, 8) == Shifted(n / 2, 7) == Shifted(n / 4, 6);
  }

  lemma SixBits(n: nat, w: nat)
    ensures LowBits(n, w + 6) == LowBits(n / 64, w) + LowBits(n, 6) && Value(LowBits(n, 6)) == n % 64
  {
    BitsSplit(n, w, 6);
    ShiftedBySix(n);
    ValueOfLowBits(n, 6);
    assert Power(6) == 64;
  }

  lemma HighIsIgnored(n: nat, q: nat, k: nat, d: nat)
    requires d == Power(k)
    ensures LowBits(n + q * d, k) == LowBits(n, k)
  {
    BitsIgnoreHigh(n, q, k);
  }

  lemma KnownPowers()
    ensures Power(6) == 64 && Power(8) == 256
  {}

  lemma EightBits(n: nat, b: Byte, w: nat)
    ensures LowBits(n * 256 + b, w + 8) == LowBits(n, w) + LowBits(b, 8)
  {
    hide LowBits, Power, Shifted;
    KnownPowers();
    BitsSplit(n * 256 + b, w, 8);
    ShiftedByEight(n * 256 + b);
    HighIsIgnored(b, n, 8, 256);
    assert b + n * 256 == n * 256 + b;
  }

  /** The sextets of a 24-bit group. */
  lemma TripleSextets(t: nat)
    ensures var x := LowBits(t, 24);
            && Value(x[0..6]) == t / 262144 % 64 && Value(x[6..12]) == t / 4096 % 64
            && Value(x[12..18]) == t / 64 % 64 && Value(x[18..24]) == t % 64
  {
    hide LowBits, Value;
    SixBits(t, 18);
    SixBits(t / 64, 12);
    SixBits(t / 4096, 6);
    SixBits(t / 262144, 0);
    assert t / 64 / 64 == t / 4096 && t / 4096 / 64 == t / 262144;
    FourSextets(LowBits(t, 24), LowBits(t / 262144, 6), LowBits(t / 4096, 6), LowBits(t / 64, 6), LowBits(t, 6));
  }

  lemma FourSextets(x: Bits, a: Bits, b: Bits, c: Bits, d: Bits)
    requires |a| == |b| == |c| == |d| == 6 && x == a + b + c + d
    ensures x[0..6] == a && x[6..12] == b && x[12..18] == c && x[18..24] == d
  {}

  /** A 24-bit group is its three bytes one after the other. */
  lemma TripleBits(b0: Byte, b1: Byte, b2: Byte)
    ensures LowBits(Triple(b0, b1, b2), 24) == LowBits(b0, 8) + LowBits(b1, 8) + LowBits(b2, 8)
  {
    hide LowBits;
    assert Triple(b0, b1, b2) == (b0 * 256 + b1) * 256 + b2;
    EightBits(b0 * 256 + b1, b2, 16);
    EightBits(b0, b1, 8);
  }

  lemma {:induction false} ZeroBits(w: nat)
    ensures forall i :: 0 <= i < w ==> !LowBits(0, w)[i]
  {
    if w > 0 { ZeroBits(w - 1); }
  }

  /** The sextets of one, two or three leading bytes, read off the group with zero bytes after them. */
  lemma LeadingSextets(b: Bits, x: Bits, rest: Bits)
    requires |x| == 24 && |b| <= 24 && x[..|b|] == b && forall i :: |b| <= i < 24 ==> !x[i]
    requires |b| == 24 || ((|b| == 8 || |b| == 16) && rest == [])
    ensures Sextets(b + rest) ==
            [Value(x[0..6]), Value(x[6..12])] + (if |b| > 8 then [Value(x[12..18])] else []) +
            (if |b| > 16 then [Value(x[18..24])] else []) + Sextets(rest)
  {
    hide Value, Sextets;
    GroupAt(b + rest, x, 0);
    GroupAt(AfterGroup(b + rest), x, 6);
    if |b| > 8 { GroupAt(AfterGroup(AfterGroup(b + rest)), x, 12); }
    if |b| > 16 {
      var last := AfterGroup(AfterGroup(AfterGroup(b + rest)));
      GroupAt(last, x, 18);
      assert AfterGroup(last) == rest;
    } else {
      NoSextets();
    }
  }

  lemma NoSextets()
    ensures Sextets([]) == []
  {}

  lemma FirstGroupBits(b: Bits)
    ensures forall i :: 0 <= i < 6 ==> FirstGroup(b)[i] == (i < |b| && b[i])
  {}

  lemma GroupAt(b: Bits, x: Bits, k: nat)
    requires b != [] && k + 6 <= |x| && forall i :: 0 <= i < 6 ==> x[k + i] == (i < |b| && b[i])
    ensures Sextets(b) == [Value(x[k..k + 6])] + Sextets(AfterGroup(b))
  {
    SextetsStep(b);
    FirstGroupBits(b);
    hide Value, Sextets, FirstGroup, AfterGroup;
    SixAt(FirstGroup(b), b, x, k);
  }

  lemma SixAt(g: Bits, b: Bits, x: Bits, k: nat)
    requires |g| == 6 && k + 6 <= |x|
    requires forall i :: 0 <= i < 6 ==> g[i] == (i < |b| && b[i])
    requires forall i :: 0 <= i < 6 ==> x[k + i] == (i < |b| && b[i])
    ensures g == x[k..k + 6]
  {
    forall i | 0 <= i < 6 ensures g[i] == x[k..k + 6][i] {
      assert x[k..k + 6][i] == x[k + i];
    }
  }

  /** The four characters one round of the encoder writes. */
  function FourLetters(t: nat, has1: bool, has2: bool): string {
    [Letter(t / 262144 % 64), Letter(t / 4096 % 64),
     if has1 then Letter(t / 64 % 64) else '=', if has2 then Letter(t % 64) else '=']
  }

  /** The bits of the bytes a round takes, against the bits of its padded group. */
  lemma GroupBits(d: seq<Byte>, b0: Byte, b1: Byte, b2: Byte) returns (b: Bits)
    requires d != [] && b0 == d[0]
    requires b1 == (if |d| > 1 then d[1] else 0) && b2 == (if |d| > 2 then d[2] else 0)
    ensures var taken := if |d| < 3 then |d| else 3;
            && |b| == 8 * taken && ByteBits(d) == b + ByteBits(d[taken..])
            && var x := LowBits(Triple(b0, b1, b2), 24); x[..|b|] == b && forall i :: |b| <= i < 24 ==> !x[i]
  {
    hide LowBits, Triple, ByteBits;
    TripleBits(b0, b1, b2);
    ZeroBits(8);
    var c0, c1, c2 := LowBits(b0, 8), LowBits(b1, 8), LowBits(b2, 8);
    assert d[0..] == d;
    NextByte(d, 0);
    if |d| == 1 {
      b := c0;
    } else if |d| == 2 {
      NextByte(d, 1);
      b := c0 + c1;
    } else {
      NextByte(d, 1);
      NextByte(d, 2);
      b := c0 + c1 + c2;
    }
  }

  lemma NextByte(d: seq<Byte>, i: nat)
    requires i < |d|
    ensures ByteBits(d[i..]) == LowBits(d[i], 8) + ByteBits(d[i + 1..])
  {
    assert d[i..][1..] == d[i + 1..];
  }

  lemma {:induction false} LettersConcat(v: seq<nat>, rest: seq<nat>)
    ensures Letters(v + rest) == Letters(v) + Letters(rest)
    decreases |v|
  {
    if v == [] {
      assert v + rest == rest;
    } else {
      assert (v + rest)[1..] == v[1..] + rest;
      LettersConcat(v[1..], rest);
    }
  }

  function GroupValues(t: nat, has1: bool, has2: bool): seq<nat> {
    [t / 262144 % 64, t / 4096 % 64] + (if has1 then [t / 64 % 64] else []) + (if has2 then [t % 64] else [])
  }

  lemma LettersOfGroup(t: nat, has1: bool, has2: bool)
    requires has2 ==> has1
    ensures var v := GroupValues(t, has1, has2); FourLetters(t, has1, has2) == Letters(v) + Equals(|v|)
  {
    hide Letter;
    var v := GroupValues(t, has1, has2);
    LettersConcat(v[..1], v[1..]);
    LettersConcat(v[1..2], v[2..]);
    LetterOne(v[0]);
    LetterOne(v[1]);
    assert v == v[..1] + v[1..] && v[1..] == v[1..2] + v[2..] && v[..1] == [v[0]] && v[1..2] == [v[1]];
    if has1 {
      LettersConcat(v[2..3], v[3..]);
      LetterOne(v[2]);
      assert v[2..] == v[2..3] + v[3..] && v[2..3] == [v[2]];
    }
    if has2 {
      LetterOne(v[3]);
      assert v[3..] == [v[3]];
    }
  }

  lemma LetterOne(x: nat)
    ensures Letters([x]) == [Letter(x % 64)]
  {
    assert [x][1..] == [];
  }

  /** A full group, or a last one, closes with its own equals signs. */
  lemma GroupCloses(v: seq<nat>, rest: seq<nat>)
    requires |v| == 4 || rest == []
    ensures Letters(v + rest) + Equals(|v + rest|) ==
            (Letters(v) + Equals(|v|)) + (Letters(rest) + Equals(|rest|))
  {
    hide Equals, Letters;
    LettersConcat(v, rest);
    EqualsRepeat(|rest|);
    if rest == [] {
      assert v + rest == v;
      NoLetters();
      NothingAdded(Letters(v) + Equals(|v|));
    } else {
      Reassociate(Letters(v), Letters(rest), Equals(|rest|));
    }
  }

  lemma NoLetters()
    ensures Letters([]) == ""
  {}

  lemma EqualsRepeat(n: nat)
    ensures Equals(0) == "" && Equals(4) == "" && Equals(4 + n) == Equals(n)
  {}

  lemma NothingAdded(x: string)
    ensures x + ("" + "") == x
  {}

  lemma Reassociate(x: string, y: string, z: string)
    ensures (x + y) + z == (x + "") + (y + z)
  {}

  /** One round takes up to three bytes and writes their four characters. */
  lemma EncodedGroup(d: seq<Byte>, b0: Byte, b1: Byte, b2: Byte)
    requires d != [] && b0 == d[0]
    requires b1 == (if |d| > 1 then d[1] else 0) && b2 == (if |d| > 2 then d[2] else 0)
    ensures var taken := if |d| < 3 then |d| else 3;
            Encoded(d) == FourLetters(Triple(b0, b1, b2), |d| > 1, |d| > 2) + Encoded(d[taken..])
  {
    var t := Triple(b0, b1, b2);
    var taken := if |d| < 3 then |d| else 3;
    var b := GroupBits(d, b0, b1, b2);
    var rest := ByteBits(d[taken..]);
    if taken < 3 {
      assert rest == [];
      NoSextets();
    }
    hide LowBits, Value, Sextets, ByteBits, Triple, Letters, Equals, FourLetters;
    LeadingSextets(b, LowBits(t, 24), rest);
    TripleSextets(t);
    assert Sextets(ByteBits(d)) == GroupValues(t, |d| > 1, |d| > 2) + Sextets(rest);
    GroupCloses(GroupValues(t, |d| > 1, |d| > 2), Sextets(rest));
    LettersOfGroup(t, |d| > 1, |d| > 2);
  }

  // ---------------------------------------------------------------- the encoder

  /** One round: takes up to three bytes, returns four characters. */
  method EncodeRound(data: seq<Byte>, start: nat) returns (four: string, index: nat)
    requires start < |data|
    ensures start < index <= |data| && |four| == 4
    ensures Encoded(data[start..]) == four + Encoded(data[index..])
  {
    index := start;
    var b0 := data[index];
    index := index + 1;
    var has1 := index < |data|;
    var b1: Byte := 0;
    if has1 {
      b1 := data[index];
      index := index + 1;
    }
    var has2 := index < |data|;
    var b2: Byte := 0;
    if has2 {
      b2 := data[index];
      index := index + 1;
    }
    hide Encoded, LowBits, Letter;
    var triple := Triple(b0, b1, b2);
    EncodedGroup(data[start..], b0, b1, b2);
    assert data[start..][index - start..] == data[index..];
    four := FourLetters(triple, has1, has2);
  }

  /** `sere_b64_encode`: the buffer computed beforehand is exactly filled. */
  method Encode(data: seq<Byte>) returns (out: array<char>, n: nat)
    ensures n < out.Length && out[..n] == Encoded(data) && out[n] == '\0'
    ensures data != [] ==> out.Length == n + 1
  {
    var outN := ((|data| + 2) / 3) * 4;
    out := new char[outN + 1];
    n := 0;
    var index := 0;
    EncodedLength(data);
    assert data[0..] == data && out[..0] + Encoded(data) == Encoded(data);
    NothingEncoded();
    hide Encoded;
    while index < |data|
      invariant 0 <= index <= |data| && n <= outN
      invariant out[..n] + Encoded(data[index..]) == Encoded(data)
    {
      var four, next := EncodeRound(data, index);
      WriteFour(out, n, four, Encoded(data[next..]));
      n := n + 4;
      index := next;
    }
    assert data[|data|..] == [];
    out[n] := '\0';
  }

  lemma NothingEncoded()
    ensures Encoded([]) == ""
  {}

  method WriteFour(out: array<char>, n: nat, four: string, ghost rest: string)
    requires |four| == 4 && n + 4 + |rest| < out.Length
    modifies out
    ensures out[..n + 4] == old(out[..n]) + four
    ensures out[..n + 4] + rest == old(out[..n]) + (four + rest)
  {
    out[n] := four[0];
    out[n + 1] := four[1];
    out[n + 2] := four[2];
    out[n + 3] := four[3];
    assert out[..n + 4] == old(out[..n]) + four;
  }

  // ---------------------------------------------------------------- the decoder

  lemma WordIsPower()
    ensures WORD == Power(32)
  {
    assert Power(8) == 256;
    PowerSplits(8, 8);
    PowerSplits(16, 16);
  }

  lemma AboveIsIgnored(r: nat, q: nat, e: nat, k: nat)
    ensures LowBits(r + q * Power(k + e), k) == LowBits(r, k)
  {
    PowerSplits(k, e);
    TimesSwap(q, Power(k), Power(e));
    hide Power, LowBits;
    BitsIgnoreHigh(r, q * Power(e), k);
  }

  /** Numbers with the same remainder have the same low bits. */
  lemma SameLowBits(x: nat, d: nat, e: nat, k: nat)
    requires d == Power(k + e)
    ensures LowBits(x, k) == LowBits(x % d, k)
  {
    hide Power, LowBits;
    DivMod(x, d);
    AboveIsIgnored(x % d, x / d, e, k);
  }

  lemma TimesSwap(q: nat, a: nat, b: nat)
    ensures q * (a * b) == (q * b) * a
  {}

  /** `buf = (buf << 6) | value` in a 32-bit word. */
  function Taken(buf: nat, value: nat): nat { (buf * 64 + value) % WORD }

  /** It keeps the pending bits and appends six. */
  lemma TakeSix(buf: nat, bits: nat, value: nat)
    requires bits < 8 && value < 64
    ensures LowBits(Taken(buf, value), bits + 6) == LowBits(buf, bits) + LowBits(value, 6)
  {
    var x := buf * 64 + value;
    hide LowBits, Power, Shifted;
    WordIsPower();
    SameLowBits(x, WORD, 32 - (bits + 6), bits + 6);
    SixAppended(buf, bits, value);
  }

  lemma SixAppended(buf: nat, bits: nat, value: nat)
    requires value < 64
    ensures LowBits(buf * 64 + value, bits + 6) == LowBits(buf, bits) + LowBits(value, 6)
  {
    hide LowBits, Power, Shifted;
    KnownPowers();
    BitsSplit(buf * 64 + value, bits, 6);
    ShiftedBySix(buf * 64 + value);
    HighIsIgnored(value, buf, 6, 64);
    assert value + buf * 64 == buf * 64 + value;
  }

  /** Eight or more pending bits give a byte from their top. */
  lemma EmitOne(buf: nat, bits: nat, rest: Bits)
    requires bits >= 8
    ensures Octets(LowBits(buf, bits) + rest) ==
            [Shifted(buf, bits - 8) % 256] + Octets(LowBits(buf, bits - 8) + rest)
  {
    hide *;
    var high, low := LowBits(Shifted(buf, bits - 8), 8), LowBits(buf, bits - 8);
    BitsSplit(buf, 8, bits - 8);
    ByteValue(Shifted(buf, bits - 8));
    FirstOctet(high, low + rest);
    Regroup(high, low, rest);
  }

  lemma ByteValue(n: nat)
    ensures Value(LowBits(n, 8)) % 256 == n % 256
  {
    ValueOfLowBits(n, 8);
    KnownPowers();
  }

  /**
   Only the low twelve bits of the accumulator are ever used: whatever stands above them, the byte
   written and the bits left pending are the same.
   */
  lemma OnlyTwelveBitsMatter(x: nat, y: nat, bits: nat)
    requires bits <= 4 && x % 4096 == y % 4096
    ensures Shifted(x, bits) % 256 == Shifted(y, bits) % 256 && LowBits(x, bits) == LowBits(y, bits)
  {
    assert Power(6) == 64;
    PowerSplits(6, 6);
    SameLowBits(x, 4096, 4 - bits, bits + 8);
    SameLowBits(y, 4096, 4 - bits, bits + 8);
    BitsSplit(x, 8, bits);
    BitsSplit(y, 8, bits);
    ValueOfLowBits(Shifted(x, bits), 8);
    ValueOfLowBits(Shifted(y, bits), 8);
    assert Power(8) == 256;
    hide LowBits, Value, Power, Shifted;
    assert LowBits(x, bits + 8)[..8] == LowBits(Shifted(x, bits), 8);
    assert LowBits(y, bits + 8)[..8] == LowBits(Shifted(y, bits), 8);
    assert LowBits(x, bits + 8)[8..] == LowBits(x, bits);
    assert LowBits(y, bits + 8)[8..] == LowBits(y, bits);
  }

  /** What is still to be decoded: the pending bits and the rest of the text. */
  function Remaining(buf: nat, bits: nat, t: string, index: nat): seq<Byte>
    requires index <= |t|
  {
    Octets(LowBits(buf, bits) + TextBits(t[index..]))
  }

  lemma SkipCharacter(buf: nat, bits: nat, t: string, index: nat)
    requires index < |t| && LetterValue(t[index]) < 0
    ensures Remaining(buf, bits, t, index) == Remaining(buf, bits, t, index + 1)
  {
    var rest := TextBits(t[index + 1..]);
    assert t[index..][1..] == t[index + 1..];
    assert TextBits(t[index..]) == [] + rest == rest;
  }

  lemma TakeCharacter(buf: nat, bits: nat, t: string, index: nat, value: nat)
    requires index < |t| && bits < 8 && value == LetterValue(t[index])
    ensures value < 64
    ensures Remaining(buf, bits, t, index) == Remaining(Taken(buf, value), bits + 6, t, index + 1)
  {
    hide *;
    var next, rest := Taken(buf, value), TextBits(t[index + 1..]);
    TextStep(t, index, value);
    RemainingIs(buf, bits, t, index);
    RemainingIs(next, bits + 6, t, index + 1);
    TakeSix(buf, bits, value);
    Regroup(LowBits(buf, bits), LowBits(value, 6), rest);
  }

  lemma Regroup(a: Bits, b: Bits, c: Bits)
    ensures a + (b + c) == (a + b) + c
  {}

  lemma TextStep(t: string, index: nat, value: nat)
    requires index < |t| && value == LetterValue(t[index])
    ensures value < 64 && TextBits(t[index..]) == LowBits(value, 6) + TextBits(t[index + 1..])
  {
    hide LowBits;
    assert t[index..][0] == t[index] && t[index..][1..] == t[index + 1..];
  }

  lemma RemainingIs(buf: nat, bits: nat, t: string, index: nat)
    requires index <= |t|
    ensures Remaining(buf, bits, t, index) == Octets(LowBits(buf, bits) + TextBits(t[index..]))
  {}

  lemma NothingRemains(buf: nat, bits: nat, t: string)
    requires bits < 8
    ensures Remaining(buf, bits, t, |t|) == []
  {}

  /** The bytes written and those still to be decoded. */
  function Whole(done: seq<Byte>, buf: nat, bits: nat, t: string, index: nat): seq<Byte>
    requires index <= |t|
  {
    done + Remaining(buf, bits, t, index)
  }

  lemma WholeTakes(done: seq<Byte>, buf: nat, bits: nat, t: string, index: nat, value: nat)
    requires index < |t| && bits < 8 && value == LetterValue(t[index])
    ensures Whole(done, buf, bits, t, index) == Whole(done, Taken(buf, value), bits + 6, t, index + 1)
  {
    TakeCharacter(buf, bits, t, index, value);
  }

  lemma WholeSkips(done: seq<Byte>, buf: nat, bits: nat, t: string, index: nat)
    requires index < |t| && LetterValue(t[index]) < 0
    ensures Whole(done, buf, bits, t, index) == Whole(done, buf, bits, t, index + 1)
  {
    SkipCharacter(buf, bits, t, index);
  }

  lemma WholeEmits(done: seq<Byte>, buf: nat, bits: nat, t: string, index: nat)
    requires index <= |t| && bits >= 8
    ensures Whole(done, buf, bits, t, index) ==
            Whole(done + [Shifted(buf, bits - 8) % 256], buf, bits - 8, t, index)
  {
    RemainingIs(buf, bits, t, index);
    RemainingIs(buf, bits - 8, t, index);
    hide Remaining, Shifted, LowBits, TextBits, Octets;
    EmitOne(buf, bits, TextBits(t[index..]));
  }

  method StoreByte(out: array<Byte>, n: nat, b: Byte)
    requires n < out.Length
    modifies out
    ensures out[..n + 1] == old(out[..n]) + [b]
  {
    out[n] := b;
  }

  /** One letter of the decoder's loop. */
  method DecodeLetter(t: string, index: nat, value: nat, buf: nat, bits: nat, out: array<Byte>, n: nat)
      returns (buf': nat, bits': nat, n': nat)
    requires index < |t| && bits < 8 && bits % 2 == 0 && value == LetterValue(t[index])
    requires 8 * n + bits <= 6 * index && n < out.Length
    modifies out
    ensures bits' < 8 && bits' % 2 == 0 && 8 * n' + bits' <= 6 * (index + 1) && n <= n' <= n + 1
    ensures Whole(out[..n'], buf', bits', t, index + 1) == Whole(old(out[..n]), buf, bits, t, index)
  {
    hide Whole, Shifted, LetterValue, Taken;
    WholeTakes(out[..n], buf, bits, t, index, value);
    buf' := Taken(buf, value);
    bits' := bits + 6;
    n' := n;
    if bits' >= 8 {
      bits' := bits' - 8;
      WholeEmits(out[..n], buf', bits' + 8, t, index + 1);
      StoreByte(out, n, Shifted(buf', bits') % 256);
      n' := n + 1;
    }
  }

  /** `sere_b64_decode`, with its 32-bit accumulator that is never masked. */
  method Decode(t: string) returns (out: array<Byte>, n: nat)
    ensures n < out.Length && out[..n] == Decoded(t) && out[n] == 0
  {
    out := new Byte[|t| + 1];
    var buf, bits := 0, 0;
    n := 0;
    WholeStart(t);
    assert out[..0] == [];
    hide Whole, Decoded;
    var index := 0;
    while index < |t|
      invariant 0 <= index <= |t| && bits < 8 && bits % 2 == 0 && 8 * n + bits <= 6 * index
      invariant Whole(out[..n], buf, bits, t, index) == Decoded(t)
    {
      var ch := t[index];
      if ch == '=' || ch == '\n' || ch == '\r' || ch == ' ' {
        WholeSkips(out[..n], buf, bits, t, index);
        index := index + 1;
        continue;
      }
      var value := LetterValue(ch);
      if value < 0 {
        WholeSkips(out[..n], buf, bits, t, index);
        index := index + 1;
        continue;
      }
      buf, bits, n := DecodeLetter(t, index, value, buf, bits, out, n);
      index := index + 1;
    }
    WholeEnds(out[..n], buf, bits, t);
    out[n] := 0;
  }

  lemma WholeStart(t: string)
    ensures Whole([], 0, 0, t, 0) == Decoded(t)
  {
    assert t[0..] == t && LowBits(0, 0) + TextBits(t) == TextBits(t);
  }

  lemma WholeEnds(done: seq<Byte>, buf: nat, bits: nat, t: string)
    requires bits < 8
    ensures Whole(done, buf, bits, t, |t|) == done
  {
    NothingRemains(buf, bits, t);
  }
}
