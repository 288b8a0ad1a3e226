/**
 Base64 group by group, with the alphabet and the arithmetic of section 4 of RFC 4648 written out.

 These laws name neither the bits nor the tables by which `Base64` defines encoding and decoding.
 */
module Base64Texts {
  import opened Words
  import opened Base64
  import opened Base64Loops

  /** The letter of a number below 64: capitals, small letters, digits, plus and slash. */
  function Char64(k: nat): char
    requires k < 64
  {
    if k < 26 then 'A' + k as char
    else if k < 52 then 'a' + (k - 26) as char
    else if k < 62 then '0' + (k - 52) as char
    else if k == 62 then '+' else '/'
  }

  lemma CharIs(k: nat)
    requires k < 64
    ensures Letter(k) == Char64(k) && LetterValue(Char64(k)) == k
  {
    hide Letter;
    TableParts(k);
  }

  /** The last six bits of a number and what stands in front of them. */
  lemma SixLast(n: nat, k: nat)
    requires k < 64
    ensures (n * 64 + k) / 64 == n && (n * 64 + k) % 64 == k
  {}

  lemma FourSixes(w: nat, x: nat, y: nat, z: nat)
    requires w < 64 && x < 64 && y < 64 && z < 64
    ensures var t := ((w * 64 + x) * 64 + y) * 64 + z;
            t / 262144 % 64 == w && t / 4096 % 64 == x && t / 64 % 64 == y && t % 64 == z
  {
    var n, m := w * 64 + x, (w * 64 + x) * 64 + y;
    var t := m * 64 + z;
    SixLast(m, z);
    SixLast(n, y);
    SixLast(w, x);
    DivModUnique(t, 4096, n, y * 64 + z);
    DivModUnique(t, 262144, w, x * 4096 + y * 64 + z);
  }

  lemma TripleParts(a: Byte, b: Byte, c: Byte)
    ensures var t := Triple(a, b, c);
            && t / 262144 % 64 == a / 4 && t / 4096 % 64 == a % 4 * 16 + b / 16
            && t / 64 % 64 == b % 16 * 4 + c / 64 && t % 64 == c % 64
  {
    var w, x, y, z := a / 4, a % 4 * 16 + b / 16, b % 16 * 4 + c / 64, c % 64;
    assert a == 4 * w + a % 4 && b == 16 * (b / 16) + b % 16 && c == 64 * (c / 64) + z;
    assert Triple(a, b, c) == ((w * 64 + x) * 64 + y) * 64 + z;
    FourSixes(w, x, y, z);
  }

  /** Three bytes give four letters, and the rest follows. */
  lemma EncodesThree(a: Byte, b: Byte, c: Byte, rest: seq<Byte>)
    ensures Encoded([a, b, c] + rest) ==
            [Char64(a / 4), Char64(a % 4 * 16 + b / 16), Char64(b % 16 * 4 + c / 64), Char64(c % 64)] + Encoded(rest)
  {
    var d := [a, b, c] + rest;
    assert d[3..] == rest;
    hide Encoded, Letter, LetterValue, Char64, Triple;
    TripleParts(a, b, c);
    CharIs(a / 4);
    CharIs(a % 4 * 16 + b / 16);
    CharIs(b % 16 * 4 + c / 64);
    CharIs(c % 64);
    EncodedGroup(d, a, b, c);
  }

  /** Two last bytes give three letters and a pad. */
  lemma EncodesTwo(a: Byte, b: Byte)
    ensures Encoded([a, b]) == [Char64(a / 4), Char64(a % 4 * 16 + b / 16), Char64(b % 16 * 4), '=']
  {
    hide Encoded, Letter, LetterValue, Char64, Triple;
    TripleParts(a, b, 0);
    CharIs(a / 4);
    CharIs(a % 4 * 16 + b / 16);
    CharIs(b % 16 * 4);
    NothingEncoded();
    assert [a, b][2..] == [];
    EncodedGroup([a, b], a, b, 0);
  }

  /** One last byte gives two letters and two pads, and no byte nothing. */
  lemma EncodesOne(a: Byte)
    ensures Encoded([a]) == [Char64(a / 4), Char64(a % 4 * 16), '=', '='] && Encoded([]) == ""
  {
    hide Encoded, Letter, LetterValue, Char64, Triple;
    TripleParts(a, 0, 0);
    CharIs(a / 4);
    CharIs(a % 4 * 16);
    NothingEncoded();
    assert [a][1..] == [];
    EncodedGroup([a], a, 0, 0);
  }

  // ---------------------------------------------------------------- decoding

  lemma LetterBits(k: nat, rest: string)
    requires k < 64
    ensures TextBits([Char64(k)] + rest) == LowBits(k, 6) + TextBits(rest)
  {
    CharIs(k);
    hide Char64, LowBits, LetterValue;
    assert ([Char64(k)] + rest)[1..] == rest;
  }

  /** A letter behind some pending bits of a number makes six more bits of it. */
  lemma Pending(n: nat, bits: nat, k: nat, rest: string)
    requires k < 64
    ensures LowBits(n, bits) + TextBits([Char64(k)] + rest) == LowBits(n * 64 + k, bits + 6) + TextBits(rest)
  {
    hide *;
    LetterBits(k, rest);
    SixAppended(n, bits, k);
    Regrouped(LowBits(n, bits), LowBits(k, 6), TextBits(rest));
  }

  lemma Regrouped(a: Bits, b: Bits, c: Bits)
    ensures a + (b + c) == (a + b) + c
  {}

  lemma Shifts(n: nat)
    ensures Shifted(n, 4) == n / 16 && Shifted(n, 2) == n / 4 && Shifted(n, 0) == n
  {
    assert Shifted(n, 1) == n / 2 && Shifted(n / 2, 1) == n / 4;
    assert Shifted(n / 4, 2) == n / 16;
  }

  /** A second letter completes a byte and leaves four bits. */
  lemma SecondLetter(p: nat, q: nat, rest: string)
    requires p < 64 && q < 64
    ensures Octets(LowBits(p, 6) + TextBits([Char64(q)] + rest)) ==
            [p * 4 + q / 16] + Octets(LowBits(p * 64 + q, 4) + TextBits(rest))
  {
    hide *;
    var n := p * 64 + q;
    FirstByteOf(p, q);
    Shifts(n);
    Pending(p, 6, q, rest);
    EmitOne(n, 12, TextBits(rest));
  }

  lemma FirstByteOf(p: nat, q: nat)
    requires p < 64 && q < 64
    ensures (p * 64 + q) / 16 % 256 == p * 4 + q / 16
  {
    DivModUnique(p * 64 + q, 16, p * 4 + q / 16, q % 16);
  }

  /** A third letter completes a byte and leaves two bits. */
  lemma ThirdLetter(n: nat, r: nat, rest: string)
    requires r < 64
    ensures Octets(LowBits(n, 4) + TextBits([Char64(r)] + rest)) ==
            [n % 16 * 16 + r / 4] + Octets(LowBits(n * 64 + r, 2) + TextBits(rest))
  {
    hide *;
    var m := n * 64 + r;
    SecondByteOf(n, r);
    Shifts(m);
    Pending(n, 4, r, rest);
    EmitOne(m, 10, TextBits(rest));
  }

  lemma SecondByteOf(n: nat, r: nat)
    requires r < 64
    ensures (n * 64 + r) / 4 % 256 == n % 16 * 16 + r / 4
  {
    DivModUnique(n * 64 + r, 4, n * 16 + r / 4, r % 4);
    DivModUnique(n * 16 + r / 4, 256, n / 16, n % 16 * 16 + r / 4);
  }

  /** A fourth letter completes a byte and leaves nothing. */
  lemma FourthLetter(m: nat, s: nat, rest: string)
    requires s < 64
    ensures Octets(LowBits(m, 2) + TextBits([Char64(s)] + rest)) == [m % 4 * 64 + s] + Octets(TextBits(rest))
  {
    hide *;
    var x := m * 64 + s;
    DivModUnique(x, 256, m / 4, m % 4 * 64 + s);
    Shifts(x);
    NoBits(x, TextBits(rest));
    Pending(m, 2, s, rest);
    EmitOne(x, 8, TextBits(rest));
  }

  lemma NoBits(n: nat, b: Bits)
    ensures LowBits(n, 0) + b == b
  {}

  /** Four letters give three bytes, and the rest follows. */
  lemma DecodesFour(p: nat, q: nat, r: nat, s: nat, rest: string)
    requires p < 64 && q < 64 && r < 64 && s < 64
    ensures Decoded([Char64(p), Char64(q), Char64(r), Char64(s)] + rest) ==
            [p * 4 + q / 16, q % 16 * 16 + r / 4, r % 4 * 64 + s] + Decoded(rest)
  {
    var n := p * 64 + q;
    hide LowBits, Char64, TextBits, Octets;
    var w, x, y, z := [Char64(p)], [Char64(q)], [Char64(r)], [Char64(s)];
    assert [Char64(p), Char64(q), Char64(r), Char64(s)] + rest == w + (x + (y + (z + rest)));
    LetterBits(p, x + (y + (z + rest)));
    SecondLetter(p, q, y + (z + rest));
    ThirdLetter(n, r, z + rest);
    FourthLetter(n * 64 + r, s, rest);
    LastBits(p, q, r);
    Chained(p * 4 + q / 16, q % 16 * 16 + r / 4, r % 4 * 64 + s, Octets(TextBits(rest)));
  }

  lemma LastBits(p: nat, q: nat, r: nat)
    ensures (p * 64 + q) % 16 == q % 16 && ((p * 64 + q) * 64 + r) % 4 == r % 4
  {
    DivModUnique(p * 64 + q, 16, p * 4 + q / 16, q % 16);
    DivModUnique((p * 64 + q) * 64 + r, 4, (p * 64 + q) * 16 + r / 4, r % 4);
  }

  lemma Chained(a: Byte, b: Byte, c: Byte, rest: seq<Byte>)
    ensures [a] + ([b] + ([c] + rest)) == [a, b, c] + rest
  {}

  lemma FewBits(b: Bits)
    requires |b| < 8
    ensures Octets(b) == []
  {}

  lemma NoText()
    ensures TextBits("") == []
  {}

  /** What is left at the end: three letters give two bytes, two give one, and one gives none. */
  lemma DecodesThree(p: nat, q: nat, r: nat)
    requires p < 64 && q < 64 && r < 64
    ensures Decoded([Char64(p), Char64(q), Char64(r)]) == [p * 4 + q / 16, q % 16 * 16 + r / 4]
  {
    var n := p * 64 + q;
    NoText();
    hide LowBits, Char64, TextBits, Octets;
    var w, x, y := [Char64(p)], [Char64(q)], [Char64(r)];
    assert [Char64(p), Char64(q), Char64(r)] == w + (x + (y + ""));
    LetterBits(p, x + (y + ""));
    SecondLetter(p, q, y + "");
    ThirdLetter(n, r, "");
    LastBits(p, q, r);
    FewBits(LowBits(n * 64 + r, 2) + TextBits(""));
  }

  lemma DecodesTwo(p: nat, q: nat)
    requires p < 64 && q < 64
    ensures Decoded([Char64(p), Char64(q)]) == [p * 4 + q / 16]
    ensures Decoded([Char64(p)]) == [] && Decoded("") == []
  {
    NoText();
    hide LowBits, Char64, TextBits, Octets;
    var w, x := [Char64(p)], [Char64(q)];
    assert [Char64(p), Char64(q)] == w + (x + "") && [Char64(p)] == w + "";
    LetterBits(p, x + "");
    LetterBits(p, "");
    SecondLetter(p, q, "");
    FewBits(LowBits(p * 64 + q, 4) + TextBits(""));
    FewBits(LowBits(p, 6) + TextBits(""));
    FewBits([]);
  }

  /** Every character that is no letter, digit, plus or slash is passed over, padding and line ends included. */
  lemma OthersArePassedOver(a: string, c: char, b: string)
    requires !('A' <= c <= 'Z' || 'a' <= c <= 'z' || '0' <= c <= '9' || c == '+' || c == '/')
    ensures Decoded(a + [c] + b) == Decoded(a + b)
  {
    DecodingIgnoresOthers(a, [c], b);
  }
}
