/**
 Hash and equality of boxed objects in runtime/sere_mod.c: equal objects hash alike, and equality is
 sameness of what a key stands for.
 */
module BoxedKeys {
  import opened Words

  const PRIME: nat := 1099511628211

  datatype Kind = NoneKind | BoolKind | I32Kind | I64Kind | F64Kind | StrKind | BytesKind | OtherKind

  /** A boxed object as far as hash and equality look at it; a double is its 64 bits. */
  class Boxed {
    const kind: Kind
    const i: int
    const f: nat
    const text: seq<Byte>
    const address: nat

    constructor (kind: Kind, i: int, f: nat, text: seq<Byte>, address: nat)
      ensures this.kind == kind && this.i == i && this.f == f && this.text == text && this.address == address
    {
      this.kind, this.i, this.f, this.text, this.address := kind, i, f, text, address;
    }
  }

  // ---------------------------------------------------------------- doubles by their bits

  /** Both zeros, whatever the sign bit. */
  predicate IsZero(f: nat) { f % 0x8000_0000_0000_0000 == 0 }

  /** All exponent bits set and some fraction bit. */
  predicate IsNan(f: nat) { f / 0x10_0000_0000_0000 % 2048 == 2047 && f % 0x10_0000_0000_0000 != 0 }

  /** `==` on doubles: a NaN equals nothing, the zeros equal each other. */
  predicate FloatEqual(a: nat, b: nat) { !IsNan(a) && !IsNan(b) && (a == b || (IsZero(a) && IsZero(b))) }

  // ---------------------------------------------------------------- the source's functions

  predicate IsIntegerKind(k: Kind) { k == BoolKind || k == I32Kind || k == I64Kind }

  /** FNV-1a over 64 bits. */
  function HashBytes(text: seq<Byte>): bv64 {
    if text == [] then 14695981039346656037
    else (HashBytes(text[..|text| - 1]) ^ (text[|text| - 1] as bv64)) * 1099511628211
  }

  /** `objectHash`. */
  function ObjectHash(o: Boxed): nat {
    match o.kind
    case NoneKind => 0
    case BoolKind => (o.i % WORD64) * PRIME % WORD64
    case I32Kind => (o.i % WORD64) * PRIME % WORD64
    case I64Kind => (o.i % WORD64) * PRIME % WORD64
    case F64Kind => if FloatEqual(o.f, 0) then 0 else o.f
    case StrKind => HashBytes(o.text) as nat
    case BytesKind => HashBytes(o.text) as nat
    case OtherKind => o.address
  }

  /** `objectsEqual`. */
  predicate ObjectsEqual(a: Boxed, b: Boxed) {
    if a == b then true
    else if IsIntegerKind(a.kind) && IsIntegerKind(b.kind) then a.i == b.i
    else if a.kind != b.kind then false
    else
      match a.kind
      case NoneKind => true
      case F64Kind => FloatEqual(a.f, b.f)
      case StrKind => a.text == b.text
      case BytesKind => a.text == b.text
      case _ => false
  }

  // ---------------------------------------------------------------- what a key stands for

  /** A NaN and an object of another kind stand only for themselves. */
  datatype Meaning = Nothing | Number(i: int) | Real(f: nat) | Text(s: seq<Byte>) | Raw(b: seq<Byte>) | Itself(o: Boxed)

  function MeaningOf(o: Boxed): Meaning {
    match o.kind
    case NoneKind => Nothing
    case BoolKind => Number(o.i)
    case I32Kind => Number(o.i)
    case I64Kind => Number(o.i)
    case F64Kind => if IsNan(o.f) then Itself(o) else Real(if IsZero(o.f) then 0 else o.f)
    case StrKind => Text(o.text)
    case BytesKind => Raw(o.text)
    case OtherKind => Itself(o)
  }

  /** Objects are equal exactly when they stand for the same thing, so equality is an equivalence. */
  lemma EqualMeansSame(a: Boxed, b: Boxed)
    ensures ObjectsEqual(a, b) <==> MeaningOf(a) == MeaningOf(b)
  {
    assert IsZero(0) && !IsNan(0);
  }

  /** Equal objects hash alike: across the integer kinds, and for both zeros. */
  lemma EqualObjectsHashAlike(a: Boxed, b: Boxed)
    requires ObjectsEqual(a, b)
    ensures ObjectHash(a) == ObjectHash(b)
  {
    hide HashBytes;
  }

  /** The hash is a function of the meaning. */
  lemma SameMeaningSameHash(a: Boxed, b: Boxed)
    requires MeaningOf(a) == MeaningOf(b)
    ensures ObjectHash(a) == ObjectHash(b)
  {
    EqualMeansSame(a, b);
    EqualObjectsHashAlike(a, b);
  }

  // ---------------------------------------------------------------- equality by value

  const FRACTION: nat := 0x10_0000_0000_0000

  /** The magnitude of a double in units of the smallest one, from its exponent and fraction bits. */
  function Scaled(e: nat, fraction: nat): nat {
    if e == 0 then fraction else (FRACTION + fraction) * Power(e - 1)
  }

  /** The number a double's 64 bits stand for, in units of the smallest one; infinity is past all others. */
  function ValueOf(f: nat): int {
    var m: int := Scaled(f / FRACTION % 2048, f % FRACTION);
    if f / FRACTION >= 2048 then -m else m
  }

  lemma LargerExponent(e: nat, x: nat, d: nat, y: nat)
    requires e < d && x < FRACTION && y < FRACTION
    ensures Scaled(e, x) < Scaled(d, y)
  {
    PowerGrows(e, d - 1);
    var p, q := Power(e), Power(d - 1);
    Monotone(FRACTION, p, q);
    Widen(FRACTION, FRACTION + y, q);
    if e > 0 {
      assert p == 2 * Power(e - 1);
      Narrow(FRACTION + x, 2 * FRACTION, Power(e - 1));
    } else {
      assert p == 1;
    }
  }

  lemma Monotone(a: nat, p: nat, q: nat)
    requires p <= q
    ensures a * p <= a * q
  {}

  lemma Widen(a: nat, b: nat, q: nat)
    requires a <= b
    ensures a * q <= b * q
  {}

  lemma Narrow(a: nat, b: nat, q: nat)
    requires a < b && q > 0
    ensures a * q < b * q
  {}

  lemma ScaledIsInjective(e: nat, x: nat, d: nat, y: nat)
    requires x < FRACTION && y < FRACTION && Scaled(e, x) == Scaled(d, y)
    ensures e == d && x == y
  {
    if e < d { LargerExponent(e, x, d, y); }
    if d < e { LargerExponent(d, y, e, x); }
    if e == d && e > 0 {
      if x < y { Narrow(FRACTION + x, FRACTION + y, Power(e - 1)); }
      if y < x { Narrow(FRACTION + y, FRACTION + x, Power(e - 1)); }
    }
  }

  /** The bits are sign, exponent and fraction. */
  lemma BitsOf(f: nat)
    requires f < WORD64
    ensures var sign := if f / FRACTION >= 2048 then 1 else 0;
            f == sign * 0x8000_0000_0000_0000 + (f / FRACTION % 2048) * FRACTION + f % FRACTION
    ensures f % 0x8000_0000_0000_0000 == 0 <==> f / FRACTION % 2048 == 0 && f % FRACTION == 0
  {
    DivMod(f, FRACTION);
    var h := f / FRACTION;
    var sign := if h >= 2048 then 1 else 0;
    assert h < 4096;
    assert h == sign * 2048 + h % 2048;
    var low := (h % 2048) * FRACTION + f % FRACTION;
    assert low < 0x8000_0000_0000_0000;
    DivModUnique(f, 0x8000_0000_0000_0000, sign, low);
  }

  /** Two different boxed doubles are equal exactly when neither is a NaN and their numbers are the same. */
  lemma DoublesCompareByValue(a: Boxed, b: Boxed)
    requires a != b && a.kind == F64Kind && b.kind == F64Kind && a.f < WORD64 && b.f < WORD64
    ensures ObjectsEqual(a, b) <==>
            && !(a.f / FRACTION % 2048 == 2047 && a.f % FRACTION > 0)
            && !(b.f / FRACTION % 2048 == 2047 && b.f % FRACTION > 0)
            && ValueOf(a.f) == ValueOf(b.f)
  {
    BitsOf(a.f);
    BitsOf(b.f);
    SameValue(a.f, b.f);
  }

  lemma SameValue(x: nat, y: nat)
    requires x < WORD64 && y < WORD64
    ensures ValueOf(x) == ValueOf(y) <==> x == y || (x % 0x8000_0000_0000_0000 == 0 && y % 0x8000_0000_0000_0000 == 0)
  {
    BitsOf(x);
    BitsOf(y);
    var e, m, d, n := x / FRACTION % 2048, x % FRACTION, y / FRACTION % 2048, y % FRACTION;
    ZeroScaled(e, m);
    ZeroScaled(d, n);
    hide Scaled;
    if Scaled(e, m) == Scaled(d, n) { ScaledIsInjective(e, m, d, n); }
  }

  lemma ZeroScaled(e: nat, m: nat)
    ensures Scaled(e, m) == 0 <==> e == 0 && m == 0
  {
    if e > 0 { Narrow(0, FRACTION + m, Power(e - 1)); }
  }

  /** Two different objects of any other kinds: integers by value, texts by kind and bytes, the none value always. */
  lemma OthersCompareByContent(a: Boxed, b: Boxed)
    requires a != b && !(a.kind == F64Kind && b.kind == F64Kind)
    ensures ObjectsEqual(a, b) <==>
            || (a.kind in {BoolKind, I32Kind, I64Kind} && b.kind in {BoolKind, I32Kind, I64Kind} && a.i == b.i)
            || (a.kind == b.kind && a.kind in {StrKind, BytesKind} && a.text == b.text)
            || (a.kind == NoneKind && b.kind == NoneKind)
  {}

  /** Values of FNV-1a for no bytes, for "a" and for "ab". */
  lemma HashValues()
    ensures HashBytes([]) == 0xcbf29ce484222325
    ensures HashBytes([0x61]) == 0xaf63dc4c8601ec8c && HashBytes([0x61, 0x62]) == 0x89c4407b545986a
  {
    var a: Byte, b: Byte := 0x61, 0x62;
    assert a as bv64 == 0x61 && b as bv64 == 0x62;
    assert [a][..0] == [] && [a, b][..1] == [a];
    assert HashBytes([a]) == (HashBytes([]) ^ 0x61) * 1099511628211;
    assert HashBytes([a, b]) == (HashBytes([a]) ^ 0x62) * 1099511628211;
  }
}
