/**
 The generator of runtime/sere_sys.c: a 64-bit xorshift state, its scrambled output, and draws
 from a range without bias.
 */
module RandomRange {
  import opened Words

  // ---------------------------------------------------------------- the state

  function Fold12(x: bv64): bv64 { x ^ (x >> 12) }

  function Fold25(x: bv64): bv64 { x ^ (x << 25) }

  function Fold27(x: bv64): bv64 { x ^ (x >> 27) }

  /** The three shifts of `rngNext`. */
  function Step(x: bv64): bv64 { Fold27(Fold25(Fold12(x))) }

  /** Each shift is undone by folding the word over itself until the shifts run out. */
  function Unfold12(a: bv64): bv64 { a ^ (a >> 12) ^ (a >> 24) ^ (a >> 36) ^ (a >> 48) ^ (a >> 60) }

  function Unfold25(b: bv64): bv64 { b ^ (b << 25) ^ (b << 50) }

  function Unfold27(z: bv64): bv64 { z ^ (z >> 27) ^ (z >> 54) }

  function Unstep(z: bv64): bv64 { Unfold12(Unfold25(Unfold27(z))) }

  lemma UnfoldsOf(x: bv64)
    ensures Unfold12(x ^ (x >> 12)) == x
    ensures Unfold25(x ^ (x << 25)) == x
    ensures Unfold27(x ^ (x >> 27)) == x
  {}

  lemma FoldsOf(x: bv64)
    ensures Fold12(x ^ (x >> 12) ^ (x >> 24) ^ (x >> 36) ^ (x >> 48) ^ (x >> 60)) == x
    ensures Fold25(x ^ (x << 25) ^ (x << 50)) == x
    ensures Fold27(x ^ (x >> 27) ^ (x >> 54)) == x
  {}

  lemma Undone(x: bv64)
    ensures Unfold12(Fold12(x)) == x && Unfold25(Fold25(x)) == x && Unfold27(Fold27(x)) == x
  {
    UnfoldsOf(x);
    hide Unfold12, Unfold25, Unfold27;
  }

  lemma Redone(x: bv64)
    ensures Fold12(Unfold12(x)) == x && Fold25(Unfold25(x)) == x && Fold27(Unfold27(x)) == x
  {
    FoldsOf(x);
    hide Fold12, Fold25, Fold27;
  }

  /** The step is a bijection on 64-bit states. */
  lemma StepIsBijective(x: bv64)
    ensures Unstep(Step(x)) == x && Step(Unstep(x)) == x
  {
    hide Fold12, Fold25, Fold27, Unfold12, Unfold25, Unfold27;
    Undone(x);
    Undone(Fold12(x));
    Undone(Fold25(Fold12(x)));
    Redone(x);
    Redone(Unfold27(x));
    Redone(Unfold25(Unfold27(x)));
  }

  lemma ZeroIsFixed(x: bv64)
    ensures Step(x) == 0 <==> x == 0
  {
    StepIsBijective(x);
    assert Unstep(0) == 0 && Step(0) == 0;
    hide Step, Unstep;
  }

  /** `sere_random_seed`: the lowest bit is set. */
  function Seeded(seed: bv64): bv64 { seed | 1 }

  function After(x: bv64, n: nat): bv64 { if n == 0 then x else Step(After(x, n - 1)) }

  /** A seeded state is never zero, however many numbers were drawn. */
  lemma {:induction false} NeverZero(seed: bv64, n: nat)
    ensures After(Seeded(seed), n) != 0
  {
    if n > 0 {
      NeverZero(seed, n - 1);
      ZeroIsFixed(After(Seeded(seed), n - 1));
    }
  }

  /** `return x * 2685821657736338717`. */
  function Output(x: bv64): bv64 { x * 2685821657736338717 }

  /** The multiplier is odd and has an inverse. */
  function Unscrambled(z: bv64): bv64 { z * 6415128727920758069 }

  lemma UnscrambledOf(x: bv64)
    ensures Unscrambled(x * 2685821657736338717) == x
  {}

  /** So the output determines the state. */
  lemma OutputIsInjective(x: bv64)
    ensures Unscrambled(Output(x)) == x
  {
    UnscrambledOf(x);
    hide Unscrambled;
  }

  /** The first two draws after seeding with one, and the first of an unseeded generator. */
  lemma FirstDraws()
    ensures Output(After(1, 1)) == 0x47e4ce4b896cdd1d && Output(After(1, 2)) == 0xabcfa6a8e079651d
    ensures Output(After(0x9e3779b97f4a7c15, 1)) == 0x0d83b3e29a21487a
  {
    assert After(1, 0) == 1 && After(1, 1) == 0x2000001;
    assert Step(0x2000001) == 0x4004000802801;
    assert After(0x9e3779b97f4a7c15, 0) == 0x9e3779b97f4a7c15;
  }

  /** Seeding makes the seed odd and changes nothing else. */
  lemma SeedIsOdd(seed: bv64)
    ensures Seeded(seed) == (if seed & 1 == 1 then seed else seed + 1) && Seeded(seed) & 1 == 1
  {}

  lemma {:induction false} RunsStayApart(x: bv64, y: bv64, n: nat)
    ensures After(x, n) == After(y, n) <==> x == y
  {
    hide Step, Unstep;
    if n > 0 {
      RunsStayApart(x, y, n - 1);
      StepIsBijective(After(x, n - 1));
      StepIsBijective(After(y, n - 1));
    }
  }

  /** At every draw two generators give the same number exactly when their seeds agree but for the lowest bit. */
  lemma DrawsTellSeedsApart(a: bv64, b: bv64, n: nat)
    ensures Output(After(Seeded(a), n)) == Output(After(Seeded(b), n)) <==> Seeded(a) == Seeded(b)
  {
    hide Step, Output, Unscrambled, Seeded;
    RunsStayApart(Seeded(a), Seeded(b), n);
    OutputIsInjective(After(Seeded(a), n));
    OutputIsInjective(After(Seeded(b), n));
  }

  // ---------------------------------------------------------------- the range

  /** The conversions between the signed and unsigned readings of a word. */
  function ToWord(v: int): nat { v % WORD64 }

  function ToSigned(w: nat): int { if w >= 0x8000_0000_0000_0000 then w - WORD64 else w }

  /** The unsigned difference of the bounds. */
  function Span(low: int, high: int): nat { (ToWord(high) - ToWord(low)) % WORD64 }

  function Limit(span: nat): nat
    requires span > 0
  {
    UINT64_MAX - UINT64_MAX % span
  }

  /** What an accepted raw value becomes. */
  function Mapped(low: int, span: nat, value: nat): int
    requires span > 0
  {
    ToSigned((ToWord(low) + value % span) % WORD64)
  }

  /** The unsigned arithmetic of the bounds loses nothing. */
  lemma SpanIsDifference(low: int, high: int)
    requires IsInt64(low) && IsInt64(high) && low < high
    ensures Span(low, high) == high - low
  {}

  lemma MappedIsInRange(low: int, high: int, value: nat)
    requires IsInt64(low) && IsInt64(high) && low < high
    ensures var r := Mapped(low, high - low, value); r == low + value % (high - low) && low <= r < high
  {
    var d := value % (high - low);
    assert ToSigned((ToWord(low) + d) % WORD64) == low + d;
  }

  // ---------------------------------------------------------------- every result equally often

  lemma NextDivMod(n: nat, d: nat)
    requires d > 0
    ensures if n % d == d - 1 then (n + 1) / d == n / d + 1 && (n + 1) % d == 0
            else (n + 1) / d == n / d && (n + 1) % d == n % d + 1
  {
    var q, r := n / d, n % d;
    DivMod(n, d);
    if r == d - 1 {
      Distribute(q + 1, 1, d);
      DivModUnique(n + 1, d, q + 1, 0);
    } else {
      DivModUnique(n + 1, d, q, r + 1);
    }
  }

  /** How many of the raw values below `n` have the remainder `d`. */
  function CountRemainder(n: nat, span: nat, d: nat): nat
    requires span > 0
  {
    if n == 0 then 0 else CountRemainder(n - 1, span, d) + (if (n - 1) % span == d then 1 else 0)
  }

  lemma {:induction false} RemainderCount(n: nat, span: nat, d: nat)
    requires d < span
    ensures CountRemainder(n, span, d) == n / span + (if n % span > d then 1 else 0)
  {
    if n == 0 {
      DivModUnique(0, span, 0, 0);
    } else {
      RemainderCount(n - 1, span, d);
      NextDivMod(n - 1, span);
    }
  }

  lemma LimitIsMultiple(span: nat)
    requires 0 < span <= UINT64_MAX
    ensures Limit(span) % span == 0 && Limit(span) > 0
    ensures UINT64_MAX - span < Limit(span) <= UINT64_MAX
  {
    DivMod(UINT64_MAX, span);
    DivModUnique(Limit(span), span, UINT64_MAX / span, 0);
  }

  /** The limit is the greatest multiple of the range's size below two to the 64. */
  lemma LimitIsGreatest(span: nat, m: nat)
    requires 0 < span <= UINT64_MAX && m <= UINT64_MAX && m % span == 0
    ensures m <= Limit(span)
  {
    LimitIsMultiple(span);
    if m > Limit(span) {
      DivMod(m, span);
      DivMod(Limit(span), span);
      Distribute(m / span, Limit(span) / span, span);
      AtLeastOne(m / span - Limit(span) / span, span);
    }
  }

  lemma AtLeastOne(q: int, d: nat)
    requires q * d > 0
    ensures q * d >= d
  {
    if q >= 1 { AtLeast(q, d); } else { NotPositive(q, d); }
  }

  lemma NotPositive(q: int, d: nat)
    requires q <= 0
    ensures q * d <= 0
  {}

  /** Every result of the range has the same number of accepted raw values, which are those of its remainder. */
  lemma RangeIsUnbiased(low: int, high: int, r: int, value: nat)
    requires IsInt64(low) && IsInt64(high) && low <= r < high
    ensures var span := high - low;
            && CountRemainder(Limit(span), span, r - low) == Limit(span) / span
            && (value % span == r - low <==> Mapped(low, span, value) == r)
  {
    LimitIsMultiple(high - low);
    RemainderCount(Limit(high - low), high - low, r - low);
    MappedIsInRange(low, high, value);
  }

  /** The raw value of the `n`-th draw. */
  function Drawn(x: bv64, n: nat): (v: nat)
    ensures v <= UINT64_MAX
  {
    Output(After(x, n)) as nat
  }

  // ---------------------------------------------------------------- the generator

  class Generator {
    var state: bv64

    constructor ()
      ensures state == 0x9E37_79B9_7F4A_7C15
    {
      state := 0x9E37_79B9_7F4A_7C15;
    }

    /** `sere_random_seed`. */
    method Seed(seed: bv64)
      modifies this
      ensures state == Seeded(seed) && state != 0
    {
      state := seed | 1;
      NeverZero(seed, 0);
    }

    /** `rngNext`. */
    method Draw() returns (value: bv64)
      modifies this
      ensures state == Step(old(state)) && value == Output(state)
      ensures old(state) != 0 ==> state != 0
    {
      ZeroIsFixed(state);
      hide Fold12, Fold25, Fold27, Output;
      var x := state;
      x := Fold12(x);
      x := Fold25(x);
      x := Fold27(x);
      state := x;
      value := Output(x);
    }

    /**
     `sere_random_range_i64`. The redraw loop ends exactly when some later draw is accepted, and
     `due` is the number of such a draw; the result is that of the first one.
     */
    method Range(low: int, high: int, ghost due: nat) returns (r: int, ghost n: nat)
      requires IsInt64(low) && IsInt64(high)
      requires low < high ==> due > 0 && Drawn(state, due) < Limit(high - low)
      modifies this
      ensures state == After(old(state), n)
      ensures high <= low ==> r == low && n == 0
      ensures low < high ==>
              && 0 < n <= due && Drawn(old(state), n) < Limit(high - low)
              && (forall k :: 0 < k < n ==> Drawn(old(state), k) >= Limit(high - low))
              && r == Mapped(low, high - low, Drawn(old(state), n)) && low <= r < high
    {
      n := 0;
      if high <= low { return low, 0; }
      SpanIsDifference(low, high);
      var span := Span(low, high);
      var limit := Limit(span);
      hide Limit, Span, Mapped, Step, Output;
      var raw := limit;
      while raw >= limit
        invariant n <= due && state == After(old(state), n)
        invariant forall k :: 0 < k < n ==> Drawn(old(state), k) >= limit
        invariant if n == 0 then raw == limit else raw == Drawn(old(state), n)
        decreases due - n
      {
        var value := Draw();
        n := n + 1;
        raw := value as nat;
      }
      MappedIsInRange(low, high, raw);
      r := Mapped(low, span, raw);
    }
  }
}
