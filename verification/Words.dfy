/** Bytes, 64-bit bounds, powers of two and the few facts about division the other modules need. */
module Words {
  type Byte = x: nat | x < 256

  const UINT64_MAX: nat := 0xFFFF_FFFF_FFFF_FFFF
  const INT64_MAX: nat := 0x7FFF_FFFF_FFFF_FFFF
  const INT64_MIN: int := -0x8000_0000_0000_0000
  const WORD64: nat := UINT64_MAX + 1

  predicate IsInt64(v: int) { INT64_MIN <= v <= INT64_MAX }

  type Int64 = v: int | IsInt64(v)

  /** A sum of 64-bit numbers as two's complement hardware leaves it. */
  function Wrap64(v: int): (r: int)
    ensures IsInt64(r) && (IsInt64(v) ==> r == v)
  {
    (v - INT64_MIN) % WORD64 + INT64_MIN
  }

  /** Two to the `k`. */
  function Power(k: nat): (p: nat)
    ensures p > 0
  {
    if k == 0 then 1 else 2 * Power(k - 1)
  }

  lemma Regroup(a: int, b: int, c: int)
    ensures a * (b * c) == (a * b) * c
  {}

  lemma {:induction false} PowerSplits(m: nat, k: nat)
    ensures Power(m + k) == Power(m) * Power(k)
    decreases m
  {
    if m > 0 {
      PowerSplits(m - 1, k);
      Regroup(2, Power(m - 1), Power(k));
    }
  }

  lemma {:induction false} PowerGrows(m: nat, n: nat)
    requires m <= n
    ensures Power(m) <= Power(n)
    decreases n
  {
    if m < n { PowerGrows(m, n - 1); }
  }

  lemma AtLeast(a: int, d: nat)
    requires a >= 1
    ensures a * d >= d
  {
    assert a * d == d + (a - 1) * d;
  }

  lemma Distribute(p: int, q: int, d: int)
    ensures (p - q) * d == p * d - q * d
  {}

  lemma DivMod(n: nat, d: nat)
    requires d > 0
    ensures n == (n / d) * d + n % d && n % d < d
  {}

  /** Quotient and remainder are the only numbers of their kind. */
  lemma DivModUnique(n: nat, d: nat, q: nat, r: nat)
    requires r < d && n == q * d + r
    ensures n / d == q && n % d == r
  {
    var p := n / d;
    DivMod(n, d);
    Distribute(p, q, d);
    Distribute(q, p, d);
    if p < q { AtLeast(q - p, d); }
    if p > q { AtLeast(p - q, d); }
  }
}
