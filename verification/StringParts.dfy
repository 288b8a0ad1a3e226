/**
 Splitting, joining, counting and replacing in byte strings, as runtime/sere_sys.c does it, and
 the laws that tie the four together.
 */
module StringParts {
  import opened Words

  type Bytes = seq<Byte>

  /** `memcmp` finds the needle at a position. */
  predicate At(s: Bytes, i: nat, sep: Bytes) { i + |sep| <= |s| && s[i..i + |sep|] == sep }

  // ---------------------------------------------------------------- the scans

  function SplitFrom(s: Bytes, sep: Bytes, start: nat, i: nat): (parts: seq<Bytes>)
    requires sep != [] && start <= i <= |s|
    ensures parts != []
    decreases |s| - i
  {
    if i + |sep| > |s| then [s[start..]]
    else if At(s, i, sep) then [s[start..i]] + SplitFrom(s, sep, i + |sep|, i + |sep|)
    else SplitFrom(s, sep, start, i + 1)
  }

  /** The number of bytes the UTF-8 lead byte at `i` announces, cut to one when they are not there. */
  function Width(s: Bytes, i: nat): (w: nat)
    requires i < |s|
    ensures 0 < w && i + w <= |s|
  {
    var lead := s[i];
    var w := if lead < 0x80 then 1
             else if 0xC0 <= lead < 0xE0 then 2
             else if 0xE0 <= lead < 0xF0 then 3
             else if 0xF0 <= lead < 0xF8 then 4
             else 1;
    if i + w > |s| then 1 else w
  }

  function CharactersFrom(s: Bytes, i: nat): seq<Bytes>
    requires i <= |s|
    decreases |s| - i
  {
    if i == |s| then [] else [s[i..i + Width(s, i)]] + CharactersFrom(s, i + Width(s, i))
  }

  /** `sere_string_split`. */
  function Split(s: Bytes, sep: Bytes): seq<Bytes> {
    if sep == [] then CharactersFrom(s, 0) else SplitFrom(s, sep, 0, 0)
  }

  /** `sere_string_join`. */
  function Join(sep: Bytes, parts: seq<Bytes>): Bytes {
    if parts == [] then []
    else if |parts| == 1 then parts[0]
    else parts[0] + sep + Join(sep, parts[1..])
  }

  function CountFrom(s: Bytes, sep: Bytes, i: nat): nat
    requires sep != [] && i <= |s|
    decreases |s| - i
  {
    if i + |sep| > |s| then 0
    else if At(s, i, sep) then 1 + CountFrom(s, sep, i + |sep|)
    else CountFrom(s, sep, i + 1)
  }

  /** `sere_string_count`. */
  function Count(s: Bytes, sep: Bytes): nat { if sep == [] then 0 else CountFrom(s, sep, 0) }

  function ReplaceFrom(s: Bytes, a: Bytes, b: Bytes, i: nat): Bytes
    requires a != [] && i <= |s|
    decreases |s| - i
  {
    if i == |s| then []
    else if At(s, i, a) then b + ReplaceFrom(s, a, b, i + |a|)
    else [s[i]] + ReplaceFrom(s, a, b, i + 1)
  }

  /** `sere_string_replace`. */
  function Replace(s: Bytes, a: Bytes, b: Bytes): Bytes { if a == [] then s else ReplaceFrom(s, a, b, 0) }

  /** One step of the splitting scan. */
  lemma SplitStep(s: Bytes, sep: Bytes, start: nat, i: nat)
    requires sep != [] && start <= i <= |s|
    ensures i + |sep| > |s| ==> SplitFrom(s, sep, start, i) == [s[start..]]
    ensures At(s, i, sep) ==>
            SplitFrom(s, sep, start, i) == [s[start..i]] + SplitFrom(s, sep, i + |sep|, i + |sep|)
    ensures i + |sep| <= |s| && !At(s, i, sep) ==> SplitFrom(s, sep, start, i) == SplitFrom(s, sep, start, i + 1)
  {}

  lemma ReplaceStep(s: Bytes, a: Bytes, b: Bytes, i: nat)
    requires a != [] && i < |s|
    ensures ReplaceFrom(s, a, b, i) ==
            if At(s, i, a) then b + ReplaceFrom(s, a, b, i + |a|) else [s[i]] + ReplaceFrom(s, a, b, i + 1)
  {}

  // ---------------------------------------------------------------- joining what was split

  lemma JoinMore(sep: Bytes, x: Bytes, parts: seq<Bytes>)
    ensures Join(sep, [x] + parts) == if parts == [] then x else x + sep + Join(sep, parts)
  {
    assert ([x] + parts)[1..] == parts;
  }

  lemma {:induction false} TailIsCopied(s: Bytes, a: Bytes, b: Bytes, i: nat)
    requires a != [] && i <= |s| < i + |a|
    ensures ReplaceFrom(s, a, b, i) == s[i..]
    decreases |s| - i
  {
    if i < |s| {
      TailIsCopied(s, a, b, i + 1);
      assert s[i..] == [s[i]] + s[i + 1..];
    }
  }

  /** Joining the rest of a split with any separator replaces the rest of the text by it. */
  lemma {:induction false} JoinSplitFrom(s: Bytes, a: Bytes, b: Bytes, start: nat, i: nat)
    requires a != [] && start <= i <= |s|
    ensures Join(b, SplitFrom(s, a, start, i)) == s[start..i] + ReplaceFrom(s, a, b, i)
    decreases |s| - i
  {
    hide SplitFrom, ReplaceFrom, Join, At;
    SplitStep(s, a, start, i);
    if i < |s| { ReplaceStep(s, a, b, i); }
    if i + |a| > |s| {
      TailIsCopied(s, a, b, i);
      JoinOne(b, s[start..]);
      TwoParts(s, start, i);
    } else if At(s, i, a) {
      var j := i + |a|;
      JoinSplitFrom(s, a, b, j, j);
      JoinMore(b, s[start..i], SplitFrom(s, a, j, j));
      NothingBefore(s, j, ReplaceFrom(s, a, b, j));
      Grouped(s[start..i], b, ReplaceFrom(s, a, b, j));
    } else {
      JoinSplitFrom(s, a, b, start, i + 1);
      OneMore(s, start, i, ReplaceFrom(s, a, b, i + 1));
    }
  }

  lemma TwoParts(s: Bytes, start: nat, i: nat)
    requires start <= i <= |s|
    ensures s[start..] == s[start..i] + s[i..]
  {}

  lemma JoinOne(sep: Bytes, x: Bytes)
    ensures Join(sep, [x]) == x
  {}

  lemma NothingBefore(s: Bytes, j: nat, rest: Bytes)
    requires j <= |s|
    ensures s[j..j] + rest == rest
  {}

  lemma Grouped(x: Bytes, b: Bytes, rest: Bytes)
    ensures x + b + rest == x + (b + rest)
  {}

  lemma OneMore(s: Bytes, start: nat, i: nat, rest: Bytes)
    requires start <= i < |s|
    ensures s[start..i + 1] + rest == s[start..i] + ([s[i]] + rest)
  {}

  /** Replacing is splitting by the old text and joining with the new one. */
  lemma ReplaceIsJoinOfSplit(s: Bytes, a: Bytes, b: Bytes)
    requires a != []
    ensures Replace(s, a, b) == Join(b, Split(s, a))
  {
    JoinSplitFrom(s, a, b, 0, 0);
    NothingBefore(s, 0, ReplaceFrom(s, a, b, 0));
  }

  /** Replacing a text by itself changes nothing. */
  lemma {:induction false} ReplaceBySelf(s: Bytes, a: Bytes, i: nat)
    requires a != [] && i <= |s|
    ensures ReplaceFrom(s, a, a, i) == s[i..]
    decreases |s| - i
  {
    if i < |s| && At(s, i, a) {
      ReplaceBySelf(s, a, i + |a|);
      assert s[i..] == s[i..i + |a|] + s[i + |a|..];
    } else if i < |s| {
      ReplaceBySelf(s, a, i + 1);
      assert s[i..] == [s[i]] + s[i + 1..];
    }
  }

  lemma {:induction false} JoinCharacters(s: Bytes, i: nat)
    requires i <= |s|
    ensures Join([], CharactersFrom(s, i)) == s[i..]
    decreases |s| - i
  {
    if i < |s| {
      var j := i + Width(s, i);
      JoinCharacters(s, j);
      JoinMore([], s[i..j], CharactersFrom(s, j));
      assert s[i..] == s[i..j] + s[j..];
      if CharactersFrom(s, j) == [] { assert j == |s|; }
    }
  }

  /** Joining the parts of a split with the separator gives the text back, the empty separator included. */
  lemma JoinUndoesSplit(s: Bytes, sep: Bytes)
    ensures Join(sep, Split(s, sep)) == s
  {
    if sep == [] {
      JoinCharacters(s, 0);
    } else {
      ReplaceIsJoinOfSplit(s, sep, sep);
      ReplaceBySelf(s, sep, 0);
    }
    assert s[0..] == s;
  }

  // ---------------------------------------------------------------- counting

  lemma {:induction false} SplitFromCount(s: Bytes, sep: Bytes, start: nat, i: nat)
    requires sep != [] && start <= i <= |s|
    ensures |SplitFrom(s, sep, start, i)| == CountFrom(s, sep, i) + 1
    decreases |s| - i
  {
    SplitStep(s, sep, start, i);
    hide SplitFrom, At;
    if i + |sep| <= |s| {
      if At(s, i, sep) {
        SplitFromCount(s, sep, i + |sep|, i + |sep|);
      } else {
        SplitFromCount(s, sep, start, i + 1);
      }
    }
  }

  /** A non-empty separator gives one part more than it is counted. */
  lemma PartsAreCounted(s: Bytes, sep: Bytes)
    requires sep != []
    ensures |Split(s, sep)| == Count(s, sep) + 1
  {
    SplitFromCount(s, sep, 0, 0);
  }

  lemma TimesSuccessor(n: int, m: int)
    ensures (n + 1) * m == n * m + m
  {}

  /** The length computed before anything is written is the length written. */
  lemma {:induction false} ReplacedLength(s: Bytes, a: Bytes, b: Bytes, i: nat)
    requires a != [] && i <= |s|
    ensures |ReplaceFrom(s, a, b, i)| == |s| - i + CountFrom(s, a, i) * (|b| - |a|)
    decreases |s| - i
  {
    if i + |a| > |s| {
      TailIsCopied(s, a, b, i);
    } else if At(s, i, a) {
      ReplacedLength(s, a, b, i + |a|);
      TimesSuccessor(CountFrom(s, a, i + |a|), |b| - |a|);
    } else {
      ReplacedLength(s, a, b, i + 1);
    }
  }

  // ---------------------------------------------------------------- the parts of a split

  /** No needle starts before position `n`. */
  predicate FreeUpTo(s: Bytes, n: nat, sep: Bytes) { forall i :: 0 <= i < n ==> !At(s, i, sep) }

  /** Every separator is the first one after the part before it, and the last part has none. */
  predicate Leftmost(parts: seq<Bytes>, sep: Bytes) {
    && parts != []
    && (forall k :: 0 <= k < |parts| - 1 ==> FreeUpTo(parts[k] + sep, |parts[k]|, sep))
    && FreeUpTo(parts[|parts| - 1], |parts[|parts| - 1]| + 1, sep)
  }

  lemma {:induction false} LeftmostMore(x: Bytes, parts: seq<Bytes>, sep: Bytes)
    requires Leftmost(parts, sep) && FreeUpTo(x + sep, |x|, sep)
    ensures Leftmost([x] + parts, sep)
  {}

  lemma AtInside(s: Bytes, from: nat, to: nat, j: nat, sep: Bytes)
    requires from <= to <= |s|
    ensures At(s[from..to], j, sep) <==> from + j + |sep| <= to && At(s, from + j, sep)
  {
    if from + j + |sep| <= to { SubSlice(s, from, to, j, j + |sep|); }
  }

  lemma SubSlice(s: Bytes, from: nat, to: nat, j: nat, k: nat)
    requires from <= to <= |s| && j <= k <= to - from
    ensures s[from..to][j..k] == s[from + j..from + k]
  {
    forall i | 0 <= i < k - j ensures s[from..to][j..k][i] == s[from + j..from + k][i] {
      assert s[from..to][j + i] == s[from + j + i];
    }
  }

  lemma FreeInside(s: Bytes, from: nat, to: nat, n: nat, sep: Bytes)
    requires from <= to <= |s| && forall j :: from <= j < from + n && j + |sep| <= to ==> !At(s, j, sep)
    ensures FreeUpTo(s[from..to], n, sep)
  {
    forall j | 0 <= j < n ensures !At(s[from..to], j, sep) { AtInside(s, from, to, j, sep); }
  }

  lemma {:induction false} SplitFromLeftmost(s: Bytes, sep: Bytes, start: nat, i: nat)
    requires sep != [] && start <= i <= |s| && forall j :: start <= j < i ==> !At(s, j, sep)
    ensures Leftmost(SplitFrom(s, sep, start, i), sep)
    decreases |s| - i
  {
    if i + |sep| > |s| {
      FreeInside(s, start, |s|, |s| - start + 1, sep);
      assert s[start..] == s[start..|s|];
    } else if At(s, i, sep) {
      var j := i + |sep|;
      FreeInside(s, start, j, i - start, sep);
      assert s[start..j] == s[start..i] + sep;
      SplitFromLeftmost(s, sep, j, j);
      LeftmostMore(s[start..i], SplitFrom(s, sep, j, j), sep);
    } else {
      SplitFromLeftmost(s, sep, start, i + 1);
    }
  }

  /** No part of a split contains the separator. */
  lemma PartsHaveNoSeparator(s: Bytes, sep: Bytes, k: nat, i: nat)
    requires sep != [] && k < |Split(s, sep)|
    ensures !At(Split(s, sep)[k], i, sep)
  {
    SplitFromLeftmost(s, sep, 0, 0);
    var x := Split(s, sep)[k];
    assert (x + sep)[0..|x|] == x;
    AtInside(x + sep, 0, |x|, i, sep);
  }

  // ---------------------------------------------------------------- a split is determined by its parts

  /** The place of the first separator decides the first part. */
  lemma FirstPart(s: Bytes, sep: Bytes, from: nat, i: nat, x: Bytes, rest: Bytes)
    requires sep != [] && from <= i <= from + |x| && from <= |s| && s[from..|s|] == x + sep + rest
    requires FreeUpTo(x + sep, |x|, sep)
    ensures At(s, i, sep) <==> i == from + |x|
  {
    var t := x + sep + rest;
    AtInside(s, from, |s|, i - from, sep);
    AtInside(t, 0, |x| + |sep|, i - from, sep);
    assert t[0..|x| + |sep|] == x + sep && t[|x|..|x| + |sep|] == sep;
  }

  lemma {:induction false} ScanToPart(s: Bytes, sep: Bytes, from: nat, i: nat, x: Bytes, rest: Bytes)
    requires sep != [] && from <= i <= from + |x| && from <= |s| && s[from..|s|] == x + sep + rest
    requires FreeUpTo(x + sep, |x|, sep)
    ensures var next := from + |x| + |sep|;
            SplitFrom(s, sep, from, i) == [x] + SplitFrom(s, sep, next, next)
    decreases from + |x| - i
  {
    FirstPart(s, sep, from, i, x, rest);
    SplitStep(s, sep, from, i);
    hide SplitFrom, FreeUpTo;
    if i == from + |x| {
      PartOf(s, from, x, sep, rest);
    } else {
      ScanToPart(s, sep, from, i + 1, x, rest);
    }
  }

  lemma PartOf(s: Bytes, from: nat, x: Bytes, sep: Bytes, rest: Bytes)
    requires from <= |s| && s[from..|s|] == x + sep + rest
    ensures s[from..from + |x|] == x && s[from + |x| + |sep|..|s|] == rest
  {
    var t := x + sep + rest;
    SubSlice(s, from, |s|, 0, |x|);
    SubSlice(s, from, |s|, |x| + |sep|, |t|);
    assert t[0..|x|] == x && t[|x| + |sep|..|t|] == rest;
  }

  lemma {:induction false} ScanToEnd(s: Bytes, sep: Bytes, from: nat, i: nat)
    requires sep != [] && from <= i <= |s| && FreeUpTo(s[from..|s|], |s| - from + 1, sep)
    ensures SplitFrom(s, sep, from, i) == [s[from..|s|]]
    decreases |s| - i
  {
    SplitStep(s, sep, from, i);
    AtInside(s, from, |s|, i - from, sep);
    if i + |sep| > |s| {
      assert s[from..] == s[from..|s|];
    } else {
      ScanToEnd(s, sep, from, i + 1);
    }
  }

  lemma {:induction false} LeftmostRest(parts: seq<Bytes>, sep: Bytes)
    requires Leftmost(parts, sep) && |parts| > 1
    ensures Leftmost(parts[1..], sep) && FreeUpTo(parts[0] + sep, |parts[0]|, sep)
  {}

  lemma {:induction false} ScanGivesParts(s: Bytes, sep: Bytes, from: nat, parts: seq<Bytes>)
    requires sep != [] && Leftmost(parts, sep) && from <= |s| && Join(sep, parts) == s[from..|s|]
    ensures SplitFrom(s, sep, from, from) == parts
    decreases |parts|
  {
    if |parts| == 1 {
      ScanToEnd(s, sep, from, from);
    } else {
      var x, rest := parts[0], Join(sep, parts[1..]);
      var next := from + |x| + |sep|;
      LeftmostRest(parts, sep);
      hide Leftmost, FreeUpTo, SplitFrom;
      PartOf(s, from, x, sep, rest);
      ScanToPart(s, sep, from, from, x, rest);
      ScanGivesParts(s, sep, next, parts[1..]);
    }
  }

  /** A split is the only list of parts that joins to the text with every separator leftmost. */
  lemma SplitIsUnique(s: Bytes, sep: Bytes, parts: seq<Bytes>)
    requires sep != []
    ensures Split(s, sep) == parts <==> Leftmost(parts, sep) && Join(sep, parts) == s
  {
    JoinUndoesSplit(s, sep);
    SplitFromLeftmost(s, sep, 0, 0);
    assert s[0..|s|] == s;
    if Leftmost(parts, sep) && Join(sep, parts) == s { ScanGivesParts(s, sep, 0, parts); }
  }
}
