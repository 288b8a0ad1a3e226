/**
 Splitting, joining, counting and replacing on texts whose parts are given, by slices alone.

 Together these laws determine the four operations: a text either has no separator or is a part
 without one, the separator, and a rest.
 */
module StringLaws {
  import opened Words
  import opened StringParts

  /** No separator starts anywhere in the text. */
  predicate Without(s: Bytes, sep: Bytes) { forall i :: 0 <= i <= |s| ==> !(sep <= s[i..]) }

  /** The first separator of `x + sep` is the one at its end. */
  predicate EndsFirst(x: Bytes, sep: Bytes) { forall i :: 0 <= i < |x| ==> !(sep <= (x + sep)[i..]) }

  lemma StartsAt(s: Bytes, i: nat, sep: Bytes)
    requires i <= |s|
    ensures At(s, i, sep) <==> sep <= s[i..]
  {
    if i + |sep| <= |s| { assert s[i..][..|sep|] == s[i..i + |sep|]; }
  }

  lemma WithoutIsFree(s: Bytes, sep: Bytes)
    requires Without(s, sep) && sep != []
    ensures FreeUpTo(s, |s| + 1, sep)
  {
    forall i | 0 <= i < |s| + 1 ensures !At(s, i, sep) { StartsAt(s, i, sep); }
  }

  lemma EndsFirstIsFree(x: Bytes, sep: Bytes)
    requires EndsFirst(x, sep)
    ensures FreeUpTo(x + sep, |x|, sep)
  {
    forall i | 0 <= i < |x| ensures !At(x + sep, i, sep) { StartsAt(x + sep, i, sep); }
  }

  lemma JoinOfOne(sep: Bytes, x: Bytes)
    ensures Join(sep, []) == [] && Join(sep, [x]) == x
  {}

  lemma JoinOfMore(sep: Bytes, x: Bytes, y: Bytes, rest: seq<Bytes>)
    ensures Join(sep, [x, y] + rest) == x + sep + Join(sep, [y] + rest)
  {
    assert [x, y] + rest == [x] + ([y] + rest);
    JoinMore(sep, x, [y] + rest);
  }

  /** A text without the separator is its only part, counts none, and is not changed. */
  lemma NothingToSplit(s: Bytes, sep: Bytes, b: Bytes)
    requires sep != [] && Without(s, sep)
    ensures Split(s, sep) == [s] && Count(s, sep) == 0 && Replace(s, sep, b) == s
  {
    WithoutIsFree(s, sep);
    assert Leftmost([s], sep);
    JoinOfOne(sep, s);
    hide Split, Join, Leftmost, Replace, Count;
    SplitIsUnique(s, sep, [s]);
    PartsAreCounted(s, sep);
    ReplaceIsJoinOfSplit(s, sep, b);
    JoinOfOne(b, s);
  }

  /** A part, its separator and a rest: the part comes first, one more is counted, and one is replaced. */
  lemma SplitAtFirst(x: Bytes, sep: Bytes, y: Bytes, b: Bytes)
    requires sep != [] && EndsFirst(x, sep)
    ensures Split(x + sep + y, sep) == [x] + Split(y, sep)
    ensures Count(x + sep + y, sep) == 1 + Count(y, sep)
    ensures Replace(x + sep + y, sep, b) == x + b + Replace(y, sep, b)
  {
    var s, rest := x + sep + y, Split(y, sep);
    PartsAreCounted(y, sep);
    EndsFirstIsFree(x, sep);
    hide Split, Join, Leftmost, Replace, Count, FreeUpTo, EndsFirst;
    SplitIsUnique(y, sep, rest);
    LeftmostMore(x, rest, sep);
    JoinMore(sep, x, rest);
    SplitIsUnique(s, sep, [x] + rest);
    PartsAreCounted(s, sep);
    ReplaceIsJoinOfSplit(s, sep, b);
    ReplaceIsJoinOfSplit(y, sep, b);
    JoinMore(b, x, rest);
  }

  /** An empty separator counts and replaces nothing. */
  lemma NoSeparator(s: Bytes, b: Bytes)
    ensures Count(s, []) == 0 && Replace(s, [], b) == s && Split([], []) == []
  {}

  /**
   With it a text is cut into characters: the lead byte says how many bytes belong together, and one
   that announces more than there are stands alone.
   */
  lemma CharacterComesFirst(s: Bytes)
    requires s != []
    ensures var lead := s[0];
            var announced := if 0xC0 <= lead < 0xE0 then 2 else if 0xE0 <= lead < 0xF0 then 3 else if 0xF0 <= lead < 0xF8 then 4 else 1;
            var w := if announced <= |s| then announced else 1;
            Split(s, []) == [s[..w]] + Split(s[w..], [])
  {
    var w := Width(s, 0);
    CharactersShift(s, w, 0);
  }

  lemma {:induction false} CharactersShift(s: Bytes, k: nat, i: nat)
    requires k + i <= |s|
    ensures CharactersFrom(s, k + i) == CharactersFrom(s[k..], i)
    decreases |s| - i
  {
    if k + i < |s| {
      var w := Width(s, k + i);
      assert s[k..][i] == s[k + i] && w == Width(s[k..], i);
      assert s[k..][i..i + w] == s[k + i..k + i + w];
      CharactersShift(s, k, i + w);
    }
  }
}
