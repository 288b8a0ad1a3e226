/**
 The loops of `sere_string_count`, `sere_string_split`, `sere_string_replace` and
 `sere_string_join` in runtime/sere_sys.c over their buffers.
 */
module StringLoops {
  import opened Words
  import opened StringParts

  // ---------------------------------------------------------------- counting and splitting

  /** The counting loop that `sere_string_count` and `sere_string_replace` share. */
  method CountLoop(s: Bytes, sep: Bytes) returns (count: nat)
    requires sep != []
    ensures count == CountFrom(s, sep, 0)
  {
    count := 0;
    var index := 0;
    while index + |sep| <= |s|
      invariant index <= |s| && count + CountFrom(s, sep, index) == CountFrom(s, sep, 0)
    {
      if s[index..index + |sep|] == sep {
        count := count + 1;
        index := index + |sep|;
      } else {
        index := index + 1;
      }
    }
  }

  method CountText(s: Bytes, needle: Bytes) returns (count: nat)
    ensures count == Count(s, needle)
  {
    if |needle| == 0 || |needle| > |s| { return 0; }
    count := CountLoop(s, needle);
  }

  /** The masks of the lead byte: its top three, four or five bits. */
  method LeadWidth(s: Bytes, index: nat) returns (width: nat)
    requires index < |s|
    ensures width == Width(s, index)
  {
    var lead := s[index];
    width := if lead < 0x80 then 1
             else if lead / 32 == 6 then 2
             else if lead / 16 == 14 then 3
             else if lead / 8 == 30 then 4
             else 1;
    if index + width > |s| { width := 1; }
  }

  lemma CharactersStep(s: Bytes, i: nat)
    requires i <= |s|
    ensures i == |s| ==> CharactersFrom(s, i) == []
    ensures i < |s| ==>
            CharactersFrom(s, i) == [s[i..i + Width(s, i)]] + CharactersFrom(s, i + Width(s, i))
  {}

  method SplitCharacters(s: Bytes) returns (parts: seq<Bytes>)
    ensures parts == CharactersFrom(s, 0)
  {
    parts := [];
    var index := 0;
    CharactersStep(s, |s|);
    hide CharactersFrom, Width;
    while index < |s|
      invariant 0 <= index <= |s| && parts + CharactersFrom(s, index) == CharactersFrom(s, 0)
    {
      CharactersStep(s, index);
      var width := LeadWidth(s, index);
      PushPart(parts, s[index..index + width], CharactersFrom(s, index + width));
      parts := parts + [s[index..index + width]];
      index := index + width;
    }
  }

  /** `sere_string_split`, for a text and a separator that are not null. */
  method SplitText(s: Bytes, sep: Bytes) returns (parts: seq<Bytes>)
    ensures parts == Split(s, sep)
  {
    if |sep| == 0 {
      parts := SplitCharacters(s);
      return;
    }
    parts := [];
    var start: nat, index: nat := 0, 0;
    assert [] + SplitFrom(s, sep, 0, 0) == Split(s, sep);
    hide SplitFrom, Split;
    while index + |sep| <= |s|
      invariant start <= index <= |s| && parts + SplitFrom(s, sep, start, index) == Split(s, sep)
    {
      SplitStep(s, sep, start, index);
      if s[index..index + |sep|] == sep {
        PushPart(parts, s[start..index], SplitFrom(s, sep, index + |sep|, index + |sep|));
        parts := parts + [s[start..index]];
        index := index + |sep|;
        start := index;
      } else {
        index := index + 1;
      }
    }
    SplitStep(s, sep, start, index);
    parts := parts + [s[start..]];
  }

  lemma PushPart(parts: seq<Bytes>, x: Bytes, rest: seq<Bytes>)
    ensures parts + ([x] + rest) == (parts + [x]) + rest
  {}

  // ---------------------------------------------------------------- writing into a buffer

  lemma AppendMore(done: Bytes, x: Bytes, rest: Bytes)
    ensures done + (x + rest) == (done + x) + rest
  {}

  /** `memcpy` of a whole text to the end of what is written. */
  method Write(out: array<Byte>, n: nat, x: Bytes, ghost rest: Bytes)
    requires n + |x| <= out.Length
    modifies out
    ensures out[..n + |x|] == old(out[..n]) + x
    ensures out[..n + |x|] + rest == old(out[..n]) + (x + rest)
  {
    AppendMore(out[..n], x, rest);
    forall j | 0 <= j < |x| { out[n + j] := x[j]; }
    assert out[..n + |x|] == old(out[..n]) + x;
  }

  /** `copyBytes`. */
  method CopyBytes(s: Bytes) returns (out: array<Byte>, n: nat)
    ensures out.Length == n + 1 && out[..n] == s && out[n] == 0
  {
    n := |s|;
    out := new Byte[n + 1];
    forall j | 0 <= j < n { out[j] := s[j]; }
    out[n] := 0;
  }

  /** One round of the writing loop of `sere_string_replace`. */
  method ReplaceRound(s: Bytes, a: Bytes, b: Bytes, index: nat, out: array<Byte>, n: nat)
      returns (index': nat, n': nat)
    requires a != [] && index < |s| && n + |ReplaceFrom(s, a, b, index)| < out.Length
    modifies out
    ensures index < index' <= |s| && n' + |ReplaceFrom(s, a, b, index')| < out.Length
    ensures out[..n'] + ReplaceFrom(s, a, b, index') == old(out[..n]) + ReplaceFrom(s, a, b, index)
  {
    ReplaceStep(s, a, b, index);
    hide ReplaceFrom;
    if index + |a| <= |s| && s[index..index + |a|] == a {
      index', n' := index + |a|, n + |b|;
      Write(out, n, b, ReplaceFrom(s, a, b, index'));
    } else {
      index', n' := index + 1, n + 1;
      Write(out, n, [s[index]], ReplaceFrom(s, a, b, index'));
    }
  }

  /** `sere_string_replace`: the first pass sizes the buffer, the second fills it exactly. */
  method ReplaceText(s: Bytes, a: Bytes, b: Bytes) returns (out: array<Byte>, n: nat)
    ensures out.Length == n + 1 && out[..n] == Replace(s, a, b) && out[n] == 0
  {
    if |s| == 0 || |a| == 0 {
      out, n := CopyBytes(s);
      return;
    }
    var count := CountLoop(s, a);
    var total := |s| + count * (|b| - |a|);
    ReplacedLength(s, a, b, 0);
    out := new Byte[total + 1];
    n := 0;
    var index := 0;
    assert out[..n] + ReplaceFrom(s, a, b, 0) == Replace(s, a, b);
    while index < |s|
      invariant 0 <= index <= |s| && n + |ReplaceFrom(s, a, b, index)| < out.Length
      invariant out[..n] + ReplaceFrom(s, a, b, index) == Replace(s, a, b)
    {
      index, n := ReplaceRound(s, a, b, index, out, n);
    }
    out[n] := 0;
  }

  /** The bytes the parts and their separators take from position `k` on. */
  function JoinFrom(sep: Bytes, parts: seq<Bytes>, k: nat): Bytes
    requires k <= |parts|
  {
    Join(sep, parts[k..])
  }

  lemma JoinFromStep(sep: Bytes, parts: seq<Bytes>, k: nat)
    requires k < |parts|
    ensures JoinFrom(sep, parts, k) ==
            parts[k] + ((if k + 1 < |parts| then sep else []) + JoinFrom(sep, parts, k + 1))
  {
    var rest := parts[k..];
    assert rest[1..] == parts[k + 1..] && rest[0] == parts[k];
    if k + 1 == |parts| {
      assert parts[k] + ([] + []) == parts[k];
    } else {
      AppendMore(parts[k], sep, JoinFrom(sep, parts, k + 1));
    }
  }

  lemma JoinFromEnds(sep: Bytes, parts: seq<Bytes>)
    ensures JoinFrom(sep, parts, 0) == Join(sep, parts) && JoinFrom(sep, parts, |parts|) == []
  {
    assert parts[0..] == parts && parts[|parts|..] == [];
  }

  /** One round of the writing loop of `sere_string_join`: a part and the separator behind it. */
  method JoinRound(sep: Bytes, parts: seq<Bytes>, k: nat, out: array<Byte>, n: nat) returns (n': nat)
    requires k < |parts| && n + |JoinFrom(sep, parts, k)| < out.Length
    modifies out
    ensures n' + |JoinFrom(sep, parts, k + 1)| == n + |JoinFrom(sep, parts, k)|
    ensures out[..n'] + JoinFrom(sep, parts, k + 1) == old(out[..n]) + JoinFrom(sep, parts, k)
  {
    hide JoinFrom, Join;
    JoinFromStep(sep, parts, k);
    var gap := if k + 1 < |parts| then sep else [];
    Write(out, n, parts[k], gap + JoinFrom(sep, parts, k + 1));
    n' := n + |parts[k]|;
    Write(out, n', gap, JoinFrom(sep, parts, k + 1));
    n' := n' + |gap|;
  }

  /** The sizing loop of `sere_string_join`. */
  method JoinedLength(sep: Bytes, parts: seq<Bytes>) returns (total: nat)
    ensures total == |Join(sep, parts)|
  {
    hide JoinFrom, Join;
    total := 0;
    JoinFromEnds(sep, parts);
    for k := 0 to |parts|
      invariant total + |JoinFrom(sep, parts, k)| == |Join(sep, parts)|
    {
      JoinFromStep(sep, parts, k);
      total := total + |parts[k]|;
      if k + 1 < |parts| { total := total + |sep|; }
    }
  }

  /** `sere_string_join` over a list of strings. */
  method JoinText(sep: Bytes, parts: seq<Bytes>) returns (out: array<Byte>, n: nat)
    ensures out.Length == n + 1 && out[..n] == Join(sep, parts) && out[n] == 0
  {
    hide JoinFrom, Join;
    var total := JoinedLength(sep, parts);
    out := new Byte[total + 1];
    n := 0;
    JoinFromEnds(sep, parts);
    assert out[..0] + JoinFrom(sep, parts, 0) == Join(sep, parts);
    for k := 0 to |parts|
      invariant n + |JoinFrom(sep, parts, k)| == total && out[..n] + JoinFrom(sep, parts, k) == Join(sep, parts)
    {
      n := JoinRound(sep, parts, k, out, n);
    }
    assert out[..n] + [] == out[..n];
    out[n] := 0;
  }
}
