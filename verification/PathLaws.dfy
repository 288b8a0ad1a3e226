/**
 What a path means and what its normal form looks like, read off the characters of the path.

 The laws take a path apart at its last slash, so that they lean on neither the splitting into
 components nor the walk over them.
 */
module PathLaws {
  import opened PathText

  /** Where a name leads from a directory. */
  function Went(dir: seq<string>, c: string): seq<string> {
    if c == "" || c == "." then dir
    else if c == ".." then (if dir == [] then [] else dir[..|dir| - 1])
    else dir + [c]
  }

  lemma CompsStep(w: string)
    requires w != ""
    ensures w[0] == '/' ==> Comps(w) == Comps(w[1..])
    ensures w[0] != '/' ==> Run(w) > 0 && Comps(w) == [w[..Run(w)]] + Comps(w[Run(w)..])
  {}

  lemma Behind(w: string, n: nat, c: string)
    requires n <= |w|
    ensures w + "/" + c == w[..n] + (w[n..] + "/" + c) && (w + "/" + c)[n..] == w[n..] + "/" + c
    ensures (w + "/" + c)[0] == if w == "" then '/' else w[0]
    ensures n < |w| ==> (w[n..] + "/" + c)[0] == w[n]
    ensures n == |w| ==> (w[n..] + "/" + c)[0] == '/'
  {}

  lemma SeqMore(x: seq<string>, y: seq<string>, z: seq<string>)
    ensures x + (y + z) == x + y + z
  {}

  lemma {:induction false} CompsOfMore(w: string, c: string)
    requires '/' !in c
    ensures Comps(w + "/" + c) == Comps(w) + Comps(c)
    decreases |w|
  {
    var t := w + "/" + c;
    if w == "" {
      Behind(w, 0, c);
      assert t[1..] == c;
    } else {
      hide Comps, Run;
      CompsStep(w);
      CompsStep(t);
      Behind(w, 1, c);
      if w[0] == '/' {
        CompsOfMore(w[1..], c);
      } else {
        var n := Run(w);
        Behind(w, n, c);
        CompsOfOne(w[..n], w[n..] + "/" + c);
        CompsOfMore(w[n..], c);
        SeqMore([w[..n]], Comps(w[n..]), Comps(c));
      }
    }
  }

  lemma CompsOfName(c: string)
    requires '/' !in c
    ensures Comps(c) == if c == "" then [] else [c]
  {
    if c != "" {
      CompsOfOne(c, "");
      assert c + "" == c;
    }
  }

  lemma WalkOne(dir: seq<string>, s: seq<string>, c: string)
    requires '/' !in c
    ensures Walk(dir, s + Comps(c)) == Went(Walk(dir, s), c)
  {
    CompsOfName(c);
    if c == "" { assert s + [] == s; } else { WalkSnoc(dir, s, c); }
  }

  /** A name behind a slash goes one step on from where the path before it leads. */
  lemma LastName(base: seq<string>, w: string, c: string)
    requires w != "" && '/' !in c
    ensures Resolve(base, w + "/" + c) == Went(Resolve(base, w), c)
  {
    CompsOfMore(w, c);
    assert (w + "/" + c)[0] == w[0];
    WalkOne(if Absolute(w) then [] else base, Comps(w), c);
  }

  /** A single name starts at the base, and behind a slash at the root. */
  lemma FirstName(base: seq<string>, c: string)
    requires '/' !in c
    ensures Resolve(base, c) == Went(base, c) && Resolve(base, "/" + c) == Went([], c)
  {
    CompsOfMore("", c);
    assert "" + "/" + c == "/" + c && [] + Comps(c) == Comps(c);
    WalkOne(base, [], c);
    WalkOne([], [], c);
  }

  // ---------------------------------------------------------------- the normal form's text

  /** The names with a slash between each two. */
  function Slashed(names: seq<string>): string {
    if names == [] then ""
    else if |names| == 1 then names[0]
    else Slashed(names[..|names| - 1]) + "/" + names[|names| - 1]
  }

  lemma {:induction false} SlashedMore(x: string, names: seq<string>)
    requires names != []
    ensures Slashed([x] + names) == x + "/" + Slashed(names)
    decreases |names|
  {
    var all := [x] + names;
    var n := |names|;
    assert all[..|all| - 1] == [x] + names[..n - 1] && all[|all| - 1] == names[n - 1];
    if n > 1 {
      SlashedMore(x, names[..n - 1]);
      Grouped(x, Slashed(names[..n - 1]), names[n - 1]);
    } else {
      assert names[..0] == [] && [x] + [] == [x] && names == [names[0]];
    }
  }

  lemma Grouped(x: string, y: string, z: string)
    ensures (x + "/" + y) + "/" + z == x + "/" + (y + "/" + z)
  {}

  lemma {:induction false} JoinIsSlashed(cs: seq<string>)
    ensures Join(cs) == Slashed(cs)
  {
    if |cs| > 1 {
      JoinIsSlashed(cs[1..]);
      SlashedMore(cs[0], cs[1..]);
      assert cs == [cs[0]] + cs[1..];
    }
  }

  /**
   A normal form is some parent steps, none under a root, and then names that are neither dots nor
   empty, with single slashes between; nothing at all is written as a dot.
   */
  lemma NormalShape(w: string) returns (ups: nat, names: seq<string>)
    ensures forall i :: 0 <= i < |names| ==> names[i] != "" && names[i] != "." && names[i] != ".." && '/' !in names[i]
    ensures var rooted := w != "" && w[0] == '/'; var text := Slashed(seq(ups, _ => "..") + names);
            && (rooted ==> ups == 0)
            && Normalize(w) == if rooted then "/" + text else if ups == 0 && names == [] then "." else text
  {
    hide Normal, Stack, Render, Reduce, UpCount, Names, Slashed, Join, Comps;
    NormalFormReads(w);
    var s := Stack(w);
    ups, names := UpCount(s), Names(s);
    NamesAreProper(Absolute(w), s);
    StackParts(s);
    JoinIsSlashed(s);
    StackText(Absolute(w), s);
    Rendered(w);
  }

  lemma Rendered(w: string)
    ensures Normalize(w) == Render(Absolute(w), Stack(w))
  {}

  lemma StackParts(s: seq<string>)
    ensures seq(UpCount(s), _ => "..") + Names(s) == s
  {}

  lemma NamesAreProper(rooted: bool, s: seq<string>)
    requires Normal(rooted, s)
    ensures var names := Names(s);
            forall i :: 0 <= i < |names| ==> names[i] != "" && names[i] != "." && names[i] != ".." && '/' !in names[i]
  {
    var ups, names := UpCount(s), Names(s);
    NormalIsAnyway(rooted, s);
    forall i | 0 <= i < |names| ensures names[i] != "" && names[i] != "." && names[i] != ".." && '/' !in names[i] {
      NamesHaveNoUp(s, ups + i);
      assert names[i] == s[ups + i];
    }
  }

  lemma NormalIsAnyway(rooted: bool, s: seq<string>)
    requires Normal(rooted, s)
    ensures Normal(false, s)
  {}

  lemma StackText(rooted: bool, s: seq<string>)
    requires Normal(rooted, s)
    ensures rooted ==> UpCount(s) == 0
    ensures Join(s) == "" <==> s == []
    ensures UpCount(s) == 0 && Names(s) == [] <==> s == []
    ensures Render(rooted, s) == if rooted then "/" + Join(s) else if s == [] then "." else Join(s)
  {
    JoinStart(s);
    assert "" + Join(s) == Join(s);
  }
}
