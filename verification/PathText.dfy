/**
 Lexical path normalisation of runtime/sere_sys.c (the POSIX branch): meaning and canonical form.

 A path is a C string, so it holds no NUL. `Resolve` is what a path means from a base directory.
 */
module PathText {

  type Comp = string

  predicate Proper(c: Comp) { c != "" && '/' !in c }

  predicate AllProper(cs: seq<Comp>) { forall i :: 0 <= i < |cs| ==> Proper(cs[i]) }

  // ---------------------------------------------------------------- splitting and joining

  /** The length of the run of characters other than '/' at the front. */
  function Run(w: string): (n: nat)
    ensures n <= |w| && '/' !in w[..n] && (n < |w| ==> w[n] == '/')
  {
    if w == "" || w[0] == '/' then 0 else 1 + Run(w[1..])
  }

  /** The non-empty components between separators. */
  function Comps(w: string): (cs: seq<Comp>)
    ensures AllProper(cs)
    decreases |w|
  {
    if w == "" then []
    else if w[0] == '/' then Comps(w[1..])
    else [w[..Run(w)]] + Comps(w[Run(w)..])
  }

  function Join(cs: seq<Comp>): string {
    if cs == [] then ""
    else if |cs| == 1 then cs[0]
    else cs[0] + "/" + Join(cs[1..])
  }

  predicate Absolute(w: string) { w != "" && w[0] == '/' }

  // ---------------------------------------------------------------- the component stack

  predicate Up(c: Comp) { c == ".." }

  /** What one component does to the stack the source keeps. */
  function Push(rooted: bool, stack: seq<Comp>, c: Comp): seq<Comp> {
    if c == "." then stack
    else if Up(c) then
      if stack != [] && !Up(stack[|stack| - 1]) then stack[..|stack| - 1]
      else if !rooted then stack + [c]
      else stack
    else stack + [c]
  }

  function Reduce(rooted: bool, stack: seq<Comp>, cs: seq<Comp>): seq<Comp>
    decreases |cs|
  {
    if cs == [] then stack else Reduce(rooted, Push(rooted, stack, cs[0]), cs[1..])
  }

  function Render(rooted: bool, stack: seq<Comp>): string {
    var text := (if rooted then "/" else "") + Join(stack);
    if text == "" then "." else text
  }

  /** `osNormalizeC`. */
  function Normalize(w: string): string {
    Render(Absolute(w), Reduce(Absolute(w), [], Comps(w)))
  }

  // ---------------------------------------------------------------- meaning

  /** One step of walking the directory tree lexically; the root is its own parent. */
  function Step(dir: seq<Comp>, c: Comp): seq<Comp> {
    if c == "." then dir
    else if Up(c) then (if dir == [] then [] else dir[..|dir| - 1])
    else dir + [c]
  }

  function Walk(dir: seq<Comp>, cs: seq<Comp>): seq<Comp>
    decreases |cs|
  {
    if cs == [] then dir else Walk(Step(dir, cs[0]), cs[1..])
  }

  /** The directory a path names, seen from `base`. */
  function Resolve(base: seq<Comp>, w: string): seq<Comp> {
    Walk(if Absolute(w) then [] else base, Comps(w))
  }

  // ---------------------------------------------------------------- split and join are inverse

  lemma {:induction false} RunOf(x: string, rest: string)
    requires '/' !in x && (rest == "" || rest[0] == '/')
    ensures Run(x + rest) == |x|
    decreases |x|
  {
    if x == "" {
      assert x + rest == rest;
    } else {
      assert (x + rest)[1..] == x[1..] + rest;
      RunOf(x[1..], rest);
    }
  }

  lemma CompsOfOne(x: Comp, rest: string)
    requires Proper(x) && (rest == "" || rest[0] == '/')
    ensures Comps(x + rest) == [x] + Comps(rest)
  {
    RunOf(x, rest);
    assert (x + rest)[..|x|] == x && (x + rest)[|x|..] == rest;
    assert (x + rest)[0] == x[0];
  }

  lemma {:induction false} CompsOfJoin(cs: seq<Comp>)
    requires AllProper(cs)
    ensures Comps(Join(cs)) == cs
  {
    if |cs| == 1 {
      CompsOfOne(cs[0], "");
      assert cs[0] + "" == cs[0];
    } else if |cs| > 1 {
      var rest := "/" + Join(cs[1..]);
      CompsOfJoin(cs[1..]);
      assert rest[1..] == Join(cs[1..]);
      CompsOfOne(cs[0], rest);
      assert cs[0] + rest == cs[0] + "/" + Join(cs[1..]);
    }
  }

  lemma JoinStart(cs: seq<Comp>)
    requires AllProper(cs)
    ensures Join(cs) == "" <==> cs == []
    ensures cs != [] ==> Join(cs)[0] != '/'
  {
    if cs != [] { assert Join(cs)[0] == cs[0][0]; }
  }

  /** Reading a rendered stack back gives the stack. */
  lemma RenderReads(rooted: bool, stack: seq<Comp>)
    requires AllProper(stack)
    ensures Absolute(Render(rooted, stack)) == rooted
    ensures Comps(Render(rooted, stack)) == if !rooted && stack == [] then ["."] else stack
  {
    CompsOfJoin(stack);
    JoinStart(stack);
    if rooted {
      assert ("/" + Join(stack))[1..] == Join(stack);
    } else if stack == [] {
      CompsOfOne(".", "");
      assert "." + "" == ".";
    } else {
      assert "" + Join(stack) == Join(stack);
    }
  }

  // ---------------------------------------------------------------- normal stacks

  /** No "." at all, ".." only in front, and none under a root. */
  predicate Normal(rooted: bool, s: seq<Comp>) {
    && AllProper(s)
    && (forall i :: 0 <= i < |s| ==> s[i] != "." && (rooted ==> !Up(s[i])))
    && (forall i :: 0 < i < |s| && Up(s[i]) ==> Up(s[i - 1]))
  }

  lemma PushIsNormal(rooted: bool, s: seq<Comp>, c: Comp)
    requires Normal(rooted, s) && Proper(c)
    ensures Normal(rooted, Push(rooted, s, c))
  {}

  lemma {:induction false} ReduceIsNormal(rooted: bool, s: seq<Comp>, cs: seq<Comp>)
    requires Normal(rooted, s) && AllProper(cs)
    ensures Normal(rooted, Reduce(rooted, s, cs))
    decreases |cs|
  {
    if cs != [] {
      PushIsNormal(rooted, s, cs[0]);
      ReduceIsNormal(rooted, Push(rooted, s, cs[0]), cs[1..]);
    }
  }

  lemma {:induction false} WalkSnoc(dir: seq<Comp>, s: seq<Comp>, c: Comp)
    ensures Walk(dir, s + [c]) == Step(Walk(dir, s), c)
    decreases |s|
  {
    if s == [] {
      assert s + [c] == [c] && [c][1..] == [];
    } else {
      assert (s + [c])[1..] == s[1..] + [c];
      WalkSnoc(Step(dir, s[0]), s[1..], c);
    }
  }

  /** Pushing a component walks one step further. */
  lemma WalkPush(rooted: bool, dir: seq<Comp>, s: seq<Comp>, c: Comp)
    requires Normal(rooted, s) && (rooted ==> dir == [])
    ensures Walk(dir, Push(rooted, s, c)) == Step(Walk(dir, s), c)
  {
    WalkSnoc(dir, s, c);
    if Up(c) && s != [] && !Up(s[|s| - 1]) {
      var below := s[..|s| - 1];
      WalkSnoc(dir, below, s[|s| - 1]);
      assert s == below + [s[|s| - 1]];
    }
  }

  lemma {:induction false} WalkReduce(rooted: bool, dir: seq<Comp>, s: seq<Comp>, cs: seq<Comp>)
    requires Normal(rooted, s) && AllProper(cs) && (rooted ==> dir == [])
    ensures Walk(dir, Reduce(rooted, s, cs)) == Walk(Walk(dir, s), cs)
    decreases |cs|
  {
    if cs != [] {
      PushIsNormal(rooted, s, cs[0]);
      WalkPush(rooted, dir, s, cs[0]);
      WalkReduce(rooted, dir, Push(rooted, s, cs[0]), cs[1..]);
    }
  }

  // ---------------------------------------------------------------- the laws of normalisation

  /** The stack behind the normal form of a path. */
  function Stack(w: string): seq<Comp> { Reduce(Absolute(w), [], Comps(w)) }

  /** A normal form reads back as its own normal stack: ".." survives only as a relative prefix. */
  lemma NormalFormReads(w: string)
    ensures Normal(Absolute(w), Stack(w)) && Absolute(Normalize(w)) == Absolute(w)
    ensures Comps(Normalize(w)) == if !Absolute(w) && Stack(w) == [] then ["."] else Stack(w)
  {
    ReduceIsNormal(Absolute(w), [], Comps(w));
    RenderReads(Absolute(w), Stack(w));
  }

  /** Normalising does not change which directory a path names, from any base. */
  lemma NormalizeKeepsMeaning(base: seq<Comp>, w: string)
    ensures Resolve(base, Normalize(w)) == Resolve(base, w)
  {
    NormalFormReads(w);
    var dir := if Absolute(w) then [] else base;
    WalkReduce(Absolute(w), dir, [], Comps(w));
    if !Absolute(w) && Stack(w) == [] {
      assert ["."][1..] == [];
    }
  }

  lemma {:induction false} ReduceOfNormal(rooted: bool, s: seq<Comp>, t: seq<Comp>)
    requires Normal(rooted, s + t)
    ensures Reduce(rooted, s, t) == s + t
    decreases |t|
  {
    if t == [] {
      assert s + t == s;
    } else {
      assert (s + t)[|s|] == t[0];
      if s != [] { assert (s + t)[|s| - 1] == s[|s| - 1]; }
      assert Push(rooted, s, t[0]) == s + [t[0]];
      assert s + [t[0]] + t[1..] == s + t;
      ReduceOfNormal(rooted, s + [t[0]], t[1..]);
    }
  }

  /** Normalising twice is normalising once. */
  lemma NormalizeIsIdempotent(w: string)
    ensures Normalize(Normalize(w)) == Normalize(w)
  {
    NormalFormReads(w);
    var rooted, s := Absolute(w), Stack(w);
    assert [] + s == s;
    ReduceOfNormal(rooted, [], s);
    if !rooted && s == [] {
      assert ["."][1..] == [];
      assert Reduce(rooted, [], ["."]) == [];
    }
  }

  // ---------------------------------------------------------------- canonicity

  function UpCount(s: seq<Comp>): (k: nat)
    ensures k <= |s| && (forall i :: 0 <= i < k ==> Up(s[i])) && (k < |s| ==> !Up(s[k]))
  {
    if s != [] && Up(s[0]) then 1 + UpCount(s[1..]) else 0
  }

  function Names(s: seq<Comp>): seq<Comp> { s[UpCount(s)..] }

  lemma {:induction false} NamesHaveNoUp(s: seq<Comp>, i: nat)
    requires Normal(false, s) && UpCount(s) <= i < |s|
    ensures !Up(s[i])
    decreases i
  {
    if i > UpCount(s) { NamesHaveNoUp(s, i - 1); }
  }

  lemma StackFromParts(s: seq<Comp>, t: seq<Comp>)
    requires UpCount(s) == UpCount(t) && Names(s) == Names(t)
    ensures s == t
  {
    var k := UpCount(s);
    assert s == s[..k] + Names(s) && t == t[..k] + Names(t);
    assert s[..k] == t[..k];
  }

  /** A directory whose `n` components are all the name `z`. */
  function Deep(z: Comp, n: nat): seq<Comp> { seq(n, _ => z) }

  lemma {:induction false} WalkNames(dir: seq<Comp>, s: seq<Comp>)
    requires forall i :: 0 <= i < |s| ==> s[i] != "." && !Up(s[i])
    ensures Walk(dir, s) == dir + s
    decreases |s|
  {
    if s == [] {
      assert dir + s == dir;
    } else {
      WalkNames(dir + [s[0]], s[1..]);
      assert dir + [s[0]] + s[1..] == dir + s;
    }
  }

  /** From a deep enough base, each leading ".." takes off one level and the names are appended. */
  lemma {:induction false} WalkDeep(z: Comp, n: nat, s: seq<Comp>)
    requires Normal(false, s) && UpCount(s) <= n
    ensures Walk(Deep(z, n), s) == Deep(z, n - UpCount(s)) + Names(s)
    decreases |s|
  {
    if s != [] && Up(s[0]) {
      assert Step(Deep(z, n), s[0]) == Deep(z, n - 1);
      WalkDeep(z, n - 1, s[1..]);
    } else {
      forall i | 0 <= i < |s| ensures !Up(s[i]) { NamesHaveNoUp(s, i); }
      WalkNames(Deep(z, n), s);
    }
  }

  /** A name longer than every component of `s`. */
  lemma {:induction false} FreshName(s: seq<Comp>) returns (z: Comp)
    ensures Proper(z) && |z| > 2 && z !in s
    ensures forall i :: 0 <= i < |s| ==> |s[i]| < |z|
    decreases |s|
  {
    if s == [] {
      z := "aaa";
    } else {
      var y := FreshName(s[1..]);
      z := y + seq(|s[0]| + 1, _ => 'a');
    }
  }

  /** A base directory: proper names only. */
  predicate IsDirectory(base: seq<Comp>) {
    AllProper(base) && forall i :: 0 <= i < |base| ==> base[i] != "." && !Up(base[i])
  }

  lemma ResolveStack(base: seq<Comp>, w: string)
    ensures Resolve(base, w) == Walk(if Absolute(w) then [] else base, Stack(w))
    ensures Normal(Absolute(w), Stack(w)) && Normal(false, Stack(w))
    ensures Absolute(w) ==> Resolve(base, w) == Stack(w)
  {
    NormalFormReads(w);
    WalkReduce(Absolute(w), if Absolute(w) then [] else base, [], Comps(w));
    if Absolute(w) {
      WalkNames([], Stack(w));
      assert [] + Stack(w) == Stack(w);
    }
  }

  lemma DeepFront(z: Comp, n: nat, names: seq<Comp>)
    ensures n > 0 ==> z in Deep(z, n) + names
    ensures Deep(z, 0) + names == names
  {
    if n > 0 { assert (Deep(z, n) + names)[0] == z; }
  }

  lemma NamesIn(z: Comp, t: seq<Comp>)
    requires z !in t
    ensures z !in Names(t)
  {}

  /** Two relative paths, one climbing less than the other, differ from a deep enough base. */
  lemma ClimbsAgree(z: Comp, s: seq<Comp>, t: seq<Comp>)
    requires Normal(false, s) && Normal(false, t) && z !in t && UpCount(s) <= UpCount(t)
    requires Walk(Deep(z, UpCount(t)), s) == Walk(Deep(z, UpCount(t)), t)
    ensures s == t
  {
    hide Deep, Walk, Names, Normal, UpCount;
    var n := UpCount(t);
    WalkDeep(z, n, s);
    WalkDeep(z, n, t);
    NamesIn(z, t);
    DeepFront(z, n - UpCount(s), Names(s));
    DeepFront(z, 0, Names(t));
    StackFromParts(s, t);
  }

  /** A relative path sees the base it starts from, so it never agrees with an absolute one. */
  lemma RelativeSeesBase(z: Comp, s: seq<Comp>, t: seq<Comp>)
    requires Normal(false, t) && z !in s
    ensures Walk(Deep(z, UpCount(t) + 1), t) != s
  {
    WalkDeep(z, UpCount(t) + 1, t);
    var r := Deep(z, 1) + Names(t);
    assert r[0] == z;
    assert z in r;
  }

  lemma SameStack(p: string, q: string)
    ensures Absolute(p) == Absolute(q) && Stack(p) == Stack(q) ==> Normalize(p) == Normalize(q)
  {}

  /** Paths that name the same directory from every base have the same normal form. */
  lemma NormalFormIsCanonical(p: string, q: string)
    requires forall base :: IsDirectory(base) ==> Resolve(base, p) == Resolve(base, q)
    ensures Normalize(p) == Normalize(q)
  {
    hide Walk, Deep, Normal, UpCount, Stack, Normalize, Proper, Absolute;
    var s, t := Stack(p), Stack(q);
    var z := FreshName(s + t);
    assert z !in s && z !in t;
    SameStack(p, q);
    ResolveStack([], p);
    ResolveStack([], q);
    if Absolute(p) && Absolute(q) {
      DeepAgrees(z, 0, p, q);
    } else if Absolute(p) {
      DeepAgrees(z, UpCount(t) + 1, p, q);
      RelativeSeesBase(z, s, t);
    } else if Absolute(q) {
      DeepAgrees(z, UpCount(s) + 1, p, q);
      RelativeSeesBase(z, t, s);
    } else if UpCount(s) <= UpCount(t) {
      DeepAgrees(z, UpCount(t), p, q);
      ClimbsAgree(z, s, t);
    } else {
      DeepAgrees(z, UpCount(s), p, q);
      ClimbsAgree(z, t, s);
    }
  }

  lemma DeepAgrees(z: Comp, n: nat, p: string, q: string)
    requires Proper(z) && |z| > 2
    requires forall base :: IsDirectory(base) ==> Resolve(base, p) == Resolve(base, q)
    ensures Walk(if Absolute(p) then [] else Deep(z, n), Stack(p)) ==
            Walk(if Absolute(q) then [] else Deep(z, n), Stack(q))
    ensures Absolute(p) ==> Walk(if Absolute(q) then [] else Deep(z, n), Stack(q)) == Stack(p)
    ensures Absolute(q) ==> Walk(if Absolute(p) then [] else Deep(z, n), Stack(p)) == Stack(q)
  {
    assert IsDirectory(Deep(z, n));
    ResolveStack(Deep(z, n), p);
    ResolveStack(Deep(z, n), q);
  }
}
