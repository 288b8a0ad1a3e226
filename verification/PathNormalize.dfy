/**
 The buffers and loops of `osNormalizeC` in runtime/sere_sys.c, proved to compute `Normalize`.

 The component stack holds starts and lengths into the working copy, in arrays of
 `|path| / 2 + 2` slots. The guards against a full stack are kept and are never reached.
 */
module PathNormalize {
  import opened PathText

  /** The components a stack of starts and lengths stands for. */
  ghost predicate Within(w: string, starts: seq<nat>, lens: seq<nat>) {
    |starts| == |lens| && forall i :: 0 <= i < |starts| ==> starts[i] + lens[i] <= |w|
  }

  function Stacked(w: string, starts: seq<nat>, lens: seq<nat>): seq<Comp>
    requires Within(w, starts, lens)
  {
    seq(|starts|, i requires 0 <= i < |starts| => w[starts[i]..starts[i] + lens[i]])
  }

  lemma StackedPush(w: string, starts: seq<nat>, lens: seq<nat>, start: nat, len: nat)
    requires Within(w, starts, lens) && start + len <= |w|
    ensures Within(w, starts + [start], lens + [len])
    ensures Stacked(w, starts + [start], lens + [len]) == Stacked(w, starts, lens) + [w[start..start + len]]
  {}

  lemma StackedPop(w: string, starts: seq<nat>, lens: seq<nat>)
    requires Within(w, starts, lens) && |starts| > 0
    ensures Within(w, starts[..|starts| - 1], lens[..|starts| - 1])
    ensures Stacked(w, starts[..|starts| - 1], lens[..|starts| - 1]) ==
            Stacked(w, starts, lens)[..|starts| - 1]
  {}

  class Components {
    const work: string
    const starts: array<nat>
    const lens: array<nat>
    var count: nat

    ghost predicate Valid()
      reads this, starts, lens
    {
      && starts != lens && starts.Length == lens.Length == |work| / 2 + 2 && count <= starts.Length
      && Within(work, starts[..count], lens[..count])
    }

    ghost function Contents(): (s: seq<Comp>)
      requires Valid()
      reads this, starts, lens
      ensures |s| == count
    {
      Stacked(work, starts[..count], lens[..count])
    }

    constructor (path: string)
      ensures Valid() && work == path && Contents() == [] && fresh(starts) && fresh(lens)
    {
      work := path;
      starts := new nat[|path| / 2 + 2];
      lens := new nat[|path| / 2 + 2];
      count := 0;
    }

    method Append(start: nat, len: nat)
      requires Valid() && count < starts.Length && start + len <= |work|
      modifies this, starts, lens
      ensures Valid() && Contents() == old(Contents()) + [work[start..start + len]] && count == old(count) + 1
    {
      StackedPush(work, starts[..count], lens[..count], start, len);
      starts[count] := start;
      lens[count] := len;
      count := count + 1;
      assert starts[..count] == old(starts[..count]) + [start] && lens[..count] == old(lens[..count]) + [len];
    }

    method DropLast()
      requires Valid() && count > 0
      modifies `count
      ensures Valid() && Contents() == old(Contents())[..old(count) - 1] && count == old(count) - 1
    {
      StackedPop(work, starts[..count], lens[..count]);
      count := count - 1;
      assert starts[..count] == old(starts[..count])[..count] && lens[..count] == old(lens[..count])[..count];
    }

    /** The top of the stack is "..". */
    method TopIsUp() returns (up: bool)
      requires Valid() && count > 0
      ensures up == Up(Contents()[count - 1])
    {
      var s, n := starts[count - 1], lens[count - 1];
      assert Contents()[count - 1] == work[s..s + n];
      up := n == 2 && work[s] == '.' && work[s + 1] == '.';
    }

    /** One component of the path, from `start` for `len` characters. */
    method Take(rooted: bool, start: nat, len: nat)
      requires Valid() && 0 < len && start + len <= |work| && count < starts.Length
      modifies this, starts, lens
      ensures Valid() && Contents() == Push(rooted, old(Contents()), work[start..start + len])
      ensures count <= old(count) + 1
    {
      hide Stacked, Within;
      ghost var c := work[start..start + len];
      if len == 1 && work[start] == '.' {
        assert c == ".";
        return;
      }
      if len == 2 && work[start] == '.' && work[start + 1] == '.' {
        assert c == "..";
        var up := true;
        if count > 0 { up := TopIsUp(); }
        if count > 0 && !up {
          DropLast();
        } else if !rooted && count < starts.Length {
          Append(start, 2);
        }
        return;
      }
      assert c != "." && !Up(c);
      if count < starts.Length {
        Append(start, len);
      }
    }
  }

  // ---------------------------------------------------------------- scanning

  lemma CompsSkip(w: string, i: nat)
    requires i < |w| && w[i] == '/'
    ensures Comps(w[i..]) == Comps(w[i + 1..])
  {
    assert w[i..][1..] == w[i + 1..];
  }

  lemma CompsRun(w: string, i: nat, n: nat)
    requires i < |w| && w[i] != '/' && n == Run(w[i..])
    ensures n > 0 && i + n <= |w| && Comps(w[i..]) == [w[i..i + n]] + Comps(w[i + n..])
    ensures i + n < |w| ==> w[i + n] == '/'
  {
    assert w[i..][..n] == w[i..i + n] && w[i..][n..] == w[i + n..];
    if i + n < |w| { assert w[i..][n] == w[i + n]; }
  }

  method SkipSeparators(w: string, start: nat) returns (i: nat)
    requires start <= |w|
    ensures start <= i <= |w| && Comps(w[i..]) == Comps(w[start..]) && (i < |w| ==> w[i] != '/')
    ensures start < |w| && w[start] == '/' ==> i > start
  {
    i := start;
    while i < |w| && w[i] == '/'
      invariant start <= i <= |w| && Comps(w[i..]) == Comps(w[start..])
    {
      CompsSkip(w, i);
      i := i + 1;
    }
  }

  method RunToSeparator(w: string, start: nat) returns (i: nat)
    requires start <= |w|
    ensures i == start + Run(w[start..]) && i <= |w|
  {
    i := start;
    while i < |w| && w[i] != '/'
      invariant start <= i <= |w| && start + Run(w[start..]) == i + Run(w[i..])
    {
      assert w[i..][0] == w[i] && w[i..][1..] == w[i + 1..];
      i := i + 1;
    }
    if i < |w| { assert w[i..][0] == w[i]; }
  }

  /** The components from position `i` on, and the text between two positions. */
  function CompsFrom(w: string, i: nat): seq<Comp>
    requires i <= |w|
  {
    Comps(w[i..])
  }

  function Piece(w: string, i: nat, j: nat): Comp
    requires i <= j <= |w|
  {
    w[i..j]
  }

  /** Finds the next component; an empty one means the end of the path. */
  method NextComponent(w: string, i: nat) returns (start: nat, end: nat)
    requires i <= |w|
    ensures i <= start <= end <= |w| && (i < |w| && w[i] == '/' ==> i < start)
    ensures start == end ==> end == |w| && CompsFrom(w, i) == []
    ensures start < end ==> CompsFrom(w, i) == [Piece(w, start, end)] + CompsFrom(w, end)
    ensures end < |w| ==> w[end] == '/'
  {
    start := SkipSeparators(w, i);
    end := RunToSeparator(w, start);
    if start < |w| { CompsRun(w, start, end - start); }
  }

  /** The scanning loop: reduces the path to its component stack without ever filling the arrays. */
  method Scan(c: Components, root: nat)
    requires c.Valid() && c.count == 0 && root == (if Absolute(c.work) then 1 else 0)
    modifies c, c.starts, c.lens
    ensures c.Valid() && c.Contents() == Stack(c.work)
  {
    var w := c.work;
    var i := root;
    ghost var rooted := root == 1;
    ScanStart(w, root);
    hide Reduce, Push, Stack, Stacked, CompsFrom, Piece, Within;
    while i < |w|
      invariant root <= i <= |w| && c.Valid()
      invariant Reduce(rooted, c.Contents(), CompsFrom(w, i)) == Stack(w)
      invariant 2 * c.count <= i - root + 1
      invariant i == root ==> c.count == 0
      invariant root < i < |w| ==> w[i] == '/'
    {
      var start, end := NextComponent(w, i);
      i := end;
      if start == end { continue; }
      TakeReduces(rooted, c.Contents(), Piece(w, start, end), CompsFrom(w, end));
      TakePiece(c, root == 1, start, end);
    }
    ScanEnd(w, rooted, c.Contents());
  }

  method TakePiece(c: Components, rooted: bool, start: nat, end: nat)
    requires c.Valid() && start < end <= |c.work| && c.count < c.starts.Length
    modifies c, c.starts, c.lens
    ensures c.Valid() && c.Contents() == Push(rooted, old(c.Contents()), Piece(c.work, start, end))
    ensures c.count <= old(c.count) + 1
  {
    c.Take(rooted, start, end - start);
  }

  lemma ScanStart(w: string, root: nat)
    requires root == if Absolute(w) then 1 else 0
    ensures root <= |w| && Reduce(root == 1, [], CompsFrom(w, root)) == Stack(w)
  {
    assert w[0..] == w;
    if root == 1 { CompsSkip(w, 0); }
  }

  lemma ScanEnd(w: string, rooted: bool, stack: seq<Comp>)
    ensures Reduce(rooted, stack, CompsFrom(w, |w|)) == stack
  {}

  lemma TakeReduces(rooted: bool, stack: seq<Comp>, x: Comp, rest: seq<Comp>)
    ensures Reduce(rooted, stack, [x] + rest) == Reduce(rooted, Push(rooted, stack, x), rest)
  {
    assert ([x] + rest)[1..] == rest;
  }

  // ---------------------------------------------------------------- the output buffer

  lemma {:induction false} JoinSnoc(cs: seq<Comp>, x: Comp)
    ensures Join(cs + [x]) == if cs == [] then x else Join(cs) + "/" + x
    decreases |cs|
  {
    if cs == [] {
      assert cs + [x] == [x];
    } else {
      assert (cs + [x])[1..] == cs[1..] + [x];
      JoinSnoc(cs[1..], x);
      if |cs| > 1 { assert Join(cs) + "/" + x == cs[0] + "/" + (Join(cs[1..]) + "/" + x); }
    }
  }

  lemma {:induction false} JoinEnd(cs: seq<Comp>)
    requires AllProper(cs) && cs != []
    ensures Join(cs) != "" && Join(cs)[|Join(cs)| - 1] != '/'
    decreases |cs|
  {
    if |cs| > 1 { JoinEnd(cs[1..]); }
  }

  /** The room the first `k` components and a separator each take. */
  function Room(lens: seq<nat>, k: nat): nat
    requires k <= |lens|
  {
    if k == 0 then 0 else Room(lens, k - 1) + lens[k - 1] + 1
  }

  lemma {:induction false} RoomGrows(lens: seq<nat>, j: nat, k: nat)
    requires j <= k <= |lens|
    ensures Room(lens, j) <= Room(lens, k)
    decreases k
  {
    if j < k { RoomGrows(lens, j, k - 1); }
  }

  function Lead(rooted: bool): string { if rooted then "/" else "" }

  /** The text written after `k` components. */
  function Written(rooted: bool, cs: seq<Comp>, k: nat): string
    requires k <= |cs|
  {
    Lead(rooted) + Join(cs[..k])
  }

  /** What one round of the output loop makes of the text: a separator unless one is there or nothing is. */
  function Extended(t: string, x: Comp): string {
    (if t != "" && t[|t| - 1] != '/' then t + "/" else t) + x
  }

  lemma WriteNext(rooted: bool, cs: seq<Comp>, k: nat)
    requires k < |cs| && AllProper(cs)
    ensures Written(rooted, cs, k + 1) == Extended(Written(rooted, cs, k), cs[k])
  {
    assert cs[..k + 1] == cs[..k] + [cs[k]];
    JoinSnoc(cs[..k], cs[k]);
    if k > 0 {
      JoinEnd(cs[..k]);
      var t := Written(rooted, cs, k);
      assert t[|t| - 1] == Join(cs[..k])[|Join(cs[..k])| - 1];
      assert Lead(rooted) + (Join(cs[..k]) + "/" + cs[k]) == t + "/" + cs[k];
    } else {
      assert Join(cs[..0]) == "" && Lead(rooted) + "" == Lead(rooted);
    }
  }

  /** `memcpy` of one component to the end of the text. */
  method CopyComponent(out: array<char>, n: nat, work: string, start: nat, len: nat)
    requires start + len <= |work| && n + len <= out.Length
    modifies out
    ensures out[..n + len] == old(out[..n]) + work[start..start + len]
  {
    forall j | 0 <= j < len { out[n + j] := work[start + j]; }
  }

  method AddSeparator(out: array<char>, n: nat) returns (m: nat)
    requires n < out.Length
    modifies out
    ensures n <= m <= n + 1
    ensures var t := old(out[..n]); out[..m] == if t != "" && t[|t| - 1] != '/' then t + "/" else t
  {
    m := n;
    if n > 0 && out[n - 1] != '/' {
      out[n] := '/';
      m := n + 1;
    }
  }

  lemma StackedAt(c: Components, k: nat)
    requires c.Valid() && k < c.count
    ensures c.starts[k] + c.lens[k] <= |c.work|
    ensures c.Contents()[k] == c.work[c.starts[k]..c.starts[k] + c.lens[k]]
  {
    assert c.starts[..c.count][k] == c.starts[k] && c.lens[..c.count][k] == c.lens[k];
  }

  method WriteComponent(out: array<char>, n: nat, work: string, start: nat, len: nat) returns (m: nat)
    requires start + len <= |work| && n + len + 1 <= out.Length
    modifies out
    ensures m <= n + len + 1 && m <= out.Length && out[..m] == Extended(old(out[..n]), work[start..start + len])
  {
    var at := AddSeparator(out, n);
    CopyComponent(out, at, work, start, len);
    m := at + len;
  }

  /** The size the output needs, computed before anything is written. */
  method Measure(c: Components, plen: nat) returns (total: nat)
    requires c.Valid()
    ensures total == plen + 1 + Room(c.lens[..c.count], c.count)
  {
    total := plen + 1;
    for k := 0 to c.count
      invariant total == plen + 1 + Room(c.lens[..c.count], k)
    {
      total := total + c.lens[k] + 1;
    }
  }

  /** The output loop. */
  method WriteAll(c: Components, rooted: bool, out: array<char>, plen: nat) returns (n: nat)
    requires c.Valid() && AllProper(c.Contents()) && plen <= out.Length
    requires c.starts as object != out && c.lens as object != out
    requires plen + Room(c.lens[..c.count], c.count) < out.Length && out[..plen] == Lead(rooted)
    modifies out
    ensures n <= plen + Room(c.lens[..c.count], c.count) && n < out.Length
    ensures out[..n] == Written(rooted, c.Contents(), c.count)
  {
    n := plen;
    ghost var cs, room := c.Contents(), c.lens[..c.count];
    WrittenStart(rooted, cs);
    hide Written, Within, Stacked, AllProper, Extended, Room;
    for i := 0 to c.count
      invariant n <= plen + Room(room, i) && n < out.Length && out[..n] == Written(rooted, cs, i)
    {
      RoomGrows(room, i + 1, c.count);
      RoomNext(room, i);
      StackedAt(c, i);
      WriteNext(rooted, cs, i);
      n := WriteComponent(out, n, c.work, c.starts[i], c.lens[i]);
    }
  }

  /** The buffer `osNormalizeC` allocates holds the rendered stack and its terminating NUL. */
  method Emit(c: Components, rooted: bool) returns (out: array<char>, n: nat)
    requires c.Valid() && AllProper(c.Contents())
    ensures fresh(out) && n < out.Length && out[..n] == Render(rooted, c.Contents()) && out[n] == '\0'
  {
    var plen := if rooted then 1 else 0;
    var total := Measure(c, plen);
    out := new char[total + 1];
    if rooted { out[0] := '/'; }
    WrittenIsRendered(rooted, c.Contents());
    hide Room, Render, Written, Within, Stacked, AllProper;
    n := WriteAll(c, rooted, out, plen);
    if n == 0 {
      out[n] := '.';
      n := 1;
    }
    out[n] := '\0';
  }

  lemma RoomNext(lens: seq<nat>, k: nat)
    requires k < |lens|
    ensures Room(lens, k + 1) == Room(lens, k) + lens[k] + 1
  {}

  lemma WrittenStart(rooted: bool, cs: seq<Comp>)
    ensures Written(rooted, cs, 0) == Lead(rooted)
  {
    assert cs[..0] == [];
  }

  lemma WrittenIsRendered(rooted: bool, cs: seq<Comp>)
    ensures Render(rooted, cs) == if Written(rooted, cs, |cs|) == "" then "." else Written(rooted, cs, |cs|)
  {
    assert cs[..|cs|] == cs;
  }

  /** `osNormalizeC`. */
  method NormalizePath(path: string) returns (out: array<char>, n: nat)
    ensures n < out.Length && out[..n] == Normalize(path) && out[n] == '\0'
  {
    var c := new Components(path);
    var root := if path != "" && path[0] == '/' then 1 else 0;
    Scan(c, root);
    NormalFormReads(path);
    out, n := Emit(c, root == 1);
  }
}
