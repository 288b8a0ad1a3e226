/**
 The receive loop of `sere_wsgi_accept` in runtime/sere_wsgi.c: finding the end of a request's
 headers in bytes that arrive in pieces of any size.
 */
module RequestReceive {

  const HEADER_LIMIT: nat := 65536
  const LINE_LIMIT: nat := 8192
  const CHUNK: nat := 4096

  function Min(a: nat, b: nat): nat { if a < b then a else b }

  /**
   What one `recv` delivers when `used` bytes came before: the plan says how many bytes are ready
   for each call. Nothing means the peer closed, failed or timed out.
   */
  function Got(stream: string, plan: seq<nat>, used: nat): (n: nat)
    requires used <= |stream| && used < HEADER_LIMIT
    ensures used + n <= |stream| && used + n <= HEADER_LIMIT
  {
    if plan == [] then 0 else Min(plan[0], Min(Min(CHUNK, HEADER_LIMIT - used), |stream| - used))
  }

  // ---------------------------------------------------------------- searching

  predicate BoundaryAt(s: string, i: nat) {
    i + 3 < |s| && s[i] == '\r' && s[i + 1] == '\n' && s[i + 2] == '\r' && s[i + 3] == '\n'
  }

  /** The end of the first CRLFCRLF that starts at `i` or later in the first `n` characters, or zero. */
  function FindBoundary(s: string, i: nat, n: nat): (b: nat)
    requires n <= |s|
    ensures b != 0 ==> i + 4 <= b <= n && BoundaryAt(s, b - 4)
    ensures forall j :: i <= j && (if b == 0 then j + 3 < n else j < b - 4) ==> !BoundaryAt(s, j)
    decreases n - i
  {
    if i + 3 >= n then 0 else if BoundaryAt(s, i) then i + 4 else FindBoundary(s, i + 1, n)
  }

  predicate CrlfAt(s: string, i: nat) { i + 1 < |s| && s[i] == '\r' && s[i + 1] == '\n' }

  /** `strstr` of CRLF in the first `n` characters: it stops at a NUL. */
  predicate HasCrlf(s: string, i: nat, n: nat)
    requires n <= |s|
    decreases n - i
  {
    i + 1 < n && s[i] != '\0' && (CrlfAt(s, i) || HasCrlf(s, i + 1, n))
  }

  // ---------------------------------------------------------------- the loop as a function of the pieces

  datatype Outcome = Rejected(status: nat) | Found(boundary: nat, used: nat)

  function Receive(stream: string, plan: seq<nat>, used: nat): Outcome
    requires used <= |stream|
    decreases |plan|
  {
    if used >= HEADER_LIMIT then Rejected(431)
    else
      var got := Got(stream, plan, used);
      if got == 0 then Rejected(400)
      else
        var now := used + got;
        var boundary := FindBoundary(stream, 0, now);
        if boundary != 0 then Found(boundary, now)
        else if now > LINE_LIMIT && !HasCrlf(stream, 0, now) then Rejected(414)
        else Receive(stream, plan[1..], now)
  }

  // ---------------------------------------------------------------- what the pieces can change

  /** The deliveries get as far as position `b`. */
  predicate Reaches(stream: string, plan: seq<nat>, used: nat, b: nat)
    requires used <= |stream| && b <= HEADER_LIMIT
    decreases |plan|
  {
    || used >= b
    || (Got(stream, plan, used) > 0 && Reaches(stream, plan[1..], used + Got(stream, plan, used), b))
  }

  /** Some delivery short of `b` ends past the line limit, yet before position `sight`. */
  predicate Pauses(stream: string, plan: seq<nat>, used: nat, sight: nat, b: nat)
    requires used <= |stream| && b <= HEADER_LIMIT
    decreases |plan|
  {
    && used < b && Got(stream, plan, used) > 0
    && var now := used + Got(stream, plan, used);
       now < b && (LINE_LIMIT < now < sight || Pauses(stream, plan[1..], now, sight, b))
  }

  /** `line` is where the first CRLF stands and `b` where the first CRLFCRLF ends. */
  predicate Header(stream: string, line: nat, b: nat) {
    && 4 <= b <= |stream| && BoundaryAt(stream, b - 4) && (forall j :: 0 <= j < b - 4 ==> !BoundaryAt(stream, j))
    && line + 4 <= b && CrlfAt(stream, line) && (forall j :: 0 <= j < line ==> !CrlfAt(stream, j))
  }

  /**
   How many bytes must be there before the search for a CRLF finds the first one: it is never found
   behind a NUL, and then nothing short of the whole block will do.
   */
  function Sight(stream: string, line: nat, b: nat): (n: nat)
    requires line + 4 <= b <= |stream|
    ensures n == line + 2 || n == b
  {
    if '\0' in stream[..line] then b else line + 2
  }

  lemma {:induction false} FirstCrlf(stream: string, line: nat, b: nat, i: nat, n: nat)
    requires Header(stream, line, b) && i <= line && n <= b && '\0' !in stream[i..line]
    ensures HasCrlf(stream, i, n) <==> line + 2 <= n
    decreases line - i
  {
    if i < line && i + 1 < n {
      assert stream[i] == stream[i..line][0] && stream[i + 1..line] == stream[i..line][1..];
      FirstCrlf(stream, line, b, i + 1, n);
    }
  }

  lemma {:induction false} NoCrlfBehindNul(stream: string, line: nat, b: nat, i: nat, n: nat)
    requires Header(stream, line, b) && i <= line && n <= b && '\0' in stream[i..line]
    ensures !HasCrlf(stream, i, n)
    decreases line - i
  {
    assert i < line && stream[i] == stream[i..line][0] && stream[i + 1..line] == stream[i..line][1..];
    if stream[i] != '\0' { NoCrlfBehindNul(stream, line, b, i + 1, n); }
  }

  lemma CrlfSeen(stream: string, line: nat, b: nat, n: nat)
    requires Header(stream, line, b) && n < b
    ensures HasCrlf(stream, 0, n) <==> Sight(stream, line, b) <= n
  {
    assert stream[..line] == stream[0..line];
    if '\0' in stream[..line] { NoCrlfBehindNul(stream, line, b, 0, n); } else { FirstCrlf(stream, line, b, 0, n); }
  }

  lemma BoundarySeen(stream: string, line: nat, b: nat, n: nat)
    requires Header(stream, line, b) && n <= |stream|
    ensures FindBoundary(stream, 0, n) == if n >= b then b else 0
  {
    assert BoundaryAt(stream, b - 4);
  }

  /**
   Whatever the pieces are, a header block within the limits is found at the end of its first
   CRLFCRLF, unless the deliveries stop before it or one of them pauses past the line limit where
   no CRLF is seen.
   */
  lemma {:induction false} ReceiveIsExact(stream: string, plan: seq<nat>, used: nat, line: nat, b: nat)
    requires Header(stream, line, b) && b <= HEADER_LIMIT && used < b
    ensures var r := Receive(stream, plan, used); var sight := Sight(stream, line, b);
            && (r.Found? ==> r.boundary == b && b <= r.used <= HEADER_LIMIT)
            && (r.Found? <==> Reaches(stream, plan, used, b) && !Pauses(stream, plan, used, sight, b))
            && (r.Rejected? ==> r.status == 400 || r.status == 414)
            && (r == Rejected(414) <==> Pauses(stream, plan, used, sight, b))
    decreases |plan|
  {
    hide HasCrlf, FindBoundary, Header, Sight;
    HeaderFits(stream, line, b);
    var got := Got(stream, plan, used);
    if got > 0 {
      var now := used + got;
      BoundarySeen(stream, line, b, now);
      if now < b {
        var sight := Sight(stream, line, b);
        CrlfSeen(stream, line, b, now);
        if !(LINE_LIMIT < now < sight) { ReceiveIsExact(stream, plan[1..], now, line, b); }
      }
    }
  }

  lemma HeaderFits(stream: string, line: nat, b: nat)
    requires Header(stream, line, b)
    ensures 4 <= b <= |stream| && line + 4 <= b
  {}

  /** When a CRLF is seen within the limit no way of cutting the bytes up makes a difference. */
  lemma {:induction false} ShortLinesNeverPause(stream: string, plan: seq<nat>, used: nat, sight: nat, b: nat)
    requires used <= |stream| && b <= HEADER_LIMIT && sight <= LINE_LIMIT + 1
    ensures !Pauses(stream, plan, used, sight, b)
    decreases |plan|
  {
    if used < b && Got(stream, plan, used) > 0 {
      ShortLinesNeverPause(stream, plan[1..], used + Got(stream, plan, used), sight, b);
    }
  }

  /** When it is more than a chunk beyond the limit, every sequence of deliveries pauses. */
  lemma {:induction false} LongLinesAlwaysPause(stream: string, plan: seq<nat>, used: nat, sight: nat, b: nat)
    requires used <= |stream| && b <= HEADER_LIMIT && used <= LINE_LIMIT && LINE_LIMIT + CHUNK < sight <= b
    requires Reaches(stream, plan, used, b)
    ensures Pauses(stream, plan, used, sight, b)
    decreases |plan|
  {
    var now := used + Got(stream, plan, used);
    if now <= LINE_LIMIT { LongLinesAlwaysPause(stream, plan[1..], now, sight, b); }
  }

  // ---------------------------------------------------------------- the loop

  /** A client connection: the bytes it will send and how they become ready. */
  class Connection {
    const stream: string
    var plan: seq<nat>
    var at: nat

    ghost predicate Valid()
      reads this
    {
      at <= |stream|
    }

    constructor (stream: string, plan: seq<nat>)
      ensures Valid() && this.stream == stream && this.plan == plan && at == 0
    {
      this.stream, this.plan, this.at := stream, plan, 0;
    }

    /** `recv`: at most `limit` bytes of what is ready, or nothing. */
    method Recv(limit: nat) returns (piece: string)
      requires Valid()
      modifies this
      ensures Valid() && at == old(at) + |piece| && piece == stream[old(at)..at]
      ensures |piece| == if old(plan) == [] then 0 else Min(old(plan)[0], Min(limit, |stream| - old(at)))
      ensures plan == if old(plan) == [] then [] else old(plan)[1..]
    {
      var n := 0;
      if plan != [] {
        n := Min(plan[0], Min(limit, |stream| - at));
        plan := plan[1..];
      }
      piece := stream[at..at + n];
      at := at + n;
    }
  }

  /** The search from three characters before the new bytes. */
  method SearchBoundary(raw: array<char>, from: nat, used: nat, ghost stream: string) returns (boundary: nat)
    requires used <= raw.Length && used <= |stream| && from <= used && raw[..used] == stream[..used]
    requires FindBoundary(stream, 0, from) == 0
    ensures boundary == FindBoundary(stream, 0, used)
  {
    boundary := 0;
    var i := if from > 3 then from - 3 else 0;
    forall k | 0 <= k < used ensures raw[k] == stream[k] {
      assert raw[..used][k] == stream[..used][k];
    }
    while i + 3 < used
      invariant forall j :: 0 <= j < i && j + 3 < used ==> !BoundaryAt(stream, j)
    {
      if raw[i] == '\r' && raw[i + 1] == '\n' && raw[i + 2] == '\r' && raw[i + 3] == '\n' {
        assert BoundaryAt(stream, i);
        boundary := i + 4;
        break;
      }
      i := i + 1;
    }
  }

  method SearchCrlf(raw: array<char>, used: nat, ghost stream: string) returns (found: bool)
    requires used < raw.Length && used <= |stream| && raw[..used] == stream[..used] && raw[used] == '\0'
    ensures found == HasCrlf(stream, 0, used)
  {
    forall k | 0 <= k < used ensures raw[k] == stream[k] {
      assert raw[..used][k] == stream[..used][k];
    }
    var i := 0;
    while raw[i] != '\0'
      invariant 0 <= i <= used && HasCrlf(stream, i, used) == HasCrlf(stream, 0, used)
      decreases used - i
    {
      if raw[i] == '\r' && raw[i + 1] == '\n' {
        assert i + 1 < used;
        return true;
      }
      i := i + 1;
    }
    found := false;
  }

  /** Puts the received bytes behind the others and ends them with a NUL. */
  method Store(raw: array<char>, used: nat, piece: string)
    requires used + |piece| < raw.Length
    modifies raw
    ensures raw[..used + |piece|] == old(raw[..used]) + piece && raw[used + |piece|] == '\0'
  {
    forall j | 0 <= j < |piece| { raw[used + j] := piece[j]; }
    raw[used + |piece|] := '\0';
  }

  lemma Follows(s: string, used: nat, piece: string)
    requires used + |piece| <= |s| && piece == s[used..used + |piece|]
    ensures s[..used] + piece == s[..used + |piece|]
  {}

  /** One `recv` of at most a chunk, behind the bytes that came before. */
  method ReceivePiece(c: Connection, raw: array<char>, used: nat) returns (got: nat)
    requires c.Valid() && used == c.at && used < HEADER_LIMIT && raw.Length == HEADER_LIMIT + 1
    requires raw[..used] == c.stream[..used]
    modifies c, raw
    ensures c.Valid() && used <= |c.stream| && got == Got(c.stream, old(c.plan), used) && c.at == used + got
    ensures raw[..used + got] == c.stream[..used + got] && (got > 0 ==> raw[used + got] == '\0')
    ensures c.plan == if old(c.plan) == [] then [] else old(c.plan)[1..]
  {
    var space := HEADER_LIMIT - used;
    var piece := c.Recv(if space > CHUNK then CHUNK else space);
    got := |piece|;
    if got == 0 { return; }
    Follows(c.stream, used, piece);
    Store(raw, used, piece);
  }

  method ReceiveHeaders(c: Connection, raw: array<char>) returns (o: Outcome)
    requires c.Valid() && c.at == 0 && raw.Length == HEADER_LIMIT + 1
    modifies c, raw
    ensures c.Valid() && o == Receive(c.stream, old(c.plan), 0)
    ensures o.Found? ==> o.boundary <= o.used == c.at <= HEADER_LIMIT && raw[..o.used] == c.stream[..o.used]
  {
    hide HasCrlf, FindBoundary;
    ghost var s := c.stream;
    var used := 0;
    o := Rejected(431);
    while used < HEADER_LIMIT
      invariant used == c.at <= |s| && used <= HEADER_LIMIT && raw[..used] == s[..used] && o == Rejected(431)
      invariant Receive(s, c.plan, used) == Receive(s, old(c.plan), 0) && FindBoundary(s, 0, used) == 0
      decreases HEADER_LIMIT - used
    {
      var got := ReceivePiece(c, raw, used);
      if got == 0 { return Rejected(400); }
      var from := used;
      used := used + got;
      var boundary := SearchBoundary(raw, from, used, s);
      if boundary != 0 { return Found(boundary, used); }
      if used > LINE_LIMIT {
        var found := SearchCrlf(raw, used, s);
        if !found { return Rejected(414); }
      }
    }
  }
}
