/**
 Accepting a request and reading its body in runtime/sere_wsgi.c: the reads give the bytes after
 the header block, in order, and never more than the length the block announced.
 */
module RequestBody {
  import opened RequestReceive
  import opened RequestHeaders
  import opened RequestParse

  /** What the accepted request is, whatever the pieces it came in. */
  function BodyLength(h: string, canSend: bool): nat {
    match ParseHeaders(h, canSend)
    case Refused(s) => 0
    case Passed(p) => if p.framing.length < 0 then 0 else p.framing.length
  }

  lemma FoundIsBlock(stream: string, plan: seq<nat>, used: nat)
    requires used <= |stream| && Receive(stream, plan, used).Found?
    ensures var r := Receive(stream, plan, used);
            && 4 <= r.boundary <= r.used <= HEADER_LIMIT && r.used <= |stream| && IsBlock(stream[..r.boundary])
    decreases |plan|
  {
    var now := used + Got(stream, plan, used);
    var b := FindBoundary(stream, 0, now);
    if b != 0 {
      var h := stream[..b];
      assert BoundaryAt(h, b - 4);
      forall i | 0 <= i < b - 4 ensures !BoundaryAt(h, i) { assert BoundaryAt(h, i) ==> BoundaryAt(stream, i); }
    } else {
      FoundIsBlock(stream, plan[1..], now);
    }
  }

  class Request {
    const raw: array<char>
    const client: Connection
    const head: Head
    const pending: nat
    const pendingSize: nat
    var pendingOffset: nat
    var remaining: nat
    ghost const total: nat
    ghost var delivered: string

    /** Buffered bytes first, then the connection; what was delivered follows the header block. */
    ghost predicate Valid()
      reads this, raw, client
    {
      && client.Valid() && pending + pendingSize <= raw.Length && pendingOffset <= pendingSize
      && pending + pendingSize <= client.at
      && (pendingOffset < pendingSize ==> client.at == pending + pendingSize)
      && raw[pending..pending + pendingSize] == client.stream[pending..pending + pendingSize]
      && delivered == client.stream[pending..client.at - (pendingSize - pendingOffset)]
      && |delivered| + remaining == total
    }

    constructor (raw: array<char>, client: Connection, head: Head, boundary: nat, used: nat)
      requires boundary <= used <= raw.Length && client.Valid() && used == client.at
      requires raw[boundary..used] == client.stream[boundary..used]
      ensures Valid() && delivered == "" && total == head.remaining && pending == boundary
      ensures this.raw == raw && this.client == client && this.head == head
    {
      this.raw, this.client, this.head := raw, client, head;
      pending, pendingSize, pendingOffset := boundary, used - boundary, 0;
      remaining, total := head.remaining, head.remaining;
      delivered := "";
    }

    /** `sere_wsgi_read`: the number of bytes read, zero at the end of the body, or -1. */
    method Read(size: int) returns (got: int, data: string)
      requires Valid()
      modifies this, client
      ensures Valid() && delivered == old(delivered) + data && |data| == if got < 0 then 0 else got
      ensures got <= 0 || got <= size
      ensures got == 0 <==> size <= 0 || old(remaining) == 0
      ensures size > 0 && old(remaining) > 0 && old(pendingOffset) < pendingSize ==>
                got == Min(Min(size, old(remaining)), pendingSize - old(pendingOffset))
    {
      data := "";
      assert delivered + "" == delivered;
      if size <= 0 || remaining == 0 { return 0, data; }
      var limit: nat := if size > remaining then remaining else size;
      var available := pendingSize - pendingOffset;
      if available > 0 {
        got, data := ReadBuffered(limit);
      } else {
        got, data := ReadClient(limit);
      }
    }

    method ReadBuffered(limit: nat) returns (got: int, data: string)
      requires Valid() && 0 < limit <= remaining && pendingOffset < pendingSize
      modifies this
      ensures Valid() && delivered == old(delivered) + data && |data| == got && 0 < got <= limit
      ensures got == Min(limit, pendingSize - old(pendingOffset))
    {
      var available := pendingSize - pendingOffset;
      var n := if limit < available then limit else available;
      ghost var from := pending + pendingOffset;
      ghost var whole := raw[..];
      assert whole[pending..pending + pendingSize] == raw[pending..pending + pendingSize];
      SamePart(whole, client.stream, pending, pendingSize, pendingOffset, n);
      data := raw[pending + pendingOffset..pending + pendingOffset + n];
      assert data == whole[from..from + n];
      Follow(client.stream, pending, from, from + n);
      pendingOffset := pendingOffset + n;
      remaining := remaining - n;
      delivered := delivered + data;
      got := n;
    }

    method ReadClient(limit: nat) returns (got: int, data: string)
      requires Valid() && 0 < limit <= remaining && pendingOffset == pendingSize
      modifies this, client
      ensures Valid() && delivered == old(delivered) + data && |data| == (if got < 0 then 0 else got)
      ensures got == -1 || 0 < got <= limit
    {
      ghost var at := client.at;
      data := client.Recv(limit);
      Follow(client.stream, pending, at, client.at);
      delivered := delivered + data;
      if |data| == 0 { return -1, data; }
      remaining := remaining - |data|;
      got := |data|;
    }
  }

  /** Texts that agree on a stretch agree on its parts. */
  lemma SamePart(s: string, t: string, i: nat, size: nat, offset: nat, n: nat)
    requires i + size <= |s| && i + size <= |t| && offset + n <= size && s[i..i + size] == t[i..i + size]
    ensures s[i + offset..i + offset + n] == t[i + offset..i + offset + n]
  {
    var a, b := s[i + offset..i + offset + n], t[i + offset..i + offset + n];
    forall k | 0 <= k < n ensures a[k] == b[k] {
      assert s[i..i + size][offset + k] == t[i..i + size][offset + k];
    }
  }

  lemma Follow(s: string, i: nat, j: nat, k: nat)
    requires i <= j <= k <= |s|
    ensures s[i..k] == s[i..j] + s[j..k]
  {}

  /** Some byte of a header block is NUL: `memchr` over the block. */
  method HasNul(raw: array<char>, n: nat) returns (r: bool)
    requires n <= raw.Length
    ensures r == ('\0' in raw[..n])
  {
    var i := 0;
    while i < n
      invariant 0 <= i <= n && '\0' !in raw[..i]
    {
      if raw[i] == '\0' {
        assert raw[..n][i] == '\0';
        return true;
      }
      i := i + 1;
    }
    r := false;
  }

  /** The status the server answers with, or where the body of the accepted request starts. */
  function Answer(stream: string, plan: seq<nat>, canSend: bool): Verdict<nat> {
    match Receive(stream, plan, 0)
    case Rejected(s) => Refused(s)
    case Found(b, used) =>
      if b > |stream| || '\0' in stream[..b] then Refused(400)
      else match ParseHeaders(stream[..b], canSend) case Refused(s) => Refused(s) case Passed(p) => Passed(b)
  }

  // ---------------------------------------------------------------- what the pieces change

  /** What the server answers to a whole header block. */
  function Judged(h: string, canSend: bool): Verdict<nat> {
    if '\0' in h then Refused(400)
    else match ParseHeaders(h, canSend) case Refused(s) => Refused(s) case Passed(p) => Passed(|h|)
  }

  /**
   Deliveries that reach the end of the headers get the block's own answer, unless one of them
   pauses past the line limit where no CRLF is seen.
   */
  lemma AnswerIsExact(stream: string, plan: seq<nat>, canSend: bool, line: nat, b: nat)
    requires Header(stream, line, b) && b <= HEADER_LIMIT && Reaches(stream, plan, 0, b)
    ensures Answer(stream, plan, canSend) ==
            if Pauses(stream, plan, 0, Sight(stream, line, b), b) then Refused(414) else Judged(stream[..b], canSend)
  {
    hide ParseHeaders, Sight;
    ReceiveIsExact(stream, plan, 0, line, b);
  }

  lemma {:induction false} FirstLineIs(stream: string, line: nat, b: nat, i: nat)
    requires Header(stream, line, b) && i <= line
    ensures FindCrlf(stream[..b], i) == line
    decreases line - i
  {
    var h := stream[..b];
    assert CrlfAt(h, line) && forall j :: 0 <= j < line ==> !CrlfAt(h, j) by {
      forall j | 0 <= j < line ensures !CrlfAt(h, j) { assert !CrlfAt(stream, j); }
    }
    if i < line { FirstLineIs(stream, line, b, i + 1); }
  }

  lemma {:induction false} LinesGiveNo414(h: string, line: nat, f: Framing)
    requires line <= |h|
    ensures HeaderLines(h, line, f) != Refused(414)
    decreases |h| - line
  {
    hide NextLine;
    if !AtEnd(h, line) {
      LineGivesNo414(h, line, f);
      var next := NextLine(h, line, f);
      if next.Passed? { LinesGiveNo414(h, next.value.0 + 2, next.value.1); }
    }
  }

  lemma LineGivesNo414(h: string, line: nat, f: Framing)
    requires line <= |h|
    ensures NextLine(h, line, f) != Refused(414)
  {
    hide FindCrlf, HeaderLine;
    if FindCrlf(h, line) < |h| { HeaderGivesNo414(h, line, FindCrlf(h, line), f.(count := f.count + 1)); }
  }

  lemma HeaderGivesNo414(h: string, line: nat, end: nat, f: Framing)
    requires line <= end <= |h|
    ensures HeaderLine(h, line, end, f) != Refused(414)
  {
    hide SameName, AllTokens, AllFields, AllDigits, Decimal, Find, SkipBlanks, DropBlanks;
  }

  /** A block is refused for the length of its first line exactly when that is above the limit and no NUL is in the block. */
  lemma JudgedTooLong(stream: string, canSend: bool, line: nat, b: nat)
    requires Header(stream, line, b)
    ensures Judged(stream[..b], canSend) == Refused(414) <==>
            line > RequestReceive.LINE_LIMIT && '\0' !in stream[..b]
  {
    hide FindCrlf, RequestLine, AfterLine, BoundaryAt, CrlfAt;
    var h := stream[..b];
    FirstLineIs(stream, line, b, 0);
    if line <= RequestReceive.LINE_LIMIT {
      RequestLineGivesNo414(h, line);
      if RequestLine(h, line).Passed? { RestGivesNo414(h, RequestLine(h, line).value, line, canSend); }
    }
  }

  lemma RequestLineGivesNo414(h: string, end: nat)
    requires end <= |h|
    ensures RequestLine(h, end) != Refused(414)
  {
    hide TargetOk, AllTokens, Find;
  }

  lemma RestGivesNo414(h: string, l: Line, end: nat, canSend: bool)
    requires l.second <= end && end + 2 <= |h|
    ensures AfterLine(h, l, end, canSend) != Refused(414)
  {
    hide HeaderLines;
    LinesGiveNo414(h, end + 2, Framing(0, -1, false, false));
  }

  /** Pieces of the full size, `n` of them. */
  function Full(n: nat): seq<nat> { seq(n, _ => CHUNK) }

  lemma {:induction false} FullReaches(stream: string, n: nat, used: nat, b: nat)
    requires used <= |stream| && b <= |stream| && b <= HEADER_LIMIT && used + n * CHUNK >= b
    ensures Reaches(stream, Full(n), used, b)
    decreases n
  {
    if used < b {
      assert Full(n)[1..] == Full(n - 1);
      FullReaches(stream, n - 1, used + Got(stream, Full(n), used), b);
    }
  }

  lemma {:induction false} NoPauseBehind(stream: string, plan: seq<nat>, used: nat, sight: nat, b: nat)
    requires used <= |stream| && b <= HEADER_LIMIT && sight <= used
    ensures !Pauses(stream, plan, used, sight, b)
    decreases |plan|
  {
    if used < b && Got(stream, plan, used) > 0 {
      NoPauseBehind(stream, plan[1..], used + Got(stream, plan, used), sight, b);
    }
  }

  /** Full pieces end at the limit and then a chunk beyond it, and at no place between. */
  lemma FullPiecesPass(stream: string, sight: nat, b: nat)
    requires b <= |stream| && b <= HEADER_LIMIT
    requires RequestReceive.LINE_LIMIT + 1 < sight <= RequestReceive.LINE_LIMIT + CHUNK && sight <= b
    ensures Reaches(stream, Full(16), 0, b) && !Pauses(stream, Full(16), 0, sight, b)
  {
    hide Pauses, Reaches, Full;
    FullReaches(stream, 16, 0, b);
    FullStep(stream, 15, 0, sight, b);
    FullStep(stream, 14, CHUNK, sight, b);
    FullStep(stream, 13, CHUNK + CHUNK, sight, b);
    var third := Min(CHUNK + CHUNK + CHUNK, |stream|);
    assert third >= sight;
    NoPauseBehind(stream, Full(13), third, sight, b);
  }

  /** A full piece that does not end where no CRLF is seen leaves the question to the pieces after it. */
  lemma FullStep(stream: string, n: nat, used: nat, sight: nat, b: nat)
    requires used < b <= |stream| && b <= HEADER_LIMIT && used + CHUNK <= HEADER_LIMIT
    requires var now := Min(used + CHUNK, |stream|); !(RequestReceive.LINE_LIMIT < now < sight)
    ensures Pauses(stream, Full(n + 1), used, sight, b) ==> Pauses(stream, Full(n), Min(used + CHUNK, |stream|), sight, b)
  {
    assert Full(n + 1)[1..] == Full(n);
  }

  /** But a piece of one byte after two full ones ends there. */
  lemma OneByteMorePauses(stream: string, sight: nat, b: nat)
    requires b <= |stream| && b <= HEADER_LIMIT && RequestReceive.LINE_LIMIT + 1 < sight <= b
    ensures var plan := [CHUNK, CHUNK, 1] + Full(16);
            Reaches(stream, plan, 0, b) && Pauses(stream, plan, 0, sight, b)
  {
    var plan := [CHUNK, CHUNK, 1] + Full(16);
    assert plan[1..] == [CHUNK, 1] + Full(16);
    assert plan[1..][1..] == [1] + Full(16);
    assert plan[1..][1..][1..] == Full(16);
    FullReaches(stream, 16, CHUNK + CHUNK + 1, b);
  }

  /** Where a CRLF is seen only past the limit, but within a chunk of it, the pieces can decide. */
  lemma PiecesDecide(stream: string, canSend: bool, line: nat, b: nat)
    requires Header(stream, line, b) && b <= HEADER_LIMIT
    requires RequestReceive.LINE_LIMIT + 1 < Sight(stream, line, b) <= RequestReceive.LINE_LIMIT + CHUNK
    ensures var one, full := [CHUNK, CHUNK, 1] + Full(16), Full(16);
            && Reaches(stream, one, 0, b) && Reaches(stream, full, 0, b)
            && Answer(stream, one, canSend) == Refused(414) && Answer(stream, full, canSend) == Judged(stream[..b], canSend)
  {
    HeaderFits(stream, line, b);
    hide Header, Answer, Judged, Reaches, Pauses, Full, Sight;
    var sight := Sight(stream, line, b);
    OneByteMorePauses(stream, sight, b);
    AnswerIsExact(stream, [CHUNK, CHUNK, 1] + Full(16), canSend, line, b);
    FullPiecesPass(stream, sight, b);
    AnswerIsExact(stream, Full(16), canSend, line, b);
  }

  /** A first line of exactly the limit's length: refused as too long or judged, depending on the pieces. */
  lemma PiecesDecideAtTheLimit(stream: string, canSend: bool, line: nat, b: nat)
    requires Header(stream, line, b) && b <= HEADER_LIMIT && line == RequestReceive.LINE_LIMIT && '\0' !in stream[..b]
    ensures Answer(stream, [CHUNK, CHUNK, 1] + Full(16), canSend) == Refused(414)
    ensures Answer(stream, Full(16), canSend) == Judged(stream[..b], canSend) != Refused(414)
  {
    PiecesDecide(stream, canSend, line, b);
    JudgedTooLong(stream, canSend, line, b);
  }

  /** A NUL in front of the first CRLF: too long or malformed, depending on the pieces. */
  lemma PiecesDecideBehindNul(stream: string, canSend: bool, line: nat, b: nat)
    requires Header(stream, line, b) && '\0' in stream[..line]
    requires RequestReceive.LINE_LIMIT + 1 < b <= RequestReceive.LINE_LIMIT + CHUNK
    ensures Answer(stream, [CHUNK, CHUNK, 1] + Full(16), canSend) == Refused(414)
    ensures Answer(stream, Full(16), canSend) == Refused(400)
  {
    PiecesDecide(stream, canSend, line, b);
    assert '\0' in stream[..b];
  }

  /** The blocks whose answer depends on how their bytes are cut up. */
  predicate PiecesMatter(stream: string, line: nat, b: nat)
    requires line + 4 <= b <= |stream|
  {
    if '\0' in stream[..line] then RequestReceive.LINE_LIMIT + 1 < b <= RequestReceive.LINE_LIMIT + CHUNK
    else if '\0' in stream[..b] then RequestReceive.LINE_LIMIT <= line <= RequestReceive.LINE_LIMIT + CHUNK - 2
    else line == RequestReceive.LINE_LIMIT
  }

  /** Outside these blocks every delivery that reaches the end of the headers gets the same answer. */
  lemma OneAnswer(stream: string, plan: seq<nat>, canSend: bool, line: nat, b: nat)
    requires Header(stream, line, b) && b <= HEADER_LIMIT && Reaches(stream, plan, 0, b)
    requires !PiecesMatter(stream, line, b)
    ensures Answer(stream, plan, canSend) ==
            if Sight(stream, line, b) > RequestReceive.LINE_LIMIT + CHUNK then Refused(414)
            else Judged(stream[..b], canSend)
  {
    HeaderFits(stream, line, b);
    hide Header, Answer, Judged, Reaches, Pauses;
    var sight := Sight(stream, line, b);
    AnswerIsExact(stream, plan, canSend, line, b);
    JudgedTooLong(stream, canSend, line, b);
    if sight <= RequestReceive.LINE_LIMIT + 1 {
      ShortLinesNeverPause(stream, plan, 0, sight, b);
    } else if sight > RequestReceive.LINE_LIMIT + CHUNK {
      LongLinesAlwaysPause(stream, plan, 0, sight, b);
    }
  }

  lemma TwoAnswers(stream: string, canSend: bool, line: nat, b: nat)
    requires Header(stream, line, b) && b <= HEADER_LIMIT && PiecesMatter(stream, line, b)
    ensures var one, full := [CHUNK, CHUNK, 1] + Full(16), Full(16);
            && Reaches(stream, one, 0, b) && Reaches(stream, full, 0, b)
            && Answer(stream, one, canSend) != Answer(stream, full, canSend)
  {
    HeaderFits(stream, line, b);
    hide Header, Answer, Judged, Reaches, Full;
    PiecesDecide(stream, canSend, line, b);
    JudgedTooLong(stream, canSend, line, b);
  }

  /**
   The whole way in: a request within the limits gets the same answer from all sequences of
   deliveries that reach the end of its headers, except when its first line is exactly as long as
   the limit or a NUL is in its headers and a CRLF is seen only past the limit, but within a chunk.
   */
  lemma AnswerIgnoresPieces(stream: string, canSend: bool, line: nat, b: nat)
    requires Header(stream, line, b) && b <= HEADER_LIMIT
    ensures (forall plan: seq<nat>, other: seq<nat> ::
               Reaches(stream, plan, 0, b) && Reaches(stream, other, 0, b) ==>
                 Answer(stream, plan, canSend) == Answer(stream, other, canSend))
            <==> !PiecesMatter(stream, line, b)
  {
    HeaderFits(stream, line, b);
    hide *;
    if PiecesMatter(stream, line, b) {
      TwoAnswers(stream, canSend, line, b);
    } else {
      forall plan: seq<nat>, other: seq<nat> | Reaches(stream, plan, 0, b) && Reaches(stream, other, 0, b)
        ensures Answer(stream, plan, canSend) == Answer(stream, other, canSend)
      {
        OneAnswer(stream, plan, canSend, line, b);
        OneAnswer(stream, other, canSend, line, b);
      }
    }
  }

  /** The part of `sere_wsgi_accept` after the connection was made. */
  method Accept(client: Connection, canSend: bool) returns (status: nat, r: Request?)
    requires client.Valid() && client.at == 0
    modifies client
    ensures match Answer(client.stream, old(client.plan), canSend)
            case Refused(s) => r == null && status == s
            case Passed(b) =>
              && status == 0 && r != null && fresh(r) && r.Valid() && r.client == client && r.delivered == "" && r.pending == b
              && b <= |client.stream| && r.total == BodyLength(client.stream[..b], canSend)
              && var h := client.stream[..b];
                 (ParseHeaders(h, canSend).Passed? && Accepts(ParseHeaders(h, canSend).value, h)
                  && r.head == HeadOf(h, ParseHeaders(h, canSend).value))
  {
    var raw := new char[HEADER_LIMIT + 1];
    ghost var s := client.stream;
    ghost var plan := client.plan;
    var o := ReceiveHeaders(client, raw);
    r := null;
    if o.Rejected? { return o.status, null; }
    FoundIsBlock(s, plan, 0);
    hide Receive, ParseHeaders, IsBlock;
    var boundary, used := o.boundary, o.used;
    assert raw[..boundary] == raw[..used][..boundary] == s[..boundary];
    var nul := HasNul(raw, boundary);
    if nul { return 400, null; }
    ghost var h := s[..boundary];
    forall k | 0 <= k < boundary ensures raw[k] == h[k] && h[k] != '\0' {
      assert raw[..boundary][k] == h[k];
      assert h[k] in h;
    }
    ghost var was := raw[..];
    var v := ParseBlock(raw, h, canSend);
    if v.Refused? { return v.status, null; }
    CutKeepsRest(was, raw[..], ParseHeaders(h, canSend).value, h, used, s);
    status := 0;
    r := new Request(raw, client, v.value, boundary, used);
  }

  /** The cuts stay inside the header block. */
  lemma CutKeepsRest(was: string, now: string, p: Parsed, h: string, used: nat, s: string)
    requires Accepts(p, h) && |h| <= used <= |was| && used <= |s| && now == CutBlock(was, p)
    requires was[..used] == s[..used]
    ensures |now| == |was| && now[|h|..used] == s[|h|..used]
  {
    forall k | |h| <= k < used ensures now[k] == s[k] { assert was[..used][k] == s[..used][k]; }
  }
}
