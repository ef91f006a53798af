/** Reverse-proxy body transfer: a chunked upstream body is decoded out of reads of
    any size, buffered up to a limit so that its length can be announced, and
    streamed beyond it; a body of known length is copied. */
module ReverseProxy {
  import opened Bytes

  const CRLF: Buffer := [13, 10]
  const SEMICOLON: Byte := 59
  const BUFFERED_BODY_LIMIT := 2 * 1024 * 1024

  datatype Status = Done | UnexpectedEof | InvalidData | Overflow

  /** The client's side: whether the response was started, the length announced
      with it, the bytes held back, those delivered and the end. */
  datatype Client = Client(started: bool, contentLength: Option<nat>, buffered: Buffer, delivered: Buffer, eof: bool)

  const IDLE := Client(false, None, [], [], false)

  // -------------------------------------------------------------- the size line

  /** The position of the first CRLF. */
  function FindCrlf(b: Buffer): (p: Option<nat>)
    ensures p.Some? ==> p.value + 2 <= |b| && b[p.value..p.value + 2] == CRLF
    decreases |b|
  {
    if |b| < 2 then None
    else if b[..2] == CRLF then Some(0)
    else
      var p := FindCrlf(b[1..]);
      if p.Some? then Some(p.value + 1) else None
  }

  function UpTo(b: Buffer, c: Byte): Buffer {
    if b == [] || b[0] == c then [] else [b[0]] + UpTo(b[1..], c)
  }

  /** One scalar value with the White_Space property, in UTF-8. */
  predicate IsWhiteSpace(s: Buffer) {
    || (|s| == 1 && (9 <= s[0] <= 13 || s[0] == 32))
    || s == [0xC2, 0x85] || s == [0xC2, 0xA0]
    || s == [0xE1, 0x9A, 0x80] || s == [0xE2, 0x81, 0x9F] || s == [0xE3, 0x80, 0x80]
    || (|s| == 3 && s[0] == 0xE2 && s[1] == 0x80
        && (0x80 <= s[2] <= 0x8A || s[2] == 0xA8 || s[2] == 0xA9 || s[2] == 0xAF))
  }

  predicate SpaceFirst(s: Buffer, n: nat) {
    n <= |s| && IsWhiteSpace(s[..n])
  }

  predicate SpaceLast(s: Buffer, n: nat) {
    n <= |s| && IsWhiteSpace(s[|s| - n..])
  }

  /** The length of the white space at the start, or at the end, of a string. */
  function LeadingSpace(s: Buffer): (n: nat)
    ensures n <= |s|
  {
    if SpaceFirst(s, 1) then 1 else if SpaceFirst(s, 2) then 2 else if SpaceFirst(s, 3) then 3 else 0
  }

  function TrailingSpace(s: Buffer): (n: nat)
    ensures n <= |s|
  {
    if SpaceLast(s, 1) then 1 else if SpaceLast(s, 2) then 2 else if SpaceLast(s, 3) then 3 else 0
  }

  function Trim(s: Buffer): Buffer
    decreases |s|
  {
    var n := LeadingSpace(s);
    if n > 0 then Trim(s[n..])
    else
      var m := TrailingSpace(s);
      if m > 0 then Trim(s[..|s| - m]) else s
  }

  predicate AllHex(s: Buffer) {
    forall i | 0 <= i < |s| :: IsHexDigit(s[i])
  }

  function HexValue(s: Buffer): nat
    requires AllHex(s)
  {
    if s == [] then 0 else HexValue(s[..|s| - 1]) * 16 + HexDigit(s[|s| - 1])
  }

  /** Hexadecimal digits after at most one plus sign, within 64 bits. */
  function FromStrRadix16(s: Buffer): Option<nat> {
    var digits := if |s| > 1 && s[0] == 43 then s[1..] else s;
    if digits == [] || !AllHex(digits) || HexValue(digits) >= U64_END then None else Some(HexValue(digits))
  }

  function ChunkSize(line: Buffer): Option<nat> {
    if IsUtf8(line) then FromStrRadix16(Trim(UpTo(line, SEMICOLON))) else None
  }

  // ------------------------------------------------------------ the client side

  /** A decoded chunk: held back until the limit is passed, then passed on. */
  function Put(c: Client, data: Buffer): Client {
    if c.started then c.(delivered := c.delivered + data)
    else if |c.buffered + data| > BUFFERED_BODY_LIMIT then
      c.(started := true, buffered := [], delivered := c.delivered + (c.buffered + data))
    else c.(buffered := c.buffered + data)
  }

  /** The last chunk: a body that was held back goes out with its length. */
  function Finish(c: Client): Client {
    if c.started then c.(eof := true)
    else c.(started := true, contentLength := Some(|c.buffered|), buffered := [],
            delivered := c.delivered + c.buffered, eof := true)
  }

  // -------------------------------------------- decoding, the whole body at hand

  /** What stands at the start of a body: a chunk and what follows it, the last
      chunk, or something that is not a chunk. */
  datatype Head = Part(data: Buffer, rest: Buffer) | Last(rest: Buffer) | Bad(status: Status)

  function ReadHead(input: Buffer): (h: Head)
    ensures h.Part? ==> h.data != [] && |h.data| + |h.rest| < |input|
    ensures h.Last? ==> |h.rest| < |input|
    ensures h.Bad? ==> !h.status.Done?
  {
    var p := FindCrlf(input);
    if p.None? then Bad(UnexpectedEof)
    else
      var size, rest := ChunkSize(input[..p.value]), input[p.value + 2..];
      if size.None? then Bad(InvalidData)
      else if size.value == 0 then Last(rest)
      else if size.value + 2 >= U64_END then Bad(Overflow)
      else if |rest| < size.value + 2 then Bad(UnexpectedEof)
      else Part(rest[..size.value], rest[size.value + 2..])
  }

  /** The reference: the decoder's verdict on all the bytes that upstream sends. */
  function Decode(input: Buffer, c: Client): (Status, Client)
    decreases |input|
  {
    match ReadHead(input)
    case Bad(status) => (status, c)
    case Last(_) => (Done, Finish(c))
    case Part(data, rest) => Decode(rest, Put(c, data))
  }

  /** Where the last size line ends. */
  function LastAt(input: Buffer): (end: Option<nat>)
    ensures end.Some? ==> end.value <= |input|
    decreases |input|
  {
    match ReadHead(input)
    case Bad(_) => None
    case Last(rest) => Some(|input| - |rest|)
    case Part(_, rest) =>
      var end := LastAt(rest);
      if end.None? then None else Some(|input| - |rest| + end.value)
  }

  lemma {:induction false} FindCrlfAppend(a: Buffer, b: Buffer)
    requires FindCrlf(a).Some?
    ensures FindCrlf(a + b) == FindCrlf(a)
    decreases |a|
  {
    assert (a + b)[..2] == a[..2];
    if a[..2] != CRLF {
      assert (a + b)[1..] == a[1..] + b;
      FindCrlfAppend(a[1..], b);
    }
  }

  /** A line end that is not there yet ends behind what is there. */
  lemma {:induction false} FindCrlfNotYet(a: Buffer, b: Buffer)
    requires FindCrlf(a).None? && FindCrlf(a + b).Some?
    ensures |a| < FindCrlf(a + b).value + 2
    decreases |a|
  {
    if |a| >= 2 {
      assert (a + b)[..2] == a[..2];
      assert (a + b)[1..] == a[1..] + b;
      FindCrlfNotYet(a[1..], b);
    }
  }

  // ------------------------------------------------------------------ the reads

  /** Buffer and reads once as many reads are taken as `need` bytes ask for. */
  function Filled(buffer: Buffer, arrivals: seq<Buffer>, need: nat): (r: (Buffer, seq<Buffer>))
    ensures |r.0| >= need || r.1 == []
    decreases |arrivals|
  {
    if |buffer| >= need || arrivals == [] then (buffer, arrivals)
    else Filled(buffer + arrivals[0], arrivals[1..], need)
  }

  lemma {:induction false} FilledKeeps(buffer: Buffer, arrivals: seq<Buffer>, need: nat)
    ensures var r := Filled(buffer, arrivals, need); r.0 + Concat(r.1) == buffer + Concat(arrivals)
    decreases |arrivals|
  {
    if |buffer| < need && arrivals != [] {
      FilledKeeps(buffer + arrivals[0], arrivals[1..], need);
      assert buffer + arrivals[0] + Concat(arrivals[1..]) == buffer + Concat(arrivals);
    }
  }

  /** Buffer and reads once `n` bytes are used up, no read being taken before it is needed. */
  function Past(buffer: Buffer, arrivals: seq<Buffer>, n: nat): (Buffer, seq<Buffer>)
    requires n <= |buffer + Concat(arrivals)|
  {
    FilledKeeps(buffer, arrivals, n);
    var r := Filled(buffer, arrivals, n);
    (r.0[n..], r.1)
  }

  lemma PastNothing(buffer: Buffer, arrivals: seq<Buffer>)
    ensures Past(buffer, arrivals, 0) == (buffer, arrivals)
  {
    assert buffer[0..] == buffer;
  }

  lemma PastLeaves(buffer: Buffer, arrivals: seq<Buffer>, n: nat)
    requires n <= |buffer + Concat(arrivals)|
    ensures var p := Past(buffer, arrivals, n); p.0 + Concat(p.1) == (buffer + Concat(arrivals))[n..]
  {
    FilledKeeps(buffer, arrivals, n);
    var r := Filled(buffer, arrivals, n);
    assert (r.0 + Concat(r.1))[n..] == r.0[n..] + Concat(r.1);
  }

  lemma {:induction false} FilledTwice(buffer: Buffer, arrivals: seq<Buffer>, n: nat, m: nat)
    requires n <= m
    ensures var r := Filled(buffer, arrivals, n); Filled(buffer, arrivals, m) == Filled(r.0, r.1, m)
    decreases |arrivals|
  {
    if |buffer| < n && arrivals != [] {
      FilledTwice(buffer + arrivals[0], arrivals[1..], n, m);
    }
  }

  lemma {:induction false} FilledDrop(buffer: Buffer, arrivals: seq<Buffer>, n: nat, m: nat)
    requires n <= |buffer|
    ensures var r := Filled(buffer, arrivals, n + m);
            n <= |r.0| && Filled(buffer[n..], arrivals, m) == (r.0[n..], r.1)
    decreases |arrivals|
  {
    if |buffer| < n + m && arrivals != [] {
      FilledDrop(buffer + arrivals[0], arrivals[1..], n, m);
      assert (buffer + arrivals[0])[n..] == buffer[n..] + arrivals[0];
    }
  }

  /** Using up bytes in two goes takes the same reads as in one. */
  lemma PastPast(buffer: Buffer, arrivals: seq<Buffer>, n: nat, m: nat)
    requires n + m <= |buffer + Concat(arrivals)|
    ensures var p := Past(buffer, arrivals, n);
            m <= |p.0 + Concat(p.1)| && Past(p.0, p.1, m) == Past(buffer, arrivals, n + m)
  {
    hide Filled;
    PastLeaves(buffer, arrivals, n);
    FilledKeeps(buffer, arrivals, n);
    FilledKeeps(buffer, arrivals, n + m);
    var r := Filled(buffer, arrivals, n);
    FilledTwice(buffer, arrivals, n, n + m);
    FilledDrop(r.0, r.1, n, m);
    var all := Filled(buffer, arrivals, n + m);
    assert all.0[n..][m..] == all.0[n + m..];
  }

  // ------------------------------------------------------- decoding out of reads

  /** More upstream bytes: appended to the buffer, or the end. */
  method NeedMore(buffer: Buffer, arrivals: seq<Buffer>) returns (eof: bool, buffer': Buffer, arrivals': seq<Buffer>)
    ensures eof <==> arrivals == []
    ensures eof ==> buffer' == buffer && arrivals' == []
    ensures !eof ==> buffer' == buffer + arrivals[0] && arrivals' == arrivals[1..]
  {
    if arrivals == [] {
      return true, buffer, arrivals;
    }
    return false, buffer + arrivals[0], arrivals[1..];
  }

  lemma OneMore(buffer: Buffer, arrivals: seq<Buffer>)
    ensures arrivals != [] ==> buffer + arrivals[0] + Concat(arrivals[1..]) == buffer + Concat(arrivals)
    ensures arrivals == [] ==> buffer + Concat(arrivals) == buffer
  {
  }

  /** The first buffer in which a whole size line stands. */
  method AwaitLine(buffer: Buffer, arrivals: seq<Buffer>) returns (end: Option<nat>, buffer': Buffer, arrivals': seq<Buffer>)
    ensures end == FindCrlf(buffer + Concat(arrivals))
    ensures end.Some? ==> (buffer', arrivals') == Filled(buffer, arrivals, end.value + 2) && |buffer'| >= end.value + 2
    ensures end.None? ==> arrivals' == []
  {
    hide Concat;
    ghost var p := FindCrlf(buffer + Concat(arrivals));
    buffer', arrivals' := buffer, arrivals;
    while true
      invariant buffer' + Concat(arrivals') == buffer + Concat(arrivals)
      invariant p.Some? ==> Filled(buffer', arrivals', p.value + 2) == Filled(buffer, arrivals, p.value + 2)
      decreases |arrivals'|
    {
      end := FindCrlf(buffer');
      if end.Some? {
        FindCrlfAppend(buffer', Concat(arrivals'));
        return;
      }
      if p.Some? {
        FindCrlfNotYet(buffer', Concat(arrivals'));
      }
      OneMore(buffer', arrivals');
      var eof;
      eof, buffer', arrivals' := NeedMore(buffer', arrivals');
      if eof { return; }
    }
  }

  /** A buffer that holds `need` bytes, unless upstream ends before. */
  method AwaitBytes(need: nat, buffer: Buffer, arrivals: seq<Buffer>) returns (ok: bool, buffer': Buffer, arrivals': seq<Buffer>)
    ensures ok <==> |buffer + Concat(arrivals)| >= need
    ensures (buffer', arrivals') == Filled(buffer, arrivals, need)
    ensures ok ==> |buffer'| >= need
    ensures !ok ==> arrivals' == []
  {
    hide Concat;
    buffer', arrivals' := buffer, arrivals;
    while |buffer'| < need
      invariant buffer' + Concat(arrivals') == buffer + Concat(arrivals)
      invariant Filled(buffer', arrivals', need) == Filled(buffer, arrivals, need)
      decreases |arrivals'|
    {
      OneMore(buffer', arrivals');
      var eof;
      eof, buffer', arrivals' := NeedMore(buffer', arrivals');
      if eof { return false, buffer', arrivals'; }
    }
    assert |buffer'| <= |buffer' + Concat(arrivals')|;
    ok := true;
  }

  /** Whether the blank line that ends a trailer section is in the buffer. */
  predicate HasBlankLine(b: Buffer) {
    exists i | 0 <= i < |b| :: BlankLineAt(b, i)
  }

  predicate BlankLineAt(b: Buffer, i: nat) {
    i + 4 <= |b| && b[i..i + 4] == CRLF + CRLF
  }

  predicate StartsWithCrlf(b: Buffer) {
    |b| >= 2 && b[..2] == CRLF
  }

  /** The reads that are left once a blank line has arrived, or upstream has ended. */
  function AfterTrailers(b: Buffer, arrivals: seq<Buffer>): (left: seq<Buffer>)
    ensures |left| <= |arrivals|
    decreases |arrivals|
  {
    if HasBlankLine(b) || arrivals == [] then arrivals else AfterTrailers(b + arrivals[0], arrivals[1..])
  }

  /** Behind the last size line: the reads that are left ... */
  function Unread(b: Buffer, arrivals: seq<Buffer>): seq<Buffer> {
    if StartsWithCrlf(b) then arrivals else AfterTrailers(b, arrivals)
  }

  /** ... and whether the response waits for upstream to end. */
  predicate WaitsForEnd(b: Buffer, arrivals: seq<Buffer>) {
    !StartsWithCrlf(b) && !HasBlankLine(b + Concat(arrivals))
  }

  /** A blank line has arrived with the first `n` reads. */
  predicate BlankAfter(b: Buffer, arrivals: seq<Buffer>, n: nat)
    requires n <= |arrivals|
  {
    HasBlankLine(b + Concat(arrivals[..n]))
  }

  lemma BlankAfterOne(b: Buffer, arrivals: seq<Buffer>, n: nat)
    requires 0 < n <= |arrivals|
    ensures BlankAfter(b, arrivals, n) <==> BlankAfter(b + arrivals[0], arrivals[1..], n - 1)
  {
    hide HasBlankLine;
    assert arrivals[..n][1..] == arrivals[1..][..n - 1];
    assert b + (arrivals[0] + Concat(arrivals[1..][..n - 1])) == b + arrivals[0] + Concat(arrivals[1..][..n - 1]);
  }

  lemma BlankAtOnce(b: Buffer, arrivals: seq<Buffer>)
    ensures BlankAfter(b, arrivals, 0) <==> HasBlankLine(b)
    ensures HasBlankLine(b) ==> BlankAfter(b, arrivals, |arrivals|)
  {
    hide HasBlankLine;
    assert b + Concat(arrivals[..0]) == b;
    if HasBlankLine(b) {
      BlankLineStays(b, Concat(arrivals[..|arrivals|]));
    }
  }

  /** Reading stops with the first read that completes a blank line; without one it
      goes on to the end of upstream. */
  lemma {:induction false} TrailersEnd(b: Buffer, arrivals: seq<Buffer>)
    ensures var n := |arrivals| - |AfterTrailers(b, arrivals)|;
            && AfterTrailers(b, arrivals) == arrivals[n..]
            && (BlankAfter(b, arrivals, n) <==> BlankAfter(b, arrivals, |arrivals|))
            && (!BlankAfter(b, arrivals, |arrivals|) ==> n == |arrivals|)
            && (forall m | 0 <= m < n :: !BlankAfter(b, arrivals, m))
    decreases |arrivals|
  {
    hide HasBlankLine, BlankAfter;
    BlankAtOnce(b, arrivals);
    if HasBlankLine(b) || arrivals == [] {
      assert arrivals[0..] == arrivals;
    } else {
      TrailersEnd(b + arrivals[0], arrivals[1..]);
      forall m | 0 < m <= |arrivals| { BlankAfterOne(b, arrivals, m); }
    }
  }

  lemma BlankLineStays(a: Buffer, b: Buffer)
    requires HasBlankLine(a)
    ensures HasBlankLine(a + b)
  {
    var i :| 0 <= i < |a| && BlankLineAt(a, i);
    assert (a + b)[i..i + 4] == a[i..i + 4];
    assert BlankLineAt(a + b, i);
  }

  /** The rest of the message behind the last chunk: a blank line at once, or trailers. */
  method SkipTrailers(buffer: Buffer, arrivals: seq<Buffer>) returns (unread: seq<Buffer>, ended: bool)
    ensures unread == Unread(buffer, arrivals)
    ensures ended == WaitsForEnd(buffer, arrivals)
  {
    hide HasBlankLine, Concat;
    unread, ended := arrivals, false;
    if |buffer| >= 2 && buffer[..2] == CRLF { return; }
    var b := buffer;
    while !HasBlankLine(b)
      invariant AfterTrailers(b, unread) == AfterTrailers(buffer, arrivals)
      invariant b + Concat(unread) == buffer + Concat(arrivals)
      decreases |unread|
    {
      OneMore(b, unread);
      ended, b, unread := NeedMore(b, unread);
      if ended { return; }
    }
    BlankLineStays(b, Concat(unread));
  }

  /** The next chunk, as soon as all of it has arrived and without a read beyond it. */
  method NextChunk(buffer: Buffer, arrivals: seq<Buffer>) returns (h: Head, buffer': Buffer, arrivals': seq<Buffer>)
    ensures var all := buffer + Concat(arrivals);
            var head := ReadHead(all);
            match h
            case Bad(status) => head == h && (status.UnexpectedEof? ==> arrivals' == [])
            case Last(_) => head.Last? && (buffer', arrivals') == Past(buffer, arrivals, |all| - |head.rest|)
            case Part(data, _) =>
              head.Part? && head.data == data && (buffer', arrivals') == Past(buffer, arrivals, |all| - |head.rest|)
  {
    hide ChunkSize, FindCrlf, Concat, Filled;
    ghost var all := buffer + Concat(arrivals);
    var lineEnd;
    lineEnd, buffer', arrivals' := AwaitLine(buffer, arrivals);
    if lineEnd.None? { return Bad(UnexpectedEof), buffer', arrivals'; }
    var n := lineEnd.value + 2;
    FilledKeeps(buffer, arrivals, n);
    assert buffer' + Concat(arrivals') == all;
    var line := buffer'[..lineEnd.value];
    buffer' := buffer'[n..];
    ghost var body := all[n..];
    assert all[..lineEnd.value] == line && body == buffer' + Concat(arrivals');
    var size := ChunkSize(line);
    if size.None? { return Bad(InvalidData), buffer', arrivals'; }
    if size.value == 0 {
      assert |all| - |body| == n;
      return Last([]), buffer', arrivals';
    }
    if size.value + 2 >= U64_END { return Bad(Overflow), buffer', arrivals'; }
    ghost var lineBuffer, lineArrivals := buffer', arrivals';
    var ok;
    ok, buffer', arrivals' := AwaitBytes(size.value + 2, buffer', arrivals');
    if !ok { return Bad(UnexpectedEof), buffer', arrivals'; }
    FilledKeeps(lineBuffer, lineArrivals, size.value + 2);
    assert buffer' + Concat(arrivals') == body;
    PastPast(buffer, arrivals, n, size.value + 2);
    h := Part(buffer'[..size.value], []);
    assert h.data == body[..size.value];
    buffer' := buffer'[size.value + 2..];
    assert |all| - |body[size.value + 2..]| == n + (size.value + 2);
  }

  /** The incremental decoder: `first` came with the response head, `arrivals` come
      after it. Its verdict and all that the client sees depend on the bytes only,
      not on how they are cut into reads. Which reads are taken, and whether upstream
      has to end first, does depend on the cut. */
  method DecodeBody(first: Buffer, arrivals: seq<Buffer>)
    returns (status: Status, client: Client, unread: seq<Buffer>, ended: bool)
    ensures (status, client) == Decode(first + Concat(arrivals), IDLE)
    ensures status.Done? <==> LastAt(first + Concat(arrivals)).Some?
    ensures status.Done? ==> var p := Past(first, arrivals, LastAt(first + Concat(arrivals)).value);
                             unread == Unread(p.0, p.1) && ended == WaitsForEnd(p.0, p.1)
    ensures status.UnexpectedEof? ==> unread == [] && ended
  {
    hide ReadHead, Concat, Past, Unread, WaitsForEnd;
    var buffer, rest := first, arrivals;
    client := IDLE;
    ghost var all, used: nat := first + Concat(arrivals), 0;
    PastNothing(first, arrivals);
    assert all[0..] == all;
    while true
      invariant used <= |all| && (buffer, rest) == Past(first, arrivals, used) && buffer + Concat(rest) == all[used..]
      invariant Decode(all[used..], client) == Decode(all, IDLE)
      invariant LastAt(all) == var end := LastAt(all[used..]); if end.None? then None else Some(used + end.value)
      decreases |all| - used
    {
      ghost var left := all[used..];
      ghost var whole := ReadHead(left);
      var head;
      head, buffer, rest := NextChunk(buffer, rest);
      match head {
        case Bad(failure) =>
          return failure, client, rest, failure.UnexpectedEof?;
        case Last(_) =>
          PastPast(first, arrivals, used, |left| - |whole.rest|);
          unread, ended := SkipTrailers(buffer, rest);
          if !client.started {
            client := client.(contentLength := Some(|client.buffered|), started := true,
                              delivered := client.delivered + client.buffered, buffered := []);
          }
          client := client.(eof := true);
          status := Done;
          return;
        case Part(data, _) =>
          PastPast(first, arrivals, used, |left| - |whole.rest|);
          PartRest(left);
          used := used + (|left| - |whole.rest|);
          PastLeaves(first, arrivals, used);
          assert all[used..] == whole.rest;
          if !client.started {
            client := client.(buffered := client.buffered + data);
            if |client.buffered| > BUFFERED_BODY_LIMIT {
              client := client.(started := true, delivered := client.delivered + client.buffered, buffered := []);
            }
          } else {
            client := client.(delivered := client.delivered + data);
          }
      }
    }
  }

  lemma PartRest(input: Buffer)
    requires ReadHead(input).Part?
    ensures ReadHead(input).rest == input[|input| - |ReadHead(input).rest|..]
  {
  }
}
