/** Where a chunked message ends: which reads are taken for it, and which byte strings
    pass for one. */
module MessageEnd {
  import opened Bytes
  import opened ReverseProxy
  import opened ChunkedCoding

  // ------------------------------------------------------------------ the end of a message

  /** Trailer fields, each on its line. */
  predicate LegalFields(lines: seq<Buffer>) {
    forall i | 0 <= i < |lines| :: lines[i] != [] && 13 !in lines[i]
  }

  function FieldLines(lines: seq<Buffer>): Buffer {
    if lines == [] then [] else lines[0] + CRLF + FieldLines(lines[1..])
  }

  /** What stands behind the last size line (section 7.1 of RFC 9112). */
  function TrailerSection(lines: seq<Buffer>): Buffer {
    FieldLines(lines) + CRLF
  }

  lemma {:induction false} FieldLinesEnd(lines: seq<Buffer>)
    requires lines != []
    ensures |FieldLines(lines)| >= 2 && FieldLines(lines)[|FieldLines(lines)| - 2..] == CRLF
    decreases |lines|
  {
    var head, rest := lines[0] + CRLF, FieldLines(lines[1..]);
    if |lines| == 1 {
      assert head + rest == head && head[|head| - 2..] == CRLF;
    } else {
      FieldLinesEnd(lines[1..]);
      assert (head + rest)[|head + rest| - 2..] == rest[|rest| - 2..];
    }
  }

  /** A trailer section has a blank line in it exactly when it has fields. */
  lemma BlankLineIffFields(lines: seq<Buffer>)
    requires LegalFields(lines)
    ensures HasBlankLine(TrailerSection(lines)) <==> lines != []
    ensures StartsWithCrlf(TrailerSection(lines)) <==> lines == []
  {
    var fields, all := FieldLines(lines), TrailerSection(lines);
    if lines != [] {
      FieldLinesEnd(lines);
      var i := |fields| - 2;
      assert all[i..i + 4] == fields[i..] + CRLF;
      assert BlankLineAt(all, i);
      assert all[0] == lines[0][0] && lines[0][0] in lines[0];
    } else {
      assert all == CRLF;
    }
  }

  lemma {:induction false} LastAtEncoded(chunks: seq<Chunk>, last: Chunk, trailer: Buffer)
    requires (forall i | 0 <= i < |chunks| :: Legal(chunks[i])) && LegalLine(last.digits, last.ext, 0)
    requires AllUtf8(chunks, last)
    ensures LastAt(Encode(chunks, last, trailer)) == Some(|Encode(chunks, last, trailer)| - |trailer|)
    decreases |chunks|
  {
    hide ReadHead, EncodeChunk, IsUtf8, Legal, LegalLine;
    if chunks == [] {
      assert Encode(chunks, last, trailer) == last.digits + last.ext + CRLF + trailer;
      LastChunkRead(last, trailer);
    } else {
      var more := Encode(chunks[1..], last, trailer);
      assert Encode(chunks, last, trailer) == EncodeChunk(chunks[0]) + more;
      ChunkRead(chunks[0], more);
      LastAtEncoded(chunks[1..], last, trailer);
    }
  }

  /** Reads that come later are not touched while the earlier ones suffice. */
  lemma {:induction false} FilledWithin(buffer: Buffer, own: seq<Buffer>, later: seq<Buffer>, need: nat)
    requires need <= |buffer + Concat(own)|
    ensures var r := Filled(buffer, own, need); Filled(buffer, own + later, need) == (r.0, r.1 + later)
    decreases |own|
  {
    if |buffer| < need {
      OneMore(buffer, own);
      FilledWithin(buffer + own[0], own[1..], later, need);
      assert (own + later)[0] == own[0] && (own + later)[1..] == own[1..] + later;
    }
  }

  /** Trailers are read within the reads of one's own exactly when a blank line is in them. */
  lemma {:induction false} TrailersWithin(b: Buffer, own: seq<Buffer>, later: seq<Buffer>)
    requires later != []
    ensures |AfterTrailers(b, own + later)| >= |later| <==> HasBlankLine(b + Concat(own))
    decreases |own|
  {
    hide HasBlankLine;
    OneMore(b, own);
    if HasBlankLine(b) {
      BlankLineStays(b, Concat(own));
    } else if own == [] {
      assert own + later == later;
    } else {
      assert (own + later)[0] == own[0] && (own + later)[1..] == own[1..] + later;
      TrailersWithin(b + own[0], own[1..], later);
    }
  }

  /** The read that completes the last size line, `cut` bytes into the message, brings
      the two bytes behind it as well. */
  predicate BroughtAlong(first: Buffer, own: seq<Buffer>, cut: nat) {
    |Filled(first, own, cut).0| >= cut + 2
  }

  lemma ConcatTwo(own: seq<Buffer>, later: seq<Buffer>)
    ensures Concat(own + later) == Concat(own) + Concat(later)
  {
    if own == [] {
      assert own + later == later;
    } else {
      assert (own + later)[1..] == own[1..] + later;
      ConcatTwo(own[1..], later);
      assert own[0] + (Concat(own[1..]) + Concat(later)) == own[0] + Concat(own[1..]) + Concat(later);
    }
  }

  /** Behind the last size line of a message that comes with `first` and `own`. */
  lemma MessageTail(message: Buffer, cut: nat, first: Buffer, own: seq<Buffer>, later: seq<Buffer>)
    requires cut <= |message| && first + Concat(own) == message
    ensures var p := Past(first, own, cut);
            && cut <= |first + Concat(own + later)| && Past(first, own + later, cut) == (p.0, p.1 + later)
            && p.0 + Concat(p.1) == message[cut..]
            && (|p.0| >= 2 <==> BroughtAlong(first, own, cut))
  {
    hide Concat, Filled;
    ConcatTwo(own, later);
    FilledWithin(first, own, later, cut);
    FilledKeeps(first, own, cut);
    PastLeaves(first, own, cut);
  }

  /** A message is finished once it is there: it has trailers, or its final line end came
      with its last size line, or a blank line comes by behind it. */
  predicate Finishes(lines: seq<Buffer>, extra: Buffer, first: Buffer, own: seq<Buffer>, cut: nat) {
    lines != [] || BroughtAlong(first, own, cut) || HasBlankLine(CRLF + extra)
  }

  lemma TailEndsIff(message: Buffer, cut: nat, lines: seq<Buffer>, extra: Buffer,
                    first: Buffer, own: seq<Buffer>, later: seq<Buffer>)
    requires cut <= |message| && first + Concat(own) == message && message[cut..] == TrailerSection(lines) + extra
    requires LegalFields(lines) && later != []
    ensures var p := Past(first, own, cut);
            && (|Unread(p.0, p.1 + later)| >= |later| <==> Finishes(lines, extra, first, own, cut))
            && (WaitsForEnd(p.0, p.1) <==> !Finishes(lines, extra, first, own, cut))
  {
    hide HasBlankLine, Filled, Concat, BroughtAlong, FieldLines;
    MessageTail(message, cut, first, own, later);
    var p := Past(first, own, cut);
    var t := TrailerSection(lines);
    BlankLineIffFields(lines);
    TrailersWithin(p.0, p.1, later);
    assert p.0 == (t + extra)[..|p.0|];
    if lines == [] {
      assert t == CRLF by { NoFields(); }
      assert |p.0| >= 2 ==> p.0[..2] == t;
    } else {
      BlankLineStays(t, extra);
    }
  }

  lemma NoFields()
    ensures TrailerSection([]) == CRLF
  {
  }

  /** Let a legal message and whatever follows it in the same reads come with `first` and
      `own`. No read beyond them is taken, and upstream need not end, if and only if the
      message has trailers, or the read that completes its last size line brings its final
      line end as well, or a blank line is in what follows. */
  lemma FinishedInTimeIff(chunks: seq<Chunk>, last: Chunk, lines: seq<Buffer>, extra: Buffer,
                          first: Buffer, own: seq<Buffer>, later: seq<Buffer>)
    requires (forall i | 0 <= i < |chunks| :: Legal(chunks[i])) && LegalLine(last.digits, last.ext, 0)
    requires AllUtf8(chunks, last) && LegalFields(lines) && later != []
    requires first + Concat(own) == Encode(chunks, last, TrailerSection(lines) + extra)
    ensures var cut := |first + Concat(own)| - |TrailerSection(lines) + extra|;
            && LastAt(first + Concat(own + later)) == LastAt(first + Concat(own)) == Some(cut)
            && cut <= |first + Concat(own + later)|
            && var p, p' := Past(first, own, cut), Past(first, own + later, cut);
               && (|Unread(p'.0, p'.1)| >= |later| <==> Finishes(lines, extra, first, own, cut))
               && (WaitsForEnd(p.0, p.1) <==> !Finishes(lines, extra, first, own, cut))
  {
    hide Decode, Filled, Concat, Finishes, TrailerSection, Unread, WaitsForEnd, LastAt, AllUtf8, Legal, LegalLine, EncodeChunks;
    var trailer := TrailerSection(lines) + extra;
    var message := Encode(chunks, last, trailer);
    var cut := |message| - |trailer|;
    assert message[cut..] == trailer;
    LastAtEncoded(chunks, last, trailer);
    LastAtEncoded(chunks, last, trailer + Concat(later));
    ConcatTwo(own, later);
    assert first + Concat(own + later) == Encode(chunks, last, trailer + Concat(later)) by {
      assert first + (Concat(own) + Concat(later)) == message + Concat(later);
      EncodeThen(chunks, last, trailer, Concat(later));
    }
    MessageTail(message, cut, first, own, later);
    TailEndsIff(message, cut, lines, extra, first, own, later);
  }

  lemma EncodeThen(chunks: seq<Chunk>, last: Chunk, trailer: Buffer, more: Buffer)
    ensures Encode(chunks, last, trailer) + more == Encode(chunks, last, trailer + more)
  {
    hide EncodeChunks;
    var a, b := EncodeChunks(chunks), last.digits + last.ext + CRLF;
    assert a + (b + trailer) + more == a + (b + (trailer + more));
  }

  /** An empty body with its final line end in a read of its own: every later read is taken,
      and the response waits for upstream to end, unless a blank line comes by. */
  lemma LineEndApart(later: seq<Buffer>)
    requires !HasBlankLine(CRLF + Concat(later))
    ensures var p := Past([0x30, 13, 10], [CRLF] + later, 3);
            && LastAt([0x30, 13, 10] + Concat([CRLF] + later)) == Some(3)
            && Unread(p.0, p.1) == [] && WaitsForEnd(p.0, p.1)
  {
    hide HasBlankLine, LastAt;
    var arrivals, rest := [CRLF] + later, CRLF + Concat(later);
    assert [0x30, 13, 10][3..] == [];
    assert arrivals[1..] == later && [] + Concat(arrivals) == rest;
    TrailersEnd([], arrivals);
    assert arrivals[..|arrivals|] == arrivals;
    var last := Chunk([0x30], [], []);
    assert last.digits[..0] == [] && HexValue(last.digits) == 0;
    LastAtEncoded([], last, rest);
    assert [0x30, 13, 10] + rest == Encode([], last, rest);
  }

  // ------------------------------------------------------------------ what passes for a message

  /** A size line, its data, and two bytes that nobody looks at. */
  datatype Piece = Piece(line: Buffer, data: Buffer, ignored: Buffer)

  predicate Passes(p: Piece) {
    && FindCrlf(p.line).None? && ChunkSize(p.line) == Some(|p.data|)
    && 0 < |p.data| < U64_END - 2 && |p.ignored| == 2
  }

  predicate ZeroLine(line: Buffer) {
    FindCrlf(line).None? && ChunkSize(line) == Some(0)
  }

  function PieceBytes(p: Piece): Buffer {
    p.line + CRLF + p.data + p.ignored
  }

  function Pieces(ps: seq<Piece>, zero: Buffer, rest: Buffer): Buffer {
    if ps == [] then zero + CRLF + rest else PieceBytes(ps[0]) + Pieces(ps[1..], zero, rest)
  }

  ghost predicate IsPieces(input: Buffer, ps: seq<Piece>, zero: Buffer, rest: Buffer) {
    (forall i | 0 <= i < |ps| :: Passes(ps[i])) && ZeroLine(zero) && input == Pieces(ps, zero, rest)
  }

  lemma {:induction false} FindCrlfBehind(line: Buffer, more: Buffer)
    requires FindCrlf(line).None?
    ensures FindCrlf(line + CRLF + more) == Some(|line|)
    decreases |line|
  {
    var all := line + CRLF + more;
    if line == [] {
      assert all[..2] == CRLF;
    } else {
      assert all[1..] == line[1..] + CRLF + more;
      assert all[..2] == [line[0], if |line| > 1 then line[1] else 13];
      assert |line| > 1 ==> line[..2] == [line[0], line[1]];
      FindCrlfBehind(line[1..], more);
    }
  }

  lemma {:induction false} FindCrlfBefore(input: Buffer)
    requires FindCrlf(input).Some?
    ensures FindCrlf(input[..FindCrlf(input).value]).None?
    decreases |input|
  {
    var p := FindCrlf(input).value;
    if p >= 2 {
      assert input[..p][..2] == input[..2] && input[..p][1..] == input[1..][..p - 1];
      FindCrlfBefore(input[1..]);
    }
  }

  lemma PieceRead(p: Piece, more: Buffer)
    requires Passes(p)
    ensures ReadHead(PieceBytes(p) + more) == Part(p.data, more)
  {
    hide FindCrlf, ChunkSize;
    var rest := p.data + p.ignored + more;
    var all := PieceBytes(p) + more;
    assert all == p.line + CRLF + rest;
    FindCrlfBehind(p.line, rest);
    assert all[..|p.line|] == p.line && all[|p.line| + 2..] == rest;
    assert rest[..|p.data|] == p.data && rest[|p.data| + 2..] == more;
  }

  lemma ZeroLineRead(zero: Buffer, rest: Buffer)
    requires ZeroLine(zero)
    ensures ReadHead(zero + CRLF + rest) == Last(rest)
  {
    hide FindCrlf, ChunkSize;
    var all := zero + CRLF + rest;
    FindCrlfBehind(zero, rest);
    assert all[..|zero|] == zero && all[|zero| + 2..] == rest;
  }

  function PutPieces(c: Client, ps: seq<Piece>): Client
    decreases |ps|
  {
    if ps == [] then c else PutPieces(Put(c, ps[0].data), ps[1..])
  }

  lemma {:induction false} PiecesDecoded(input: Buffer, ps: seq<Piece>, zero: Buffer, rest: Buffer, c: Client)
    requires IsPieces(input, ps, zero, rest)
    ensures Decode(input, c) == (Done, Finish(PutPieces(c, ps)))
    decreases |ps|
  {
    hide ReadHead, Passes, ZeroLine, PieceBytes;
    if ps == [] {
      ZeroLineRead(zero, rest);
    } else {
      PieceRead(ps[0], Pieces(ps[1..], zero, rest));
      PiecesDecoded(Pieces(ps[1..], zero, rest), ps[1..], zero, rest, Put(c, ps[0].data));
    }
  }

  lemma LineOf(input: Buffer)
    requires FindCrlf(input).Some?
    ensures var n := FindCrlf(input).value;
            FindCrlf(input[..n]).None? && input == input[..n] + CRLF + input[n + 2..]
  {
    FindCrlfBefore(input);
    var n := FindCrlf(input).value;
    assert input == input[..n] + input[n..n + 2] + input[n + 2..];
  }

  lemma PieceOf(input: Buffer) returns (p: Piece)
    requires ReadHead(input).Part?
    ensures Passes(p) && p.data == ReadHead(input).data && input == PieceBytes(p) + ReadHead(input).rest
  {
    hide FindCrlf, ChunkSize;
    LineOf(input);
    var n := FindCrlf(input).value;
    var Part(data, after) := ReadHead(input);
    var body := input[n + 2..];
    p := Piece(input[..n], data, body[|data|..|data| + 2]);
    assert body == p.data + p.ignored + after;
    assert input == p.line + CRLF + (p.data + p.ignored + after) == PieceBytes(p) + after;
  }

  /** The pieces that a decoded body is made of. */
  lemma {:induction false} PiecesOf(input: Buffer, c: Client) returns (ps: seq<Piece>, zero: Buffer, rest: Buffer)
    requires Decode(input, c).0.Done?
    ensures IsPieces(input, ps, zero, rest)
    decreases |input|
  {
    hide FindCrlf, ChunkSize, Passes, PieceBytes;
    if ReadHead(input).Last? {
      LineOf(input);
      var n := FindCrlf(input).value;
      ps, zero, rest := [], input[..n], input[n + 2..];
    } else {
      var p := PieceOf(input);
      ps, zero, rest := PiecesOf(ReadHead(input).rest, Put(c, p.data));
      assert ([p] + ps)[1..] == ps;
      ps := [p] + ps;
    }
  }

  /** A body is decoded exactly when it is chunks with any two bytes behind each one's
      data and a zero size line with anything behind it. */
  lemma DoneIffPieces(input: Buffer, c: Client)
    ensures Decode(input, c).0.Done? <==> exists ps, zero, rest :: IsPieces(input, ps, zero, rest)
  {
    if Decode(input, c).0.Done? {
      var ps, zero, rest := PiecesOf(input, c);
      assert IsPieces(input, ps, zero, rest);
    }
    if ps, zero, rest :| IsPieces(input, ps, zero, rest) {
      PiecesDecoded(input, ps, zero, rest, c);
    }
  }

  /** "1", "A" with two more letters where the line end should be, "0": one byte of body. */
  lemma MissingLineEndTaken()
    ensures Decode([0x31, 13, 10, 0x41, 0x42, 0x43, 0x30, 13, 10], IDLE) == (Done, Client(true, Some(1), [], [0x41], true))
  {
    hide Decode, FindCrlf, ChunkSize;
    var one: Buffer, nil: Buffer := [0x31], [0x30];
    SizeOfDigit(1);
    SizeOfDigit(0);
    var ps := [Piece(one, [0x41], [0x42, 0x43])];
    assert Passes(ps[0]) && ZeroLine(nil) by { ShortLine(one); ShortLine(nil); }
    var input: Buffer := [0x31, 13, 10, 0x41, 0x42, 0x43, 0x30, 13, 10];
    assert ps[1..] == [] && Pieces([], nil, []) == nil + CRLF;
    assert input == PieceBytes(ps[0]) + (nil + CRLF);
    assert IsPieces(input, ps, nil, []);
    PiecesDecoded(input, ps, nil, [], IDLE);
    var body: Buffer := [0x41];
    assert [] + body == body;
    assert PutPieces(IDLE, ps) == Put(IDLE, body) == IDLE.(buffered := body);
  }

  lemma ShortLine(line: Buffer)
    requires |line| < 2
    ensures FindCrlf(line).None?
  {
  }

  lemma SizeOfDigit(n: nat)
    requires n < 10
    ensures ChunkSize([0x30 + n]) == Some(n)
  {
    hide ChunkSize, IsUtf8;
    var digits: Buffer := [0x30 + n];
    assert digits[..0] == [] && HexValue(digits) == n;
    LegalLineRead(digits, [], n);
    assert digits + [] == digits;
    assert IsUtf8([]) by { EmptyUtf8(); }
  }

  lemma EmptyUtf8()
    ensures IsUtf8([])
  {
  }
}
