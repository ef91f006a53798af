/** The chunked coding of section 7.1 of RFC 9112, and what the proxy's decoder
    makes of it. */
module ChunkedCoding {
  import opened Bytes
  import opened ReverseProxy

  /** A chunk as it may be written: any spelling of its size, an extension, the data. */
  datatype Chunk = Chunk(digits: Buffer, ext: Buffer, data: Buffer)

  /** Blanks and a semicolon start a chunk extension, and no line end is in it. */
  predicate ExtForm(ext: Buffer)
    decreases |ext|
  {
    ext == [] || ext[0] == SEMICOLON || ((ext[0] == 32 || ext[0] == 9) && |ext| > 1 && ExtForm(ext[1..]))
  }

  predicate LegalLine(digits: Buffer, ext: Buffer, size: nat) {
    && digits != [] && AllHex(digits) && HexValue(digits) == size
    && ExtForm(ext) && 13 !in ext && 10 !in ext
  }

  predicate Legal(c: Chunk) {
    LegalLine(c.digits, c.ext, |c.data|) && 0 < |c.data| < U64_END - 2
  }

  function EncodeChunk(c: Chunk): Buffer {
    c.digits + c.ext + CRLF + c.data + CRLF
  }

  function EncodeChunks(chunks: seq<Chunk>): Buffer {
    if chunks == [] then [] else EncodeChunk(chunks[0]) + EncodeChunks(chunks[1..])
  }

  /** Chunks, the last chunk, and the trailer section with its blank line. */
  function Encode(chunks: seq<Chunk>, last: Chunk, trailer: Buffer): Buffer {
    EncodeChunks(chunks) + (last.digits + last.ext + CRLF + trailer)
  }

  function BodyOf(chunks: seq<Chunk>): Buffer {
    if chunks == [] then [] else chunks[0].data + BodyOf(chunks[1..])
  }

  // -------------------------------------------------------------- the size line

  lemma {:induction false} FindCrlfAfter(line: Buffer, more: Buffer)
    requires 13 !in line
    ensures FindCrlf(line + CRLF + more) == Some(|line|)
    decreases |line|
  {
    var all := line + CRLF + more;
    if line == [] {
      assert all[..2] == CRLF;
    } else {
      assert all[0] == line[0] && all[..2][0] != CRLF[0];
      assert all[1..] == line[1..] + CRLF + more;
      FindCrlfAfter(line[1..], more);
    }
  }

  lemma {:induction false} AsciiBefore(a: Buffer, b: Buffer)
    requires forall i | 0 <= i < |a| :: a[i] <= 0x7F
    ensures IsUtf8(a + b) <==> IsUtf8(b)
    decreases |a|
  {
    if a == [] {
      assert a + b == b;
    } else {
      assert (a + b)[1..] == a[1..] + b;
      AsciiBefore(a[1..], b);
    }
  }

  /** The size part of a line: the digits, and the blanks before the extension. */
  lemma {:induction false} SizePart(digits: Buffer, ext: Buffer) returns (blanks: Buffer)
    requires SEMICOLON !in digits && ExtForm(ext)
    ensures UpTo(digits + ext, SEMICOLON) == digits + blanks
    ensures forall i | 0 <= i < |blanks| :: blanks[i] == 32 || blanks[i] == 9
    decreases |digits|
  {
    if digits == [] {
      assert digits + ext == ext;
      blanks := BlankPart(ext);
      assert digits + blanks == blanks;
    } else {
      assert (digits + ext)[1..] == digits[1..] + ext;
      blanks := SizePart(digits[1..], ext);
      assert [digits[0]] + (digits[1..] + blanks) == digits + blanks;
    }
  }

  lemma {:induction false} BlankPart(ext: Buffer) returns (blanks: Buffer)
    requires ExtForm(ext)
    ensures UpTo(ext, SEMICOLON) == blanks
    ensures forall i | 0 <= i < |blanks| :: blanks[i] == 32 || blanks[i] == 9
    decreases |ext|
  {
    if ext == [] || ext[0] == SEMICOLON {
      blanks := [];
    } else {
      var rest := BlankPart(ext[1..]);
      blanks := [ext[0]] + rest;
    }
  }

  lemma NoLeadingSpace(s: Buffer)
    requires s != [] && IsHexDigit(s[0])
    ensures LeadingSpace(s) == 0
  {
  }

  lemma NoTrailingSpace(s: Buffer)
    requires s != [] && IsHexDigit(s[|s| - 1])
    ensures TrailingSpace(s) == 0
  {
  }

  lemma {:induction false} TrimBlanks(digits: Buffer, blanks: Buffer)
    requires digits != [] && AllHex(digits)
    requires forall i | 0 <= i < |blanks| :: blanks[i] == 32 || blanks[i] == 9
    ensures Trim(digits + blanks) == digits
    decreases |blanks|
  {
    hide IsHexDigit, LeadingSpace, TrailingSpace;
    var s := digits + blanks;
    assert IsHexDigit(digits[0]) && IsHexDigit(digits[|digits| - 1]);
    NoLeadingSpace(s);
    if blanks == [] {
      assert s == digits;
      NoTrailingSpace(s);
    } else {
      OneBlank(s);
      assert s[..|s| - 1] == digits + blanks[..|blanks| - 1];
      TrimBlanks(digits, blanks[..|blanks| - 1]);
    }
  }

  lemma OneBlank(s: Buffer)
    requires s != [] && (s[|s| - 1] == 32 || s[|s| - 1] == 9)
    ensures TrailingSpace(s) == 1
  {
  }

  /** A legal size line is read as its size when its extension is UTF-8, and
      refused otherwise. */
  lemma LegalLineRead(digits: Buffer, ext: Buffer, size: nat)
    requires LegalLine(digits, ext, size) && size < U64_END
    ensures ChunkSize(digits + ext) == if IsUtf8(ext) then Some(size) else None
  {
    hide IsUtf8, Trim, UpTo, HexValue;
    AsciiBefore(digits, ext);
    var blanks := SizePart(digits, ext);
    TrimBlanks(digits, blanks);
    assert IsHexDigit(digits[0]);
  }

  // ------------------------------------------------------------------ the chunks

  lemma ChunkRead(c: Chunk, more: Buffer)
    requires Legal(c)
    ensures ReadHead(EncodeChunk(c) + more) == if IsUtf8(c.ext) then Part(c.data, more) else Bad(InvalidData)
  {
    hide FindCrlf, ChunkSize, IsUtf8;
    var line, rest := c.digits + c.ext, c.data + CRLF + more;
    var all := EncodeChunk(c) + more;
    assert all == line + CRLF + rest;
    NoCrIn(c.digits, c.ext);
    FindCrlfAfter(line, rest);
    assert all[..|line|] == line && all[|line| + 2..] == rest;
    LegalLineRead(c.digits, c.ext, |c.data|);
    assert rest[..|c.data|] == c.data && rest[|c.data| + 2..] == more;
  }

  lemma NoCrIn(digits: Buffer, ext: Buffer)
    requires AllHex(digits) && 13 !in ext
    ensures 13 !in digits + ext
  {
  }

  lemma LastChunkRead(last: Chunk, trailer: Buffer)
    requires LegalLine(last.digits, last.ext, 0)
    ensures ReadHead(last.digits + last.ext + CRLF + trailer) ==
            if IsUtf8(last.ext) then Last(trailer) else Bad(InvalidData)
  {
    hide FindCrlf, ChunkSize, IsUtf8;
    var line := last.digits + last.ext;
    var all := line + CRLF + trailer;
    NoCrIn(last.digits, last.ext);
    FindCrlfAfter(line, trailer);
    assert all[..|line|] == line && all[|line| + 2..] == trailer;
    LegalLineRead(last.digits, last.ext, 0);
  }

  function PutAll(c: Client, chunks: seq<Chunk>): Client
    decreases |chunks|
  {
    if chunks == [] then c else PutAll(Put(c, chunks[0].data), chunks[1..])
  }

  ghost predicate AllUtf8(chunks: seq<Chunk>, last: Chunk) {
    (forall i | 0 <= i < |chunks| :: IsUtf8(chunks[i].ext)) && IsUtf8(last.ext)
  }

  /** The decoder reads an encoding back unless one of its extensions is not UTF-8,
      which it refuses. */
  lemma {:induction false} DecodeEncoded(chunks: seq<Chunk>, last: Chunk, trailer: Buffer, c: Client)
    requires (forall i | 0 <= i < |chunks| :: Legal(chunks[i])) && LegalLine(last.digits, last.ext, 0)
    ensures var r := Decode(Encode(chunks, last, trailer), c);
            if AllUtf8(chunks, last) then r == (Done, Finish(PutAll(c, chunks))) else r.0 == InvalidData
    decreases |chunks|
  {
    hide ReadHead, EncodeChunk, IsUtf8, Legal, LegalLine;
    var end := last.digits + last.ext + CRLF + trailer;
    if chunks == [] {
      assert Encode(chunks, last, trailer) == end;
      LastChunkRead(last, trailer);
    } else {
      var more := Encode(chunks[1..], last, trailer);
      assert Encode(chunks, last, trailer) == EncodeChunk(chunks[0]) + more;
      ChunkRead(chunks[0], more);
      if IsUtf8(chunks[0].ext) {
        DecodeEncoded(chunks[1..], last, trailer, Put(c, chunks[0].data));
        assert AllUtf8(chunks, last) <==> AllUtf8(chunks[1..], last);
      }
    }
  }

  /** The client's side after `body`: held back within the limit, else passed on. */
  ghost predicate Holds(c: Client, body: Buffer) {
    if |body| <= BUFFERED_BODY_LIMIT then c == IDLE.(buffered := body)
    else c == IDLE.(started := true, delivered := body)
  }

  lemma {:induction false} PutAllHolds(c: Client, body: Buffer, chunks: seq<Chunk>)
    requires Holds(c, body)
    ensures Holds(PutAll(c, chunks), body + BodyOf(chunks))
    decreases |chunks|
  {
    if chunks == [] {
      assert body + BodyOf(chunks) == body;
    } else {
      PutAllHolds(Put(c, chunks[0].data), body + chunks[0].data, chunks[1..]);
      assert body + chunks[0].data + BodyOf(chunks[1..]) == body + BodyOf(chunks);
    }
  }

  /** Chunked decoding undoes chunked encoding: for every spelling of every list of
      chunks the client gets exactly the body and its end, with the length announced
      exactly when it is within the limit, if and only if all extensions are UTF-8;
      otherwise the body is refused. `DecodeBody` gives this for every split into reads. */
  lemma ChunkedRoundTrip(chunks: seq<Chunk>, last: Chunk, trailer: Buffer)
    requires (forall i | 0 <= i < |chunks| :: Legal(chunks[i])) && LegalLine(last.digits, last.ext, 0)
    ensures var r, body := Decode(Encode(chunks, last, trailer), IDLE), BodyOf(chunks);
            if AllUtf8(chunks, last)
            then r == (Done, Client(true, if |body| <= BUFFERED_BODY_LIMIT then Some(|body|) else None, [], body, true))
            else r.0 == InvalidData
  {
    hide Decode, Encode, AllUtf8, Legal, LegalLine;
    DecodeEncoded(chunks, last, trailer, IDLE);
    PutAllHolds(IDLE, [], chunks);
    assert [] + BodyOf(chunks) == BodyOf(chunks);
  }

  /** A chunk whose extension is a semicolon and one byte that is not UTF-8. */
  lemma ExtensionRefused(b: Byte)
    requires b > 0x7F
    ensures var chunk, last := Chunk([0x31], [SEMICOLON, b], [0x41]), Chunk([0x30], [], []);
            Legal(chunk) && Decode(Encode([chunk], last, CRLF), IDLE).0 == InvalidData
  {
    hide Decode, Encode;
    var chunk, last := Chunk([0x31], [SEMICOLON, b], [0x41]), Chunk([0x30], [], []);
    assert chunk.digits[..0] == [] && last.digits[..0] == [];
    assert HexValue(chunk.digits) == 1 && HexValue(last.digits) == 0;
    assert !IsUtf8(chunk.ext) by {
      assert chunk.ext[1..] == [b];
      assert ScalarLength(chunk.ext) == 1 && ScalarLength([b]) == 0;
    }
    ChunkedRoundTrip([chunk], last, CRLF);
    assert [chunk][0] == chunk;
  }

  // ------------------------------------------------------------- known lengths

  /** Takes up to `remaining` bytes out of the reads. */
  method TakeBytes(remaining: nat, arrivals: seq<Buffer>) returns (taken: Buffer)
    ensures taken == Concat(arrivals)[..Min(remaining, |Concat(arrivals)|)]
  {
    taken := [];
    var left, rest := remaining, arrivals;
    ghost var all := Concat(arrivals);
    while left > 0 && rest != []
      invariant 0 <= left == remaining - |taken| && taken <= all
      invariant left > 0 ==> taken + Concat(rest) == all
      decreases |rest|
    {
      var toTake := Min(|rest[0]|, left);
      assert all == taken + rest[0] + Concat(rest[1..]);
      taken := taken + rest[0][..toTake];
      assert toTake == |rest[0]| ==> rest[0][..toTake] == rest[0];
      left := left - toTake;
      rest := rest[1..];
    }
    if left > 0 {
      assert taken + Concat(rest) == taken == all;
    }
    assert |taken| == Min(remaining, |all|) && taken == all[..|taken|];
  }

  /** The HTTP/3 copy of a body with a small declared length: all of it is collected
      before the response starts. What came with the head is not cut, so the client
      gets exactly the declared bytes if and only if no more than that came with it. */
  method CopyBuffered(first: Buffer, arrivals: seq<Buffer>, total: nat) returns (status: Status, delivered: Buffer)
    ensures var all := first + Concat(arrivals);
            && status == (if |all| < total then UnexpectedEof else Done)
            && delivered == (if status != Done then [] else if |first| > total then first else all[..total])
            && (status.Done? ==> (delivered == all[..total] <==> |first| <= total))
  {
    var taken := TakeBytes(if |first| >= total then 0 else total - |first|, arrivals);
    if |first| + |taken| < total { return UnexpectedEof, []; }
    return Done, first + taken;
  }

  /** The copy of a body that is streamed. With a declared length that covers what
      came with the head, the client gets the declared bytes or as many as came;
      otherwise (`false`) the connection goes on as a tunnel. */
  method CopyStreamed(first: Buffer, arrivals: seq<Buffer>, declared: Option<nat>) returns (copied: bool, delivered: Buffer)
    ensures copied <==> declared.Some? && |first| <= declared.value
    ensures var all := first + Concat(arrivals);
            delivered == if copied then all[..Min(declared.value, |all|)] else first
  {
    delivered := first;
    if declared.None? || |first| > declared.value { return false, delivered; }
    var taken := TakeBytes(declared.value - |first|, arrivals);
    return true, first + taken;
  }
}
