/** Byte pipes: data read from a source is written to a sink that takes only part
    of it, and the exchange may be dropped at any point where it waits. */
module Pipe {
  import opened Bytes

  datatype Data = Chunk(bytes: Buffer) | Eof

  datatype BodyLength = Determined(n: nat) | Chunked

  datatype SourceState =
    | WantSendRequest(request: Buffer, length: BodyLength)
    | TransferringBody(length: BodyLength, sent: nat)
    | Done

  /** A source of bytes. `incoming` is what it is still going to yield and
      `consumed` the number of bytes it was told were used up. A forwarded source
      puts a serialised request before the body of the source inside it. */
  datatype Source =
    | Plain(incoming: seq<Data>, consumed: nat)
    | Forwarded(state: SourceState, skip: nat, incoming: seq<Data>, consumed: nat)

  /** The bytes of a list of data, and those before its first end. */
  function AllBytes(ds: seq<Data>): Buffer {
    if ds == [] then [] else (if ds[0].Chunk? then ds[0].bytes else []) + AllBytes(ds[1..])
  }

  function Body(ds: seq<Data>): Buffer {
    if ds == [] || ds[0].Eof? then [] else ds[0].bytes + Body(ds[1..])
  }

  // -------------------------------------------------------------------- sources

  /** A read: nothing when the source has to wait. */
  function Read(src: Source): Option<(Data, Source)> {
    match src
    case Plain(ds, c) => if ds == [] then None else Some((ds[0], Plain(ds[1..], c)))
    case Forwarded(WantSendRequest(request, length), _, _, _) =>
      Some((Chunk(request),
            src.(skip := |request|,
                 state := if length == Determined(0) then Done else TransferringBody(length, 0))))
    case Forwarded(TransferringBody(length, sent), _, ds, _) =>
      if ds == [] then None
      else
        var src' := src.(incoming := ds[1..]);
        if ds[0].Chunk? && (length.Determined? ==> sent < length.n) then
          var bytes := if length.Chunked? then ds[0].bytes else ds[0].bytes[..Min(|ds[0].bytes|, length.n - sent)];
          Some((Chunk(bytes), src'.(state := TransferringBody(length, sent + |bytes|))))
        else Some((Eof, src'.(state := Done)))
    case Forwarded(Done, _, _, _) => Some((Eof, src))
  }

  /** Acknowledges bytes; those of the request are not passed on. */
  function Consume(src: Source, size: nat): Source {
    match src
    case Plain(ds, c) => Plain(ds, c + size)
    case Forwarded(state, skip, _, c) =>
      var own := Min(skip, size);
      src.(skip := skip - own, consumed := if state.TransferringBody? then c + (size - own) else c)
  }

  /** A read that is dropped while it waits. A plain source loses nothing; a
      forwarded one has already taken its state out. */
  function Abandon(src: Source): Source {
    if src.Forwarded? && src.state.TransferringBody? then src.(state := Done) else src
  }

  // -------------------------------------------------------------- one direction

  /** The pipe, with a record of what passed: bytes read and accepted, the metrics'
      total and the ends signalled to the sink. */
  datatype Flow = Flow(source: Source, pending: Option<Buffer>,
                       read: Buffer, accepted: Buffer, metered: nat, eofs: nat)

  /** Where an exchange waits: for data or room, or for the last flush. */
  datatype Await = ForData | ForFlush

  /** What it waits for comes, and a following write takes up to `room` bytes, or
      the time is over, perhaps in the middle of a read. */
  datatype Move = Ready(room: nat) | Elapsed(reading: bool)

  datatype Status = Running | TimedOut | Finished

  /** The write, and what is booked for it. */
  function Write(f: Flow, bytes: Buffer, room: nat): Flow {
    var sent := Min(room, |bytes|);
    f.(accepted := f.accepted + bytes[..sent],
       metered := f.metered + sent,
       source := Consume(f.source, sent),
       pending := if sent < |bytes| then Some(bytes[sent..]) else None)
  }

  function Drop(f: Flow, at: Await, reading: bool): Flow {
    if at.ForData? && f.pending.None? && reading then f.(source := Abandon(f.source)) else f
  }

  function Advance(f: Flow, at: Await, move: Move): (Flow, Await, Status) {
    match (at, move)
    case (ForFlush, Ready(_)) => (f, at, Finished)
    case (ForFlush, Elapsed(_)) => (f, at, Running)
    case (ForData, Elapsed(reading)) => (Drop(f, at, reading), at, TimedOut)
    case (ForData, Ready(room)) =>
      if f.pending.Some? then (Write(f.(pending := None), f.pending.value, room), at, Running)
      else
        match Read(f.source)
        case None => (f, at, Running)
        case Some((Chunk(bytes), src)) =>
          (Write(f.(source := src, read := f.read + bytes), bytes, room), at, Running)
        case Some((Eof, src)) => (f.(source := src, eofs := f.eofs + 1), ForFlush, Running)
  }

  /** A call of `exchange`: it runs until it times out, finishes or is dropped. */
  datatype Call = Call(moves: seq<Move>, droppedInRead: bool)

  function RunMoves(f: Flow, at: Await, moves: seq<Move>): (Flow, Await, Status)
    decreases |moves|
  {
    if moves == [] then (f, at, Running)
    else
      var r := Advance(f, at, moves[0]);
      if r.2.Running? then RunMoves(r.0, r.1, moves[1..]) else r
  }

  function Exchange(f: Flow, call: Call): (Flow, Status) {
    var r := RunMoves(f, ForData, call.moves);
    (if r.2.Running? then Drop(r.0, r.1, call.droppedInRead) else r.0, r.2)
  }

  function Calls(f: Flow, calls: seq<Call>): Flow
    decreases |calls|
  {
    if calls == [] then f else Calls(Exchange(f, calls[0]).0, calls[1..])
  }

  /** Another move continues a run that still goes on. */
  lemma {:induction false} RunMovesAppend(f: Flow, at: Await, moves: seq<Move>, move: Move)
    ensures var r := RunMoves(f, at, moves);
            RunMoves(f, at, moves + [move]) == if r.2.Running? then Advance(r.0, r.1, move) else r
    decreases |moves|
  {
    if moves == [] {
      assert (moves + [move])[1..] == [];
    } else {
      assert (moves + [move])[1..] == moves[1..] + [move];
      var r := Advance(f, at, moves[0]);
      if r.2.Running? { RunMovesAppend(r.0, r.1, moves[1..], move); }
    }
  }

  // --------------------------------------------------------- nothing gets lost

  function PendingBytes(f: Flow): Buffer {
    if f.pending.Some? then f.pending.value else []
  }

  /** What was read is what the sink accepted followed by what is pending, and the
      metrics count what was accepted. */
  ghost predicate Conserved(f: Flow) {
    && f.read == f.accepted + PendingBytes(f)
    && f.metered == |f.accepted|
    && (f.pending.Some? ==> f.pending.value != [])
  }

  lemma AdvanceConserves(f: Flow, at: Await, move: Move)
    requires Conserved(f)
    ensures Conserved(Advance(f, at, move).0)
  {
  }

  lemma {:induction false} MovesConserve(f: Flow, at: Await, moves: seq<Move>)
    requires Conserved(f)
    ensures Conserved(RunMoves(f, at, moves).0)
    decreases |moves|
  {
    if moves != [] {
      AdvanceConserves(f, at, moves[0]);
      var r := Advance(f, at, moves[0]);
      if r.2.Running? { MovesConserve(r.0, r.1, moves[1..]); }
    }
  }

  /** Conservation over every run, wherever its calls end. */
  lemma {:induction false} CallsConserve(f: Flow, calls: seq<Call>)
    requires Conserved(f)
    ensures Conserved(Calls(f, calls))
    decreases |calls|
  {
    if calls != [] {
      MovesConserve(f, ForData, calls[0].moves);
      CallsConserve(Exchange(f, calls[0]).0, calls[1..]);
    }
  }

  /** The end is signalled only when nothing is pending and everything read has
      been accepted. */
  lemma EofOnlyWhenDrained(f: Flow, at: Await, move: Move)
    requires Conserved(f) && Advance(f, at, move).0.eofs != f.eofs
    ensures f.pending.None? && Advance(f, at, move).0 == f.(source := Read(f.source).value.1, eofs := f.eofs + 1)
    ensures f.accepted == f.read && Read(f.source).value.0.Eof?
  {
  }

  // ------------------------------------------------------------ a plain source

  /** The pipe is somewhere in the stream `all`, and its source was told of exactly
      the accepted bytes. */
  ghost predicate Within(f: Flow, all: Buffer) {
    && Conserved(f) && f.source.Plain?
    && f.read + AllBytes(f.source.incoming) == all
    && f.source.consumed == |f.accepted|
  }

  lemma AdvanceStaysWithin(f: Flow, at: Await, move: Move, all: Buffer)
    requires Within(f, all)
    ensures Within(Advance(f, at, move).0, all)
  {
    AdvanceConserves(f, at, move);
    var ds := f.source.incoming;
    if ds != [] && ds[0].Chunk? {
      assert f.read + (ds[0].bytes + AllBytes(ds[1..])) == f.read + ds[0].bytes + AllBytes(ds[1..]);
    }
  }

  lemma {:induction false} MovesStayWithin(f: Flow, at: Await, moves: seq<Move>, all: Buffer)
    requires Within(f, all)
    ensures Within(RunMoves(f, at, moves).0, all)
    decreases |moves|
  {
    if moves != [] {
      AdvanceStaysWithin(f, at, moves[0], all);
      var r := Advance(f, at, moves[0]);
      if r.2.Running? { MovesStayWithin(r.0, r.1, moves[1..], all); }
    }
  }

  lemma {:induction false} CallsStayWithin(f: Flow, calls: seq<Call>, all: Buffer)
    requires Within(f, all)
    ensures Within(Calls(f, calls), all)
    decreases |calls|
  {
    if calls != [] {
      MovesStayWithin(f, ForData, calls[0].moves, all);
      CallsStayWithin(Exchange(f, calls[0]).0, calls[1..], all);
    }
  }

  const EMPTY_FLOW := Flow(Plain([], 0), None, [], [], 0, 0)

  /** Over every run of calls, dropped anywhere: the sink holds a prefix of the
      source's bytes, the metrics and the acknowledged bytes count exactly that
      prefix, and what is missing is pending or not read yet. */
  lemma NothingLost(incoming: seq<Data>, calls: seq<Call>)
    ensures var f := Calls(EMPTY_FLOW.(source := Plain(incoming, 0)), calls);
            && f.source.Plain?
            && AllBytes(incoming) == f.accepted + PendingBytes(f) + AllBytes(f.source.incoming)
            && f.metered == f.source.consumed == |f.accepted|
  {
    var f0 := EMPTY_FLOW.(source := Plain(incoming, 0));
    assert f0.read + AllBytes(incoming) == AllBytes(incoming);
    CallsStayWithin(f0, calls, AllBytes(incoming));
  }

  /** Only the last of the data is an end. */
  ghost predicate EndsOnce(ds: seq<Data>) {
    forall i | 0 <= i < |ds| && ds[i].Eof? :: i == |ds| - 1
  }

  /** The source has nothing left once the end was signalled. */
  ghost predicate Closes(f: Flow) {
    && Conserved(f) && f.source.Plain? && EndsOnce(f.source.incoming)
    && (f.eofs > 0 ==> f.source.incoming == [] && f.pending.None?)
  }

  lemma AdvanceCloses(f: Flow, at: Await, move: Move)
    requires Closes(f)
    ensures Closes(Advance(f, at, move).0)
  {
    AdvanceConserves(f, at, move);
    var ds := f.source.incoming;
    if ds != [] {
      assert forall i | 0 <= i < |ds[1..]| :: ds[1..][i] == ds[i + 1];
    }
  }

  lemma {:induction false} MovesClose(f: Flow, at: Await, moves: seq<Move>)
    requires Closes(f)
    ensures Closes(RunMoves(f, at, moves).0)
    decreases |moves|
  {
    if moves != [] {
      AdvanceCloses(f, at, moves[0]);
      var r := Advance(f, at, moves[0]);
      if r.2.Running? { MovesClose(r.0, r.1, moves[1..]); }
    }
  }

  lemma {:induction false} CallsClose(f: Flow, calls: seq<Call>)
    requires Closes(f)
    ensures Closes(Calls(f, calls))
    decreases |calls|
  {
    if calls != [] {
      MovesClose(f, ForData, calls[0].moves);
      CallsClose(Exchange(f, calls[0]).0, calls[1..]);
    }
  }

  /** When the sink was told of the end, it had accepted the whole stream. */
  lemma EndMeansAllDelivered(incoming: seq<Data>, calls: seq<Call>)
    requires EndsOnce(incoming)
    ensures var f := Calls(EMPTY_FLOW.(source := Plain(incoming, 0)), calls);
            f.eofs > 0 ==> f.accepted == AllBytes(incoming)
  {
    NothingLost(incoming, calls);
    CallsClose(EMPTY_FLOW.(source := Plain(incoming, 0)), calls);
  }

  // -------------------------------------------------------- a forwarded request

  /** The part of a body that is forwarded. */
  function Wanted(length: BodyLength, body: Buffer): Buffer {
    if length.Chunked? then body else body[..Min(length.n, |body|)]
  }

  /** The state of a pipe that forwards `request` and `body`; `whole` when no read
      of the body was abandoned. */
  ghost predicate Forwarding(f: Flow, request: Buffer, length: BodyLength, body: Buffer, whole: bool) {
    && Conserved(f) && f.source.Forwarded?
    && var src, own := f.source, Min(|f.accepted|, |request|);
       && src.consumed == |f.accepted| - own
       && (f.eofs > 0 ==> src.state.Done? && f.pending.None?)
       && match src.state
          case WantSendRequest(r, l) =>
            r == request && l == length && f.read == [] && Body(src.incoming) == body
          case TransferringBody(l, sent) =>
            && l == length && length != Determined(0)
            && src.skip == |request| - own
            && BodyAt(src.incoming, length, body, sent) && f.read == request + body[..sent]
          case Done =>
            && src.skip == |request| - own
            && f.read <= request + Wanted(length, body) && |request| <= |f.read|
            && (f.pending.Some? ==> f.read == request)
            && (whole ==> f.read == request + Wanted(length, body))
  }

  /** A write moves the accepted bytes and the acknowledgements together. */
  lemma WriteForwards(f: Flow, bytes: Buffer, room: nat, request: Buffer)
    requires f.source.Forwarded? && f.read == f.accepted + bytes && |request| <= |f.read|
    requires f.source.skip == |request| - Min(|f.accepted|, |request|)
    requires f.source.consumed == |f.accepted| - Min(|f.accepted|, |request|)
    requires !f.source.state.TransferringBody? ==> f.read == request
    ensures var f' := Write(f, bytes, room);
            && f'.source.skip == |request| - Min(|f'.accepted|, |request|)
            && f'.source.consumed == |f'.accepted| - Min(|f'.accepted|, |request|)
  {
  }

  /** How a forwarded body stands after `sent` bytes of it. */
  ghost predicate BodyAt(ds: seq<Data>, length: BodyLength, body: Buffer, sent: nat) {
    sent <= |Wanted(length, body)| <= |body| && (length == Determined(sent) || Body(ds) == body[sent..])
  }

  lemma ChunkForwards(src: Source, body: Buffer)
    requires src.Forwarded? && src.state.TransferringBody? && src.incoming != []
    requires BodyAt(src.incoming, src.state.length, body, src.state.sent)
    requires Read(src).value.0.Chunk?
    ensures var r, sent := Read(src).value, src.state.sent;
            && r.1.Forwarded? && r.1.state.TransferringBody? && r.1.state.length == src.state.length
            && BodyAt(r.1.incoming, src.state.length, body, r.1.state.sent)
            && body[..sent] + r.0.bytes == body[..r.1.state.sent]
            && r.1.skip == src.skip && r.1.consumed == src.consumed
  {
    var ds, sent, k := src.incoming, src.state.sent, |Read(src).value.0.bytes|;
    assert Body(ds) == ds[0].bytes + Body(ds[1..]) == body[sent..];
    assert body[sent..][..k] == body[sent..sent + k];
    assert body[..sent] + body[sent..sent + k] == body[..sent + k];
    assert k == |ds[0].bytes| ==> Body(ds[1..]) == body[sent..][k..] == body[sent + k..];
  }

  lemma EndForwards(src: Source, body: Buffer)
    requires src.Forwarded? && src.state.TransferringBody? && src.incoming != []
    requires BodyAt(src.incoming, src.state.length, body, src.state.sent)
    requires Read(src).value.0.Eof?
    ensures body[..src.state.sent] == Wanted(src.state.length, body)
    ensures Read(src).value.1 == src.(state := Done, incoming := src.incoming[1..])
  {
  }

  /** The step of a pipe that reads the body. */
  lemma ReadForwards(f: Flow, room: nat, request: Buffer, length: BodyLength, body: Buffer, whole: bool)
    requires Forwarding(f, request, length, body, whole) && f.pending.None?
    requires f.source.state.TransferringBody? && f.source.incoming != []
    ensures Forwarding(Advance(f, ForData, Ready(room)).0, request, length, body, whole)
  {
    hide Read, Body, Wanted;
    AdvanceConserves(f, ForData, Ready(room));
    var src := f.source;
    var sent := src.state.sent;
    var some := ReadIsReady(src);
    if some.0.Chunk? {
      ChunkForwards(src, body);
      assert request + body[..sent] + some.0.bytes == request + (body[..sent] + some.0.bytes);
      WriteForwards(f.(source := some.1, read := f.read + some.0.bytes), some.0.bytes, room, request);
    } else {
      EndForwards(src, body);
    }
  }

  lemma ReadIsReady(src: Source) returns (r: (Data, Source))
    requires src.incoming != []
    ensures Read(src) == Some(r)
  {
    r := Read(src).value;
  }

  lemma AdvanceForwards(f: Flow, at: Await, move: Move, request: Buffer, length: BodyLength, body: Buffer, whole: bool)
    requires Forwarding(f, request, length, body, whole)
    requires whole ==> move != Elapsed(true)
    ensures Forwarding(Advance(f, at, move).0, request, length, body, whole)
  {
    AdvanceConserves(f, at, move);
    var src := f.source;
    if at.ForData? && move.Ready? {
      if f.pending.Some? {
        WriteForwards(f.(pending := None), f.pending.value, move.room, request);
      } else if src.state.WantSendRequest? {
        RequestForwards(f, move.room, request, length, body, whole);
      } else if src.state.TransferringBody? && src.incoming != [] {
        ReadForwards(f, move.room, request, length, body, whole);
      }
    } else if at.ForData? && src.state.TransferringBody? {
      assert body[..src.state.sent] <= Wanted(length, body);
    }
  }

  lemma RequestForwards(f: Flow, room: nat, request: Buffer, length: BodyLength, body: Buffer, whole: bool)
    requires Forwarding(f, request, length, body, whole) && f.pending.None? && f.source.state.WantSendRequest?
    ensures Forwarding(Advance(f, ForData, Ready(room)).0, request, length, body, whole)
  {
    AdvanceConserves(f, ForData, Ready(room));
    var f1 := f.(source := Read(f.source).value.1, read := f.read + request);
    assert f1.read == request && request + body[..0] == request && body[0..] == body;
    WriteForwards(f1, request, room, request);
  }

  /** No read is dropped while it waits. */
  ghost predicate ReadsKept(call: Call) {
    !call.droppedInRead && forall i | 0 <= i < |call.moves| :: call.moves[i] != Elapsed(true)
  }

  lemma {:induction false} MovesForward(f: Flow, at: Await, moves: seq<Move>, request: Buffer,
                                        length: BodyLength, body: Buffer, whole: bool)
    requires Forwarding(f, request, length, body, whole)
    requires whole ==> forall i | 0 <= i < |moves| :: moves[i] != Elapsed(true)
    ensures Forwarding(RunMoves(f, at, moves).0, request, length, body, whole)
    decreases |moves|
  {
    hide Forwarding;
    if moves != [] {
      AdvanceForwards(f, at, moves[0], request, length, body, whole);
      var r := Advance(f, at, moves[0]);
      if r.2.Running? { MovesForward(r.0, r.1, moves[1..], request, length, body, whole); }
    }
  }

  lemma DropForwards(f: Flow, at: Await, reading: bool, request: Buffer, length: BodyLength, body: Buffer, whole: bool)
    requires Forwarding(f, request, length, body, whole)
    requires whole ==> !reading
    ensures Forwarding(Drop(f, at, reading), request, length, body, whole)
  {
  }

  lemma {:induction false} CallsForward(f: Flow, calls: seq<Call>, request: Buffer,
                                        length: BodyLength, body: Buffer, whole: bool)
    requires Forwarding(f, request, length, body, whole)
    requires whole ==> forall i | 0 <= i < |calls| :: ReadsKept(calls[i])
    ensures Forwarding(Calls(f, calls), request, length, body, whole)
    decreases |calls|
  {
    hide Forwarding;
    if calls != [] {
      var r := RunMoves(f, ForData, calls[0].moves);
      MovesForward(f, ForData, calls[0].moves, request, length, body, whole);
      DropForwards(r.0, r.1, calls[0].droppedInRead, request, length, body, whole);
      CallsForward(Exchange(f, calls[0]).0, calls[1..], request, length, body, whole);
    }
  }

  /** What a forwarding pipe shows: a prefix of the request and the wanted body, and
      acknowledgements for exactly the body bytes in it. */
  lemma ForwardingShows(f: Flow, request: Buffer, length: BodyLength, body: Buffer, whole: bool)
    requires Forwarding(f, request, length, body, whole)
    ensures f.accepted <= request + Wanted(length, body)
    ensures f.source.consumed == |f.accepted| - Min(|f.accepted|, |request|)
    ensures whole && f.eofs > 0 ==> f.accepted == request + Wanted(length, body)
  {
    var want := request + Wanted(length, body);
    assert f.read <= want by {
      if f.source.state.TransferringBody? {
        var sent := f.source.state.sent;
        assert body[..sent] == Wanted(length, body)[..sent];
        assert f.read == want[..|request| + sent];
      }
    }
  }

  /** Over every run, a forwarded source hands the sink a prefix of its request and
      the first `n` bytes of its body, the inner source is told of exactly the body
      bytes among them, and when no read was dropped the end means all of it. */
  lemma ForwardedAccounting(request: Buffer, length: BodyLength, incoming: seq<Data>, calls: seq<Call>)
    ensures var f0 := EMPTY_FLOW.(source := Forwarded(WantSendRequest(request, length), 0, incoming, 0));
            var f := Calls(f0, calls);
            var want := request + Wanted(length, Body(incoming));
            && f.accepted <= want
            && f.source.consumed == |f.accepted| - Min(|f.accepted|, |request|)
            && ((forall i | 0 <= i < |calls| :: ReadsKept(calls[i])) && f.eofs > 0 ==> f.accepted == want)
  {
    hide Calls, Forwarding;
    var f0 := EMPTY_FLOW.(source := Forwarded(WantSendRequest(request, length), 0, incoming, 0));
    var body := Body(incoming);
    var whole := forall i | 0 <= i < |calls| :: ReadsKept(calls[i]);
    ForwardingStarts(request, length, incoming, whole);
    CallsForward(f0, calls, request, length, body, whole);
    ForwardingShows(Calls(f0, calls), request, length, body, whole);
  }

  lemma ForwardingStarts(request: Buffer, length: BodyLength, incoming: seq<Data>, whole: bool)
    ensures Forwarding(EMPTY_FLOW.(source := Forwarded(WantSendRequest(request, length), 0, incoming, 0)),
                       request, length, Body(incoming), whole)
  {
  }

  /** A dropped read of the body cuts it off: the next thing the sink sees is the
      end, and that is right exactly when the body had already been sent. */
  lemma DroppedReadTruncates(f: Flow, room: nat, request: Buffer, length: BodyLength, body: Buffer, whole: bool)
    requires Forwarding(f, request, length, body, whole) && f.pending.None? && f.source.state.TransferringBody?
    ensures var f' := Advance(Drop(f, ForData, true), ForData, Ready(room)).0;
            && f'.eofs == f.eofs + 1 && f'.accepted == f.accepted
            && (f'.accepted == request + Wanted(length, body) <==>
                f.source.state.sent == |Wanted(length, body)|)
  {
    var sent := f.source.state.sent;
    assert f.accepted == f.read == request + body[..sent];
    assert body[..sent] == Wanted(length, body)[..sent];
  }

  /** A request of one byte with a body of one, whose read is abandoned once: the sink gets
      the request and the end. */
  lemma AbandonedReadEndsBody(b: Byte, c: Byte)
    ensures var f0 := EMPTY_FLOW.(source := Forwarded(WantSendRequest([b], Determined(1)), 0, [Chunk([c])], 0));
            var f := Calls(f0, [Call([Ready(1)], true), Call([Ready(1)], false)]);
            f.accepted == [b] && f.eofs == 1
  {
    var f0 := EMPTY_FLOW.(source := Forwarded(WantSendRequest([b], Determined(1)), 0, [Chunk([c])], 0));
    var first, second := Call([Ready(1)], true), Call([Ready(1)], false);
    var r := Advance(f0, ForData, Ready(1));
    assert first.moves[1..] == [] && second.moves[1..] == [];
    assert RunMoves(f0, ForData, first.moves) == r && r.0.accepted == [b];
    assert [first, second][1..] == [second] && [second][1..] == [];
  }
}
