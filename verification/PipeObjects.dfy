/** The forwarded source and the pipes as the objects that are updated in place. */
module PipeObjects {
  import opened Bytes
  import opened Pipe

  /** A request put before the body of an inner source, which will yield `incoming`
      and counts the bytes it is told of in `consumed`. */
  class ForwardedStreamSource {
    var state: SourceState
    var skipConsumeBytes: nat
    var incoming: seq<Data>
    var consumed: nat

    ghost function View(): Source
      reads this
    {
      Forwarded(state, skipConsumeBytes, incoming, consumed)
    }

    constructor (request: Buffer, length: BodyLength, body: seq<Data>)
      ensures View() == Forwarded(WantSendRequest(request, length), 0, body, 0)
    {
      state, skipConsumeBytes, incoming, consumed := WantSendRequest(request, length), 0, body, 0;
    }

    method OnReadRequest() returns (data: Data)
      requires state.WantSendRequest?
      modifies this
      ensures Pipe.Read(old(View())) == Some((data, View()))
    {
      var want := state;
      skipConsumeBytes := |want.request|;
      match want.length {
        case Determined(0) => state := Done;
        case length => state := TransferringBody(length, 0);
      }
      data := Chunk(want.request);
    }

    /** Waits for the inner source; dropped there, the state stays taken out. */
    method ReadBody(dropped: bool) returns (data: Option<Data>)
      requires state.TransferringBody?
      modifies this
      ensures dropped || old(incoming) == [] ==> data == None && View() == Abandon(old(View()))
      ensures !dropped && old(incoming) != [] ==> data.Some? && Pipe.Read(old(View())) == Some((data.value, View()))
    {
      var taken := state;
      state := Done;
      if dropped || incoming == [] {
        return None;
      }
      var result := incoming[0];
      incoming := incoming[1..];
      state := taken;
      if result.Chunk? && taken.length.Determined? && taken.sent < taken.length.n {
        var toSend := Min(|result.bytes|, taken.length.n - taken.sent);
        state := TransferringBody(taken.length, taken.sent + toSend);
        return Some(Chunk(result.bytes[..toSend]));
      } else if taken.length.Determined? {
        state := Done;
        return Some(Eof);
      } else if result.Chunk? {
        state := TransferringBody(taken.length, taken.sent + |result.bytes|);
        return Some(result);
      } else {
        state := Done;
        return Some(Eof);
      }
    }

    method ConsumeBytes(total: nat)
      modifies this
      ensures View() == Consume(old(View()), total)
    {
      var size := total;
      if skipConsumeBytes > 0 {
        var toSub := Min(skipConsumeBytes, size);
        skipConsumeBytes := skipConsumeBytes - toSub;
        size := size - toSub;
        if size == 0 { return; }
      }
      if state.TransferringBody? {
        consumed := consumed + size;
      }
    }
  }

  /** The move lets bytes through to the sink. */
  predicate Writes(f: Flow, at: Await, move: Move) {
    && at.ForData? && move.Ready?
    && (f.pending.Some? || (Pipe.Read(f.source).Some? && Pipe.Read(f.source).value.0.Chunk?))
  }

  /** When a run that starts at `start` was last active: `times[i]` is when move `i` comes. */
  function LastActive(f: Flow, at: Await, moves: seq<Move>, times: seq<nat>, start: nat): nat
    requires |moves| == |times|
    decreases |moves|
  {
    if moves == [] then start
    else
      var r := Advance(f, at, moves[0]);
      var active := if Writes(f, at, moves[0]) then times[0] else start;
      if r.2.Running? then LastActive(r.0, r.1, moves[1..], times[1..], active) else active
  }

  lemma {:induction false} LastActiveAppend(f: Flow, at: Await, moves: seq<Move>, times: seq<nat>, start: nat, move: Move, now: nat)
    requires |moves| == |times|
    ensures var r := RunMoves(f, at, moves);
            LastActive(f, at, moves + [move], times + [now], start)
            == if r.2.Running? && Writes(r.0, r.1, move) then now else LastActive(f, at, moves, times, start)
    decreases |moves|
  {
    hide Advance, Writes;
    if moves == [] {
      assert (moves + [move])[1..] == [];
    } else {
      assert (moves + [move])[1..] == moves[1..] + [move] && (times + [now])[1..] == times[1..] + [now];
      var r := Advance(f, at, moves[0]);
      var active := if Writes(f, at, moves[0]) then times[0] else start;
      if r.2.Running? { LastActiveAppend(r.0, r.1, moves[1..], times[1..], active, move, now); }
    }
  }

  /** A run that has stopped is not active again. */
  lemma {:induction false} LastActiveStops(f: Flow, at: Await, moves: seq<Move>, times: seq<nat>, start: nat, n: nat)
    requires |moves| == |times| && n <= |moves| && !RunMoves(f, at, moves[..n]).2.Running?
    ensures LastActive(f, at, moves, times, start) == LastActive(f, at, moves[..n], times[..n], start)
    decreases |moves|
  {
    hide Advance, Writes;
    if n > 0 {
      assert moves[..n][1..] == moves[1..][..n - 1] && times[..n][1..] == times[1..][..n - 1];
      var r := Advance(f, at, moves[0]);
      var active := if Writes(f, at, moves[0]) then times[0] else start;
      if r.2.Running? { LastActiveStops(r.0, r.1, moves[1..], times[1..], active, n - 1); }
    }
  }

  class SimplexPipe {
    var source: Source
    var pendingChunk: Option<Data>
    // what passed: read from the source, taken by the sink, metered, ends signalled
    var read: Buffer
    var accepted: Buffer
    var metered: nat
    var eofs: nat
    var lastActivity: nat

    ghost predicate Valid()
      reads this
    {
      pendingChunk.Some? ==> pendingChunk.value.Chunk?
    }

    ghost function View(): Flow
      reads this
      requires Valid()
    {
      Flow(source, if pendingChunk.Some? then Some(pendingChunk.value.bytes) else None,
           read, accepted, metered, eofs)
    }

    constructor (source: Source, now: nat)
      ensures Valid() && View() == EMPTY_FLOW.(source := source)
    {
      this.source, pendingChunk, lastActivity := source, None, now;
      read, accepted, metered, eofs := [], [], 0, 0;
    }

    /** The future is dropped while it waits at `at`. */
    method DropAt(at: Await, reading: bool)
      requires Valid()
      modifies this
      ensures Valid() && View() == Drop(old(View()), at, reading) && lastActivity == old(lastActivity)
    {
      if at.ForData? && pendingChunk.None? && reading {
        source := Abandon(source);
      }
    }

    /** One pass of the exchange loop: what it waits for comes at `now`, or time is up. */
    method Pass(at: Await, move: Move, now: nat) returns (at': Await, status: Status)
      requires Valid()
      modifies this
      ensures Valid() && (View(), at', status) == Advance(old(View()), at, move)
      ensures lastActivity == if Writes(old(View()), at, move) then now else old(lastActivity)
    {
      at', status := at, Running;
      if at.ForFlush? {
        if move.Ready? { status := Finished; }
        return;
      }
      if move.Elapsed? {
        DropAt(at, move.reading);
        return at, TimedOut;
      }
      var data;
      if pendingChunk.None? {
        var r := Pipe.Read(source);
        if r.None? { return; }
        data, source := r.value.0, r.value.1;
        if data.Chunk? { read := read + data.bytes; }
      } else {
        data, pendingChunk := pendingChunk.value, None;
      }
      match data {
        case Chunk(bytes) =>
          var sent := Min(move.room, |bytes|);
          accepted := accepted + bytes[..sent];
          metered := metered + sent;
          source := Consume(source, sent);
          if sent < |bytes| {
            pendingChunk := Some(Chunk(bytes[sent..]));
          }
          lastActivity := now;
        case Eof =>
          eofs := eofs + 1;
          at' := ForFlush;
      }
    }

    /** Runs until it times out, finishes or is dropped. `times[i]` is when move `i` comes. */
    method ExchangeAll(call: Call, start: nat, times: seq<nat>) returns (status: Status)
      requires Valid() && |times| == |call.moves|
      modifies this
      ensures Valid() && (View(), status) == Exchange(old(View()), call)
      ensures lastActivity == LastActive(old(View()), ForData, call.moves, times, start)
    {
      hide Advance, Writes, RunMoves, LastActive;
      RunNoMoves(View(), ForData);
      NotYetActive(View(), ForData, start);
      lastActivity := start;
      var at := ForData;
      status := Running;
      for i := 0 to |call.moves|
        invariant Valid() && status == Running
        invariant RunMoves(old(View()), ForData, call.moves[..i]) == (View(), at, Running)
        invariant lastActivity == LastActive(old(View()), ForData, call.moves[..i], times[..i], start)
      {
        RunMovesAppend(old(View()), ForData, call.moves[..i], call.moves[i]);
        LastActiveAppend(old(View()), ForData, call.moves[..i], times[..i], start, call.moves[i], times[i]);
        assert call.moves[..i] + [call.moves[i]] == call.moves[..i + 1] && times[..i] + [times[i]] == times[..i + 1];
        at, status := Pass(at, call.moves[i], times[i]);
        if !status.Running? {
          RunMovesStops(old(View()), ForData, call.moves, i + 1);
          LastActiveStops(old(View()), ForData, call.moves, times, start, i + 1);
          return;
        }
      }
      assert call.moves[..|call.moves|] == call.moves && times[..|times|] == times;
      DropAt(at, call.droppedInRead);
    }
  }

  /** A run that has stopped is not changed by what would come later. */
  lemma {:induction false} RunMovesStops(f: Flow, at: Await, moves: seq<Move>, n: nat)
    requires n <= |moves| && !RunMoves(f, at, moves[..n]).2.Running?
    ensures RunMoves(f, at, moves) == RunMoves(f, at, moves[..n])
    decreases |moves|
  {
    if n > 0 {
      assert moves[..n][1..] == moves[1..][..n - 1];
      var r := Advance(f, at, moves[0]);
      if r.2.Running? { RunMovesStops(r.0, r.1, moves[1..], n - 1); }
    }
  }

  lemma NotYetActive(f: Flow, at: Await, start: nat)
    ensures LastActive(f, at, [], [], start) == start
  {
  }

  lemma RunNoMoves(f: Flow, at: Await)
    ensures RunMoves(f, at, []) == (f, at, Running)
  {
  }

  datatype Side = Left | Right

  datatype Event = Event(side: Side, move: Move, now: nat)

  /** One round of a duplex exchange: the events of both directions as they come,
      and where the directions are dropped when the round ends. */
  datatype Round = Round(startsAt: nat, events: seq<Event>, leftInRead: bool, rightInRead: bool, endsAt: nat)

  datatype Outcome = BothFinished | OneTimedOut | HalfTimedOut | Idle | Dropped

  /** The events of one direction: its moves and when they come. */
  function SideMoves(events: seq<Event>, side: Side): seq<Move> {
    if events == [] then []
    else
      var n := |events| - 1;
      SideMoves(events[..n], side) + if events[n].side == side then [events[n].move] else []
  }

  function SideTimes(events: seq<Event>, side: Side): (r: seq<nat>)
    ensures |r| == |SideMoves(events, side)|
  {
    if events == [] then []
    else
      var n := |events| - 1;
      SideTimes(events[..n], side) + if events[n].side == side then [events[n].now] else []
  }

  function SideStatus(f: Flow, events: seq<Event>, side: Side): Status {
    RunMoves(f, ForData, SideMoves(events, side)).2
  }

  /** A round ends when a direction times out or both have finished. */
  predicate Going(l: Flow, r: Flow, events: seq<Event>) {
    var ls, rs := SideStatus(l, events, Left), SideStatus(r, events, Right);
    !ls.TimedOut? && !rs.TimedOut? && !(ls.Finished? && rs.Finished?)
  }

  function RoundOutcome(ls: Status, rs: Status): (r: Outcome)
    ensures r != Idle
  {
    if ls.Finished? && rs.Finished? then BothFinished
    else if ls.TimedOut? || rs.TimedOut? then
      if ls.Finished? || rs.Finished? then HalfTimedOut else OneTimedOut
    else Dropped
  }

  /** The event with which a round ends. */
  function RoundEnd(l: Flow, r: Flow, events: seq<Event>, n: nat): (end: nat)
    requires n <= |events|
    ensures n <= end <= |events|
    decreases |events| - n
  {
    if n == |events| || !Going(l, r, events[..n]) then n else RoundEnd(l, r, events, n + 1)
  }

  lemma {:induction false} RoundEndIs(l: Flow, r: Flow, events: seq<Event>, n: nat, end: nat)
    requires n <= end <= |events| && (end == |events| || !Going(l, r, events[..end]))
    requires forall i | n <= i < end :: Going(l, r, events[..i])
    ensures RoundEnd(l, r, events, n) == end
    decreases end - n
  {
    hide Going;
    if n < end {
      RoundEndIs(l, r, events, n + 1, end);
    }
  }

  datatype RoundResult = RoundResult(left: Flow, right: Flow, outcome: Outcome, leftActive: nat, rightActive: nat)

  /** Each direction is one call of the simplex exchange over its own events, up to where
      the round ends: it is dropped when the other one times out, and goes on when the
      other one finishes. */
  function DoRound(l: Flow, r: Flow, round: Round): (x: RoundResult)
    ensures x.outcome != Idle
  {
    var events := round.events[..RoundEnd(l, r, round.events, 0)];
    var (l', ls) := Exchange(l, Call(SideMoves(events, Left), round.leftInRead));
    var (r', rs) := Exchange(r, Call(SideMoves(events, Right), round.rightInRead));
    RoundResult(l', r', RoundOutcome(ls, rs),
                LastActive(l, ForData, SideMoves(events, Left), SideTimes(events, Left), round.startsAt),
                LastActive(r, ForData, SideMoves(events, Right), SideTimes(events, Right), round.startsAt))
  }

  /** Rounds go on after a timeout of one direction until both finish, one of them
      times out behind the other's end, or both were idle for longer than `timeout`. */
  function DoRounds(l: Flow, r: Flow, rounds: seq<Round>, timeout: nat): (Flow, Flow, Outcome)
    decreases |rounds|
  {
    if rounds == [] then (l, r, Dropped)
    else
      var x := DoRound(l, r, rounds[0]);
      if !x.outcome.OneTimedOut? then (x.left, x.right, x.outcome)
      else if x.leftActive + timeout < rounds[0].endsAt && x.rightActive + timeout < rounds[0].endsAt then
        (x.left, x.right, Idle)
      else DoRounds(x.left, x.right, rounds[1..], timeout)
  }

  /** Two calls that are the two directions of one round. */
  ghost predicate IsRoundOf(round: Round, leftCall: Call, rightCall: Call) {
    exists n | 0 <= n <= |round.events| ::
      && leftCall == Call(SideMoves(round.events[..n], Left), round.leftInRead)
      && rightCall == Call(SideMoves(round.events[..n], Right), round.rightInRead)
  }

  /** Over all its rounds each direction is a run of simplex calls, so what holds of
      every run of calls holds of it. */
  lemma {:induction false} RoundsAreCalls(l: Flow, r: Flow, rounds: seq<Round>, timeout: nat)
    returns (leftCalls: seq<Call>, rightCalls: seq<Call>)
    ensures |leftCalls| == |rightCalls| <= |rounds|
    ensures forall i | 0 <= i < |leftCalls| :: IsRoundOf(rounds[i], leftCalls[i], rightCalls[i])
    ensures DoRounds(l, r, rounds, timeout).0 == Calls(l, leftCalls)
    ensures DoRounds(l, r, rounds, timeout).1 == Calls(r, rightCalls)
    decreases |rounds|
  {
    hide Exchange, SideMoves, LastActive, RoundOutcome, IsRoundOf, RoundEnd;
    leftCalls, rightCalls := [], [];
    if rounds != [] {
      var round, x := rounds[0], DoRound(l, r, rounds[0]);
      var n := RoundEnd(l, r, round.events, 0);
      RoundOf(round, n);
      var more := DoRounds(l, r, rounds, timeout) == DoRounds(x.left, x.right, rounds[1..], timeout);
      if more {
        leftCalls, rightCalls := RoundsAreCalls(x.left, x.right, rounds[1..], timeout);
      }
      leftCalls := [Call(SideMoves(round.events[..n], Left), round.leftInRead)] + leftCalls;
      rightCalls := [Call(SideMoves(round.events[..n], Right), round.rightInRead)] + rightCalls;
      assert leftCalls[1..] == [] || more;
    }
  }

  /** Over every run of a duplex pipe, wherever its rounds end, each sink holds a prefix of
      its source's bytes, counted exactly, and what is missing is pending or unread. */
  lemma DuplexLosesNothing(left: seq<Data>, right: seq<Data>, rounds: seq<Round>, timeout: nat)
    ensures var r := DoRounds(EMPTY_FLOW.(source := Plain(left, 0)), EMPTY_FLOW.(source := Plain(right, 0)), rounds, timeout);
            Accounted(r.0, left) && Accounted(r.1, right)
  {
    hide DoRounds, Calls;
    var l, r := EMPTY_FLOW.(source := Plain(left, 0)), EMPTY_FLOW.(source := Plain(right, 0));
    var leftCalls, rightCalls := RoundsAreCalls(l, r, rounds, timeout);
    NothingLost(left, leftCalls);
    NothingLost(right, rightCalls);
  }

  predicate Accounted(f: Flow, incoming: seq<Data>) {
    && f.source.Plain?
    && AllBytes(incoming) == f.accepted + PendingBytes(f) + AllBytes(f.source.incoming)
    && f.metered == f.source.consumed == |f.accepted|
  }

  lemma RoundOf(round: Round, n: nat)
    requires n <= |round.events|
    ensures IsRoundOf(round, Call(SideMoves(round.events[..n], Left), round.leftInRead),
                      Call(SideMoves(round.events[..n], Right), round.rightInRead))
  {
  }

  /** One direction has taken the first `i` events of a round. */
  ghost predicate Took(pipe: SimplexPipe, at: Await, status: Status, f: Flow, events: seq<Event>, side: Side, start: nat)
    reads pipe
  {
    && pipe.Valid()
    && RunMoves(f, ForData, SideMoves(events, side)) == (pipe.View(), at, status)
    && pipe.lastActivity == LastActive(f, ForData, SideMoves(events, side), SideTimes(events, side), start)
  }

  class DuplexPipe {
    const left: SimplexPipe
    const right: SimplexPipe

    ghost predicate Valid()
      reads left, right
    {
      left != right && left.Valid() && right.Valid()
    }

    constructor (left: SimplexPipe, right: SimplexPipe)
      requires left != right && left.Valid() && right.Valid()
      ensures Valid() && this.left == left && this.right == right
    {
      this.left, this.right := left, right;
    }

    /** One direction takes the next event of the round, unless it is the other's or
        the direction has stopped. */
    static method Take(pipe: SimplexPipe, side: Side, at: Await, status: Status,
                       ghost f: Flow, ghost before: seq<Event>, event: Event, ghost start: nat)
      returns (at': Await, status': Status)
      requires Took(pipe, at, status, f, before, side, start)
      modifies pipe
      ensures Took(pipe, at', status', f, before + [event], side, start)
    {
      hide RunMoves, LastActive, Advance, Writes, Drop;
      ghost var moves := SideMoves(before, side);
      assert (before + [event])[..|before|] == before;
      RunMovesAppend(f, ForData, moves, event.move);
      LastActiveAppend(f, ForData, moves, SideTimes(before, side), start, event.move, event.now);
      at', status' := at, status;
      if event.side == side && status.Running? {
        at', status' := pipe.Pass(at, event.move, event.now);
      } else if event.side != side {
        assert SideMoves(before + [event], side) == moves + [] == moves;
        assert SideTimes(before + [event], side) == SideTimes(before, side) + [] == SideTimes(before, side);
      }
    }

    method ExchangeOnce(round: Round) returns (r: Outcome)
      requires Valid()
      modifies left, right
      ensures Valid()
      ensures RoundResult(left.View(), right.View(), r, left.lastActivity, right.lastActivity)
           == DoRound(old(left.View()), old(right.View()), round)
    {
      hide RunMoves, Advance, Drop, LastActive, Writes, SideMoves, SideTimes, RoundEnd;
      ghost var l0, r0, from := left.View(), right.View(), round.startsAt;
      left.lastActivity, right.lastActivity := round.startsAt, round.startsAt;
      var leftAt, rightAt, leftStatus, rightStatus := ForData, ForData, Running, Running;
      var i := 0;
      assert round.events[..0] == [];
      assert Took(left, leftAt, leftStatus, l0, [], Left, from) by { NothingTaken(l0, Left, from); }
      assert Took(right, rightAt, rightStatus, r0, [], Right, from) by { NothingTaken(r0, Right, from); }
      while i < |round.events| && !leftStatus.TimedOut? && !rightStatus.TimedOut? && !(leftStatus.Finished? && rightStatus.Finished?)
        invariant i <= |round.events|
        invariant Took(left, leftAt, leftStatus, l0, round.events[..i], Left, from)
        invariant Took(right, rightAt, rightStatus, r0, round.events[..i], Right, from)
        invariant forall j | 0 <= j < i :: Going(l0, r0, round.events[..j])
      {
        var event := round.events[i];
        assert round.events[..i + 1] == round.events[..i] + [event];
        leftAt, leftStatus := Take(left, Left, leftAt, leftStatus, l0, round.events[..i], event, from);
        rightAt, rightStatus := Take(right, Right, rightAt, rightStatus, r0, round.events[..i], event, from);
        i := i + 1;
      }
      RoundEndIs(l0, r0, round.events, 0, i);
      if leftStatus.Running? { left.DropAt(leftAt, round.leftInRead); }
      if rightStatus.Running? { right.DropAt(rightAt, round.rightInRead); }
      r := RoundOutcome(leftStatus, rightStatus);
    }

    method ExchangeAll(rounds: seq<Round>, timeout: nat) returns (r: Outcome)
      requires Valid()
      modifies left, right
      ensures Valid() && (left.View(), right.View(), r) == DoRounds(old(left.View()), old(right.View()), rounds, timeout)
    {
      hide DoRound;
      assert rounds[0..] == rounds;
      for i := 0 to |rounds|
        invariant Valid()
        invariant DoRounds(left.View(), right.View(), rounds[i..], timeout)
               == DoRounds(old(left.View()), old(right.View()), rounds, timeout)
      {
        assert rounds[i..][0] == rounds[i] && rounds[i..][1..] == rounds[i + 1..];
        r := ExchangeOnce(rounds[i]);
        if !r.OneTimedOut? { return; }
        if left.lastActivity + timeout < rounds[i].endsAt && right.lastActivity + timeout < rounds[i].endsAt {
          return Idle;
        }
      }
      r := Dropped;
    }
  }

  lemma NothingTaken(f: Flow, side: Side, start: nat)
    ensures RunMoves(f, ForData, SideMoves([], side)) == (f, ForData, Running)
    ensures LastActive(f, ForData, SideMoves([], side), SideTimes([], side), start) == start
  {
  }
}
