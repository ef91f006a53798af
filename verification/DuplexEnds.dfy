/** How a duplex exchange ends, told by the events of its rounds. */
module DuplexEnds {
  import opened Bytes
  import opened Pipe
  import opened PipeObjects

  // ------------------------------------------------------------------ one direction

  /** The flow of a direction before event `i`. */
  function FlowBefore(f: Flow, events: seq<Event>, side: Side, i: nat): Flow
    requires i <= |events|
  {
    RunMoves(f, ForData, SideMoves(events[..i], side)).0
  }

  /** The event is one of the direction's own that finds the end of its source. */
  predicate FindsEnd(f: Flow, events: seq<Event>, side: Side, i: nat)
    requires i < |events|
  {
    && events[i].side == side && events[i].move.Ready?
    && var g := FlowBefore(f, events, side, i);
       g.pending.None? && Pipe.Read(g.source).Some? && Pipe.Read(g.source).value.0.Eof?
  }

  predicate Expires(events: seq<Event>, side: Side, i: nat)
    requires i < |events|
  {
    events[i].side == side && events[i].move.Elapsed?
  }

  /** Up to event `n` the direction has neither found its end nor run out of time. */
  predicate Flowing(f: Flow, events: seq<Event>, side: Side, n: nat)
    requires n <= |events|
  {
    forall i | 0 <= i < n :: !FindsEnd(f, events, side, i) && !Expires(events, side, i)
  }

  predicate EndsAt(f: Flow, events: seq<Event>, side: Side, i: nat)
    requires i < |events|
  {
    Flowing(f, events, side, i) && FindsEnd(f, events, side, i)
  }

  predicate ExpiresAt(f: Flow, events: seq<Event>, side: Side, i: nat)
    requires i < |events|
  {
    Flowing(f, events, side, i) && Expires(events, side, i)
  }

  predicate IsReady(events: seq<Event>, side: Side, j: nat)
    requires j < |events|
  {
    events[j].side == side && events[j].move.Ready?
  }

  /** The direction finds its end while it flows, and what it wrote is flushed later. */
  predicate Finishes(f: Flow, events: seq<Event>, side: Side, n: nat)
    requires n <= |events|
  {
    exists i, j | 0 <= i < j < n :: EndsAt(f, events, side, i) && IsReady(events, side, j)
  }

  predicate Ended(f: Flow, events: seq<Event>, side: Side, n: nat)
    requires n <= |events|
  {
    exists i | 0 <= i < n :: EndsAt(f, events, side, i)
  }

  /** The direction runs out of time while it flows. */
  predicate TimesOut(f: Flow, events: seq<Event>, side: Side, n: nat)
    requires n <= |events|
  {
    exists i | 0 <= i < n :: ExpiresAt(f, events, side, i)
  }

  lemma SideMovesNext(events: seq<Event>, side: Side, n: nat)
    requires n < |events|
    ensures SideMoves(events[..n + 1], side) == SideMoves(events[..n], side) + if events[n].side == side then [events[n].move] else []
    ensures SideTimes(events[..n + 1], side) == SideTimes(events[..n], side) + if events[n].side == side then [events[n].now] else []
  {
    assert events[..n + 1][..n] == events[..n];
  }

  lemma FlowingNext(f: Flow, events: seq<Event>, side: Side, n: nat)
    requires n < |events|
    ensures Flowing(f, events, side, n + 1)
       <==> Flowing(f, events, side, n) && !FindsEnd(f, events, side, n) && !Expires(events, side, n)
  {
    hide FindsEnd, Expires;
  }

  lemma EndedNext(f: Flow, events: seq<Event>, side: Side, n: nat)
    requires n < |events|
    ensures Ended(f, events, side, n + 1) <==> Ended(f, events, side, n) || EndsAt(f, events, side, n)
    ensures TimesOut(f, events, side, n + 1) <==> TimesOut(f, events, side, n) || ExpiresAt(f, events, side, n)
    ensures Finishes(f, events, side, n + 1)
       <==> Finishes(f, events, side, n) || (Ended(f, events, side, n) && IsReady(events, side, n))
  {
    hide EndsAt, ExpiresAt, IsReady;
    if Ended(f, events, side, n) && IsReady(events, side, n) {
      var i :| 0 <= i < n && EndsAt(f, events, side, i);
      assert EndsAt(f, events, side, i) && IsReady(events, side, n);
    }
  }

  /** What the exchange of a direction has come to, from its events. */
  ghost predicate ToldBy(f: Flow, events: seq<Event>, side: Side, n: nat)
    requires n <= |events|
  {
    var r := RunMoves(f, ForData, SideMoves(events[..n], side));
    && (r.2.TimedOut? <==> TimesOut(f, events, side, n))
    && (r.2.Finished? <==> Finishes(f, events, side, n))
    && (r.1.ForFlush? <==> Ended(f, events, side, n))
    && (r.2.Running? && r.1.ForData? <==> Flowing(f, events, side, n))
    && (r.2.TimedOut? ==> r.1.ForData?) && (r.2.Finished? ==> r.1.ForFlush?)
  }

  lemma AdvanceTold(g: Flow, at: Await, move: Move)
    ensures var r := Advance(g, at, move);
            && (at.ForFlush? ==> r.1.ForFlush? && r.2 == if move.Ready? then Finished else Running)
            && (at.ForData? && move.Elapsed? ==> r.1.ForData? && r.2.TimedOut?)
            && (at.ForData? && move.Ready? ==> r.2.Running?)
            && (at.ForData? && move.Ready? ==>
                  (r.1.ForFlush? <==> g.pending.None? && Pipe.Read(g.source).Some? && Pipe.Read(g.source).value.0.Eof?))
  {
  }

  lemma FlowingExcludes(f: Flow, events: seq<Event>, side: Side, n: nat)
    requires n <= |events| && Flowing(f, events, side, n)
    ensures !Ended(f, events, side, n) && !TimesOut(f, events, side, n) && !Finishes(f, events, side, n)
  {
    hide FindsEnd, Expires;
  }

  lemma ToldNext(f: Flow, events: seq<Event>, side: Side, n: nat)
    requires n < |events| && ToldBy(f, events, side, n)
    ensures ToldBy(f, events, side, n + 1)
  {
    hide RunMoves, Advance, Flowing, Ended, Finishes, TimesOut;
    SideMovesNext(events, side, n);
    FlowingNext(f, events, side, n);
    EndedNext(f, events, side, n);
    var moves := SideMoves(events[..n], side);
    var r := RunMoves(f, ForData, moves);
    if events[n].side == side {
      RunMovesAppend(f, ForData, moves, events[n].move);
      AdvanceTold(r.0, r.1, events[n].move);
      if Flowing(f, events, side, n) {
        FlowingExcludes(f, events, side, n);
      }
    } else {
      assert moves + [] == moves;
    }
  }

  /** A direction has finished exactly when it found its end while it flowed and was flushed
      afterwards, and timed out exactly when its time ran out while it flowed. */
  lemma {:induction false} StatusTold(f: Flow, events: seq<Event>, side: Side, n: nat)
    requires n <= |events|
    ensures ToldBy(f, events, side, n)
    decreases n
  {
    if n == 0 {
      assert events[..0] == [];
    } else {
      StatusTold(f, events, side, n - 1);
      ToldNext(f, events, side, n - 1);
    }
  }

  // ------------------------------------------------------------------ activity

  /** The event hands bytes of the direction to its sink. */
  predicate HandsOver(f: Flow, events: seq<Event>, side: Side, i: nat)
    requires i < |events|
  {
    && IsReady(events, side, i) && Flowing(f, events, side, i)
    && var g := FlowBefore(f, events, side, i);
       g.pending.Some? || (Pipe.Read(g.source).Some? && Pipe.Read(g.source).value.0.Chunk?)
  }

  /** Bytes are accepted by the sink only in such an event. */
  lemma AcceptedOnlyThen(f: Flow, events: seq<Event>, side: Side, i: nat)
    requires i < |events|
    requires FlowBefore(f, events, side, i + 1).accepted != FlowBefore(f, events, side, i).accepted
    ensures HandsOver(f, events, side, i)
  {
    hide RunMoves, Flowing;
    StatusTold(f, events, side, i);
    SideMovesNext(events, side, i);
    var moves := SideMoves(events[..i], side);
    assert moves + [] == moves;
    RunMovesAppend(f, ForData, moves, events[i].move);
  }

  /** The events of a round come in the order of the clock. */
  predicate Clocked(round: Round) {
    && (forall i | 0 <= i < |round.events| :: round.startsAt <= round.events[i].now)
    && (forall i, j | 0 <= i < j < |round.events| :: round.events[i].now <= round.events[j].now)
  }

  /** The direction has handed nothing over within the last `timeout` before the round's end. */
  predicate Quiet(f: Flow, round: Round, side: Side, n: nat, timeout: nat)
    requires n <= |round.events|
  {
    && round.startsAt + timeout < round.endsAt
    && forall i | 0 <= i < n && HandsOver(f, round.events, side, i) :: round.events[i].now + timeout < round.endsAt
  }

  function LastActivity(f: Flow, round: Round, side: Side, n: nat): nat
    requires n <= |round.events|
  {
    var events := round.events[..n];
    LastActive(f, ForData, SideMoves(events, side), SideTimes(events, side), round.startsAt)
  }

  lemma LastActivityNext(f: Flow, round: Round, side: Side, n: nat)
    requires n < |round.events|
    ensures LastActivity(f, round, side, n + 1)
         == if HandsOver(f, round.events, side, n) then round.events[n].now else LastActivity(f, round, side, n)
  {
    hide RunMoves, LastActive, Flowing;
    var events := round.events;
    StatusTold(f, events, side, n);
    SideMovesNext(events, side, n);
    var moves, times := SideMoves(events[..n], side), SideTimes(events[..n], side);
    if events[n].side == side {
      LastActiveAppend(f, ForData, moves, times, round.startsAt, events[n].move, events[n].now);
    } else {
      assert moves + [] == moves && times + [] == times;
    }
  }

  lemma {:induction false} LastActivityBounds(f: Flow, round: Round, side: Side, n: nat)
    requires n <= |round.events| && Clocked(round)
    ensures round.startsAt <= LastActivity(f, round, side, n)
    ensures forall i | 0 <= i < n && HandsOver(f, round.events, side, i) :: round.events[i].now <= LastActivity(f, round, side, n)
    ensures LastActivity(f, round, side, n) == round.startsAt
         || exists i | 0 <= i < n :: HandsOver(f, round.events, side, i) && round.events[i].now == LastActivity(f, round, side, n)
    decreases n
  {
    hide HandsOver, LastActivity;
    if n == 0 {
      NoActivityYet(f, round, side);
    } else {
      LastActivityBounds(f, round, side, n - 1);
      LastActivityNext(f, round, side, n - 1);
    }
  }

  lemma NoActivityYet(f: Flow, round: Round, side: Side)
    ensures LastActivity(f, round, side, 0) == round.startsAt
  {
    assert round.events[..0] == [];
  }

  lemma QuietIff(f: Flow, round: Round, side: Side, n: nat, timeout: nat)
    requires n <= |round.events| && Clocked(round)
    ensures LastActivity(f, round, side, n) + timeout < round.endsAt <==> Quiet(f, round, side, n, timeout)
  {
    hide HandsOver, LastActivity;
    LastActivityBounds(f, round, side, n);
  }

  // ------------------------------------------------------------------ a round

  /** A direction has timed out, or both have finished. */
  predicate Over(l: Flow, r: Flow, events: seq<Event>, n: nat)
    requires n <= |events|
  {
    || TimesOut(l, events, Left, n) || TimesOut(r, events, Right, n)
    || (Finishes(l, events, Left, n) && Finishes(r, events, Right, n))
  }

  function EndOf(l: Flow, r: Flow, round: Round): (n: nat)
    ensures n <= |round.events|
  {
    RoundEnd(l, r, round.events, 0)
  }

  lemma GoingIff(l: Flow, r: Flow, events: seq<Event>, n: nat)
    requires n <= |events|
    ensures Going(l, r, events[..n]) <==> !Over(l, r, events, n)
  {
    hide RunMoves, TimesOut, Finishes;
    StatusTold(l, events, Left, n);
    StatusTold(r, events, Right, n);
  }

  lemma {:induction false} RoundEndFrom(l: Flow, r: Flow, events: seq<Event>, m: nat)
    requires m <= |events|
    ensures var n := RoundEnd(l, r, events, m);
            && (n == |events| || Over(l, r, events, n))
            && forall i | m <= i < n :: !Over(l, r, events, i)
    decreases |events| - m
  {
    hide Going, Over;
    GoingIff(l, r, events, m);
    if m < |events| && Going(l, r, events[..m]) {
      RoundEndFrom(l, r, events, m + 1);
    }
  }

  /** A round ends with the first event behind which it is over, and tells how. */
  lemma RoundTold(l: Flow, r: Flow, round: Round)
    ensures var n, outcome := EndOf(l, r, round), DoRound(l, r, round).outcome;
            && (n == |round.events| || Over(l, r, round.events, n))
            && (forall i | 0 <= i < n :: !Over(l, r, round.events, i))
            && (outcome == BothFinished <==> Finishes(l, round.events, Left, n) && Finishes(r, round.events, Right, n))
            && (outcome == HalfTimedOut <==>
                  || (Finishes(l, round.events, Left, n) && TimesOut(r, round.events, Right, n))
                  || (TimesOut(l, round.events, Left, n) && Finishes(r, round.events, Right, n)))
            && (outcome == OneTimedOut <==>
                  || (TimesOut(l, round.events, Left, n) && !Finishes(r, round.events, Right, n))
                  || (TimesOut(r, round.events, Right, n) && !Finishes(l, round.events, Left, n)))
            && (outcome == Dropped ==> n == |round.events| && !Over(l, r, round.events, n))
  {
    hide RunMoves, TimesOut, Finishes, RoundEnd, LastActive, SideMoves, SideTimes;
    var n := EndOf(l, r, round);
    RoundEndFrom(l, r, round.events, 0);
    StatusTold(l, round.events, Left, n);
    StatusTold(r, round.events, Right, n);
  }

  // ------------------------------------------------------------------ all rounds

  /** Neither direction has handed anything over within the timeout. */
  predicate BothQuiet(l: Flow, r: Flow, round: Round, timeout: nat) {
    var n := EndOf(l, r, round);
    Quiet(l, round, Left, n, timeout) && Quiet(r, round, Right, n, timeout)
  }

  /** The flows before round `n`. */
  function FlowsBefore(l: Flow, r: Flow, rounds: seq<Round>, n: nat): (Flow, Flow)
    requires n <= |rounds|
    decreases n
  {
    if n == 0 then (l, r)
    else
      var (l', r') := FlowsBefore(l, r, rounds, n - 1);
      var x := DoRound(l', r', rounds[n - 1]);
      (x.left, x.right)
  }

  /** The exchange goes on behind round `n`: a direction timed out and some direction was
      active within the timeout. */
  predicate GoesOn(l: Flow, r: Flow, rounds: seq<Round>, n: nat, timeout: nat)
    requires n < |rounds|
  {
    var (l', r') := FlowsBefore(l, r, rounds, n);
    DoRound(l', r', rounds[n]).outcome == OneTimedOut && !BothQuiet(l', r', rounds[n], timeout)
  }

  /** Round `n` ends the exchange with an outcome. */
  predicate EndsWith(l: Flow, r: Flow, rounds: seq<Round>, n: nat, timeout: nat, outcome: Outcome)
    requires n < |rounds|
  {
    var (l', r') := FlowsBefore(l, r, rounds, n);
    var o := DoRound(l', r', rounds[n]).outcome;
    if outcome == Idle then o == OneTimedOut && BothQuiet(l', r', rounds[n], timeout)
    else o == outcome && o != OneTimedOut
  }

  predicate GoneOn(l: Flow, r: Flow, rounds: seq<Round>, n: nat, timeout: nat)
    requires n <= |rounds|
  {
    forall m | 0 <= m < n :: GoesOn(l, r, rounds, m, timeout)
  }

  lemma {:induction false} FlowsShift(l: Flow, r: Flow, rounds: seq<Round>, n: nat)
    requires n < |rounds|
    ensures var x := DoRound(l, r, rounds[0]);
            FlowsBefore(l, r, rounds, n + 1) == FlowsBefore(x.left, x.right, rounds[1..], n)
    decreases n
  {
    hide DoRound;
    if n > 0 {
      FlowsShift(l, r, rounds, n - 1);
    }
  }

  lemma IdleTest(l: Flow, r: Flow, round: Round, timeout: nat)
    requires Clocked(round)
    ensures var x := DoRound(l, r, round);
            x.leftActive + timeout < round.endsAt && x.rightActive + timeout < round.endsAt <==> BothQuiet(l, r, round, timeout)
  {
    hide RunMoves, LastActive, SideMoves, SideTimes, RoundEnd, Quiet;
    var n := EndOf(l, r, round);
    QuietIff(l, round, Left, n, timeout);
    QuietIff(r, round, Right, n, timeout);
  }

  predicate AllClocked(rounds: seq<Round>) {
    forall i | 0 <= i < |rounds| :: Clocked(rounds[i])
  }

  /** From the exchange of the rounds behind the first to that of all of them. */
  lemma EndsShift(l: Flow, r: Flow, rounds: seq<Round>, timeout: nat, outcome: Outcome, n: nat)
    requires 0 < n < |rounds|
    ensures var x := DoRound(l, r, rounds[0]);
            && (EndsWith(l, r, rounds, n, timeout, outcome) <==> EndsWith(x.left, x.right, rounds[1..], n - 1, timeout, outcome))
            && (GoesOn(l, r, rounds, n, timeout) <==> GoesOn(x.left, x.right, rounds[1..], n - 1, timeout))
  {
    hide DoRound, BothQuiet, FlowsBefore;
    FlowsShift(l, r, rounds, n - 1);
  }

  lemma GoneOnShift(l: Flow, r: Flow, rounds: seq<Round>, timeout: nat, n: nat)
    requires 0 < n <= |rounds|
    ensures var x := DoRound(l, r, rounds[0]);
            GoneOn(l, r, rounds, n, timeout) <==> GoesOn(l, r, rounds, 0, timeout) && GoneOn(x.left, x.right, rounds[1..], n - 1, timeout)
  {
    hide DoRound, GoesOn;
    var x := DoRound(l, r, rounds[0]);
    forall m | 0 < m < n { EndsShift(l, r, rounds, timeout, Dropped, m); }
    if GoneOn(l, r, rounds, n, timeout) {
      forall m | 0 <= m < n - 1 ensures GoesOn(x.left, x.right, rounds[1..], m, timeout) {
        assert GoesOn(l, r, rounds, m + 1, timeout);
      }
    }
  }

  ghost predicate SomeRoundEndsWith(l: Flow, r: Flow, rounds: seq<Round>, timeout: nat, outcome: Outcome) {
    exists n | 0 <= n < |rounds| :: GoneOn(l, r, rounds, n, timeout) && EndsWith(l, r, rounds, n, timeout, outcome)
  }

  lemma SomeRoundShift(l: Flow, r: Flow, rounds: seq<Round>, timeout: nat, outcome: Outcome)
    requires rounds != []
    ensures var x := DoRound(l, r, rounds[0]);
            SomeRoundEndsWith(l, r, rounds, timeout, outcome) <==>
              || EndsWith(l, r, rounds, 0, timeout, outcome)
              || (GoesOn(l, r, rounds, 0, timeout) && SomeRoundEndsWith(x.left, x.right, rounds[1..], timeout, outcome))
  {
    hide DoRound, GoesOn, EndsWith, GoneOn;
    var x := DoRound(l, r, rounds[0]);
    NoneGone(l, r, rounds, timeout);
    if SomeRoundEndsWith(l, r, rounds, timeout, outcome) {
      var n :| 0 <= n < |rounds| && GoneOn(l, r, rounds, n, timeout) && EndsWith(l, r, rounds, n, timeout, outcome);
      if n > 0 {
        EndsShift(l, r, rounds, timeout, outcome, n);
        GoneOnShift(l, r, rounds, timeout, n);
      }
    }
    if GoesOn(l, r, rounds, 0, timeout) && SomeRoundEndsWith(x.left, x.right, rounds[1..], timeout, outcome) {
      var n :| 0 <= n < |rounds[1..]| && GoneOn(x.left, x.right, rounds[1..], n, timeout)
               && EndsWith(x.left, x.right, rounds[1..], n, timeout, outcome);
      EndsShift(l, r, rounds, timeout, outcome, n + 1);
      GoneOnShift(l, r, rounds, timeout, n + 1);
    }
  }

  lemma NoneGone(l: Flow, r: Flow, rounds: seq<Round>, timeout: nat)
    ensures GoneOn(l, r, rounds, 0, timeout)
  {
  }

  /** An exchange ends with an outcome if and only if some round does, all rounds before it
      having ended with a timeout of one direction and some direction active within the
      timeout: idle when a direction timed out and neither was active, and otherwise as the
      round itself ended. It is dropped when no round ends it. */
  lemma {:induction false} ExchangeEndsIff(l: Flow, r: Flow, rounds: seq<Round>, timeout: nat, outcome: Outcome)
    requires AllClocked(rounds) && outcome != OneTimedOut
    ensures DoRounds(l, r, rounds, timeout).2 == outcome
       <==> || SomeRoundEndsWith(l, r, rounds, timeout, outcome)
            || (outcome == Dropped && GoneOn(l, r, rounds, |rounds|, timeout))
    decreases |rounds|
  {
    hide DoRound, BothQuiet, GoneOn, SomeRoundEndsWith, Clocked;
    NoneGone(l, r, rounds, timeout);
    if rounds == [] {
      NoRoundEnds(l, r, timeout, outcome);
    } else {
      var x := DoRound(l, r, rounds[0]);
      IdleTest(l, r, rounds[0], timeout);
      SomeRoundShift(l, r, rounds, timeout, outcome);
      GoneOnShift(l, r, rounds, timeout, |rounds|);
      ExchangeEndsIff(x.left, x.right, rounds[1..], timeout, outcome);
    }
  }

  lemma NoRoundEnds(l: Flow, r: Flow, timeout: nat, outcome: Outcome)
    ensures !SomeRoundEndsWith(l, r, [], timeout, outcome)
  {
  }

  /** A direction that hands something over within the timeout of every round's end keeps
      the exchange from ending idle. */
  lemma ActiveNeverIdle(l: Flow, r: Flow, rounds: seq<Round>, timeout: nat)
    requires AllClocked(rounds)
    requires forall n | 0 <= n < |rounds| ::
               var (l', r') := FlowsBefore(l, r, rounds, n); !BothQuiet(l', r', rounds[n], timeout)
    ensures DoRounds(l, r, rounds, timeout).2 != Idle
  {
    hide DoRounds, BothQuiet, FlowsBefore, DoRound;
    ExchangeEndsIff(l, r, rounds, timeout, Idle);
  }
}
