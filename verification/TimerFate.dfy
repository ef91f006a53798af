/** What becomes of one connection's timer over every run of the multiplexer. */
module TimerFate {
  import opened Bytes
  import opened Deadlines

  function TimerOf(table: Table, c: ConnId): Option<Instant> {
    if c in table then Some(table[c]) else None
  }

  /** A timer that is due by the time of a pass goes off, and comes back only for a
      connection that is there and asks for it. */
  function NextTimer(timer: Option<Instant>, event: Event, c: ConnId): Option<Instant> {
    match event
    case Arm(conn, due) => if conn == c then Some(due) else timer
    case Disarm(conn) => if conn == c then None else timer
    case Forget(conns) => if c in conns then None else timer
    case Pass(now, live, delay) =>
      if timer.None? || now < timer.value then timer
      else if c in live && delay(c).Some? then Some(now + delay(c).value)
      else None
  }

  function TimerAlong(timer: Option<Instant>, events: seq<Event>, c: ConnId): Option<Instant> {
    if events == [] then timer
    else NextTimer(TimerAlong(timer, events[..|events| - 1], c), events[|events| - 1], c)
  }

  lemma StepTimer(s: Timers, event: Event, s': Timers, c: ConnId)
    requires Next(s, event, s')
    ensures TimerOf(s'.table, c) == NextTimer(TimerOf(s.table, c), event, c)
  {
  }

  /** Over every run a connection's timer is told by the events for it alone. */
  lemma {:induction false} TimerTold(states: seq<Timers>, events: seq<Event>, n: nat, c: ConnId)
    requires IsRun(states, events) && n <= |events|
    ensures TimerOf(states[n].table, c) == TimerAlong(TimerOf(states[0].table, c), events[..n], c)
    decreases n
  {
    hide Next, NextTimer, TimerOf;
    if n > 0 {
      TimerTold(states, events, n - 1, c);
      assert events[..n][..n - 1] == events[..n - 1];
      assert Next(states[n - 1], events[n - 1], states[n]);
      StepTimer(states[n - 1], events[n - 1], states[n], c);
    }
  }

  /** Whether the earliest deadline is worked out again. */
  predicate Recomputes(event: Event, before: Option<Instant>) {
    event.Arm? || event.Pass? || (event.Disarm? && before.Some?)
  }

  /** The cached deadline is the earliest timer behind every event that recomputes it, and
      otherwise stays. */
  lemma ClosestTold(s: Timers, event: Event, s': Timers)
    requires Next(s, event, s')
    ensures if Recomputes(event, if event.Disarm? then TimerOf(s.table, event.conn) else None)
            then && (s'.closest.None? <==> forall c :: TimerOf(s'.table, c).None?)
                 && (s'.closest.Some? ==>
                       && (exists c :: TimerOf(s'.table, c) == s'.closest)
                       && (forall c | TimerOf(s'.table, c).Some? :: s'.closest.value <= TimerOf(s'.table, c).value))
            else s'.closest == s.closest
  {
    hide Rearmed, Expired;
    if s'.closest == None && s'.table == map[] {
      assert forall c :: TimerOf(s'.table, c).None?;
    }
    if s'.closest.Some? && IsClosest(s'.table, s'.closest) {
      var c :| c in s'.table && s'.table[c] == s'.closest.value;
      assert TimerOf(s'.table, c) == s'.closest;
    }
  }

  /** The event loop that wakes at the earliest deadline finds an expired connection. */
  lemma WakeFindsExpired(table: Table, now: Instant)
    requires IsClosest(table, Some(now))
    ensures exists c :: c in Expired(table, now)
  {
    var c :| c in table && table[c] == now;
    assert c in Expired(table, now);
  }

  /** A pass moves the earliest deadline past its own time, unless a connection that went off
      asks to be called again at once. */
  lemma PassMovesOn(s: Timers, now: Instant, live: set<ConnId>, delay: ConnId -> Option<nat>, s': Timers)
    requires Next(s, Pass(now, live, delay), s')
    requires s'.closest.Some? && s'.closest.value <= now
    ensures exists c :: c in Expired(s.table, now) && c in live && delay(c) == Some(0)
  {
    var c :| c in s'.table && s'.table[c] == s'.closest.value;
    assert c in Expired(s.table, now) && delay(c) == Some(0);
  }
}
