/** The QUIC multiplexer's deadline table: one deadline per connection, and a
    cached earliest one that the event loop sleeps until. */
module Deadlines {
  import opened Bytes

  type ConnId = nat

  type Instant = nat

  datatype Connection = Handshake | Established

  type Table = map<ConnId, Instant>

  /** The earliest deadline of a table. */
  ghost predicate IsClosest(table: Table, closest: Option<Instant>) {
    match closest
    case None => table == map[]
    case Some(t) => (exists c :: c in table && table[c] == t) && forall c | c in table :: t <= table[c]
  }

  /** The event loop never sleeps past a deadline. */
  ghost predicate NeverLate(table: Table, closest: Option<Instant>) {
    forall c | c in table :: closest.Some? && closest.value <= table[c]
  }

  ghost function Expired(table: Table, now: Instant): set<ConnId> {
    set c | c in table && table[c] <= now
  }

  /** The table after a pass at `now` over the connections `ids`: their entries go,
      and the connections among them that are still there and ask for a timer, some
      `delay` after `now`, get a new one. */
  ghost function Rearmed(table: Table, ids: set<ConnId>, live: set<ConnId>,
                         now: Instant, delay: ConnId -> Option<nat>): Table {
    map c | c in table && (c in ids ==> c in live && delay(c).Some?) ::
      if c in ids then now + delay(c).value else table[c]
  }

  /** A pass is made one connection at a time. */
  lemma RearmedOneMore(table: Table, ids: seq<ConnId>, i: nat, live: set<ConnId>,
                       now: Instant, delay: ConnId -> Option<nat>)
    requires i < |ids| && ids[i] !in ids[..i]
    ensures Rearmed(Rearmed(table, AsSet(ids[..i]), live, now, delay), {ids[i]}, live, now, delay)
         == Rearmed(table, AsSet(ids[..i + 1]), live, now, delay)
    ensures ids[i] in table ==> ids[i] in Rearmed(table, AsSet(ids[..i]), live, now, delay)
  {
  }

  lemma RearmedNone(table: Table, live: set<ConnId>, now: Instant, delay: ConnId -> Option<nat>)
    ensures Rearmed(table, AsSet([]), live, now, delay) == table
  {
  }

  /** A pass over the expired connections leaves no deadline before its own time. */
  lemma PassLeavesNothingLate(table: Table, live: set<ConnId>, now: Instant, delay: ConnId -> Option<nat>)
    ensures var table' := Rearmed(table, Expired(table, now), live, now, delay);
            forall c | c in table' :: now <= table'[c]
  {
  }

  /** `calls` names each of `ids` once and nothing else. */
  ghost predicate OnceEach(calls: seq<ConnId>, ids: set<ConnId>) {
    && (forall c :: c in calls <==> c in ids)
    && (forall i, j | 0 <= i < j < |calls| :: calls[i] != calls[j])
  }

  ghost function AsSet(ids: seq<ConnId>): set<ConnId> {
    set c | c in ids
  }

  /** The members of `ids` that belong to `who`, in their order. */
  function Among(ids: seq<ConnId>, who: set<ConnId>): seq<ConnId> {
    if ids == [] then []
    else Among(ids[..|ids| - 1], who) + if ids[|ids| - 1] in who then [ids[|ids| - 1]] else []
  }

  lemma AmongOneMore(ids: seq<ConnId>, i: nat, who: set<ConnId>)
    requires i < |ids|
    ensures Among(ids[..i + 1], who) == Among(ids[..i], who) + if ids[i] in who then [ids[i]] else []
  {
    assert ids[..i + 1][..i] == ids[..i];
  }

  lemma {:induction false} AmongOnceEach(ids: seq<ConnId>, who: set<ConnId>)
    requires OnceEach(ids, AsSet(ids))
    ensures OnceEach(Among(ids, who), AsSet(ids) * who)
    decreases |ids|
  {
    if ids != [] {
      var front, last := ids[..|ids| - 1], ids[|ids| - 1];
      assert ids == front + [last];
      assert forall i | 0 <= i < |front| :: front[i] == ids[i];
      AmongOnceEach(front, who);
      assert last !in Among(front, who);
    }
  }

  // ------------------------------------------------------------------ runs

  datatype Timers = Timers(table: Table, closest: Option<Instant>)

  datatype Event =
    /** A packet or a socket message sets a connection's timer. */
    | Arm(conn: ConnId, due: Instant)
    /** A socket message finds the connection without a timer. */
    | Disarm(conn: ConnId)
    /** Timers go without the earliest deadline being worked out again. */
    | Forget(conns: set<ConnId>)
    | Pass(now: Instant, live: set<ConnId>, delay: ConnId -> Option<nat>)

  ghost predicate Next(s: Timers, event: Event, s': Timers) {
    match event
    case Arm(conn, due) => s'.table == s.table[conn := due] && IsClosest(s'.table, s'.closest)
    case Disarm(conn) =>
      s'.table == s.table - {conn} && if conn in s.table then IsClosest(s'.table, s'.closest) else s'.closest == s.closest
    case Forget(conns) => s'.table == s.table - conns && s'.closest == s.closest
    case Pass(now, live, delay) =>
      s'.table == Rearmed(s.table, Expired(s.table, now), live, now, delay) && IsClosest(s'.table, s'.closest)
  }

  ghost predicate IsRun(states: seq<Timers>, events: seq<Event>) {
    |states| == |events| + 1 && forall i | 0 <= i < |events| :: Next(states[i], events[i], states[i + 1])
  }

  lemma StepNeverLate(s: Timers, event: Event, s': Timers)
    requires NeverLate(s.table, s.closest) && Next(s, event, s')
    ensures NeverLate(s'.table, s'.closest)
  {
  }

  /** Whatever happens to the table, and although some removals leave the earliest
      deadline alone, the event loop is never asleep past a deadline. */
  lemma {:induction false} NeverLateAlways(states: seq<Timers>, events: seq<Event>, n: nat)
    requires IsRun(states, events) && n <= |events|
    requires NeverLate(states[0].table, states[0].closest)
    ensures NeverLate(states[n].table, states[n].closest)
    decreases n
  {
    hide Next, NeverLate;
    if n > 0 {
      NeverLateAlways(states, events, n - 1);
      assert Next(states[n - 1], events[n - 1], states[n]);
      StepNeverLate(states[n - 1], events[n - 1], states[n]);
    }
  }

  // ------------------------------------------------------------------ a batch of packets

  const READ_BUDGET := 1024

  /** What a packet does to its connection: nothing, one more step of the handshake, the
      end of the handshake with or without an HTTP/3 session, or an error. */
  datatype Verdict = Ignored | Waiting | Completes(h3Opened: bool) | Fails

  datatype Packet = Malformed | Packet(conn: ConnId, verdict: Verdict)

  /** `touched` are the connections to look after once the batch is read, `accepted` is
      the one that ends the batch. */
  datatype Batch = Batch(connections: map<ConnId, Connection>, table: Table,
                         touched: set<ConnId>, accepted: Option<ConnId>)

  function AfterPacket(b: Batch, packet: Packet): Batch {
    if packet.Malformed? then b
    else
      var Packet(conn, verdict) := packet;
      var b' := b.(touched := b.touched + {conn});
      if conn !in b.connections then
        match verdict
        case Waiting => b'.(connections := b.connections[conn := Handshake])
        case Completes(true) => b'.(connections := b.connections[conn := Established], accepted := Some(conn))
        case Completes(false) => b'
        case _ => b
      else if b.connections[conn].Handshake? && verdict.Completes? then
        if verdict.h3Opened then
          b'.(connections := b.connections[conn := Established], table := b.table - {conn}, accepted := Some(conn))
        else b'.(connections := b.connections - {conn}, table := b.table - {conn})
      else b'
  }

  /** A batch ends with the first connection that is accepted. */
  function AfterPackets(b: Batch, packets: seq<Packet>): Batch
    decreases |packets|
  {
    if packets == [] || b.accepted.Some? then b else AfterPackets(AfterPacket(b, packets[0]), packets[1..])
  }

  /** The connections among `ids` that ask for a timer get one, and the others keep theirs. */
  ghost function Armed(table: Table, ids: set<ConnId>, now: Instant, delay: ConnId -> Option<nat>): Table {
    map c | c in table.Keys + ids && (c in table || delay(c).Some?) ::
      if c in ids && delay(c).Some? then now + delay(c).value else table[c]
  }

  lemma ArmedNone(table: Table, now: Instant, delay: ConnId -> Option<nat>)
    ensures Armed(table, {}, now, delay) == table
  {
  }

  lemma ArmedOneMore(table: Table, ids: set<ConnId>, conn: ConnId, now: Instant, delay: ConnId -> Option<nat>)
    ensures var t := Armed(table, ids, now, delay);
            Armed(table, ids + {conn}, now, delay) == if delay(conn).Some? then t[conn := now + delay(conn).value] else t
  {
  }

  lemma {:induction false} AfterPacketsAppend(b: Batch, packets: seq<Packet>, packet: Packet)
    ensures var r := AfterPackets(b, packets);
            AfterPackets(b, packets + [packet]) == if r.accepted.Some? then r else AfterPacket(r, packet)
    decreases |packets|
  {
    if packets == [] {
      assert (packets + [packet])[1..] == [];
    } else if b.accepted.None? {
      assert (packets + [packet])[1..] == packets[1..] + [packet];
      AfterPacketsAppend(AfterPacket(b, packets[0]), packets[1..], packet);
    }
  }

  lemma {:induction false} AfterPacketsStops(b: Batch, packets: seq<Packet>, n: nat)
    requires n <= |packets| && AfterPackets(b, packets[..n]).accepted.Some?
    ensures AfterPackets(b, packets) == AfterPackets(b, packets[..n])
    decreases n
  {
    if b.accepted.None? {
      assert packets[..n][1..] == packets[1..][..n - 1];
      AfterPacketsStops(AfterPacket(b, packets[0]), packets[1..], n - 1);
    }
  }

  /** A connection that no packet was for keeps its state and its timer. */
  lemma {:induction false} OthersKept(b: Batch, packets: seq<Packet>, c: ConnId)
    ensures var r := AfterPackets(b, packets);
            c !in r.touched ==>
              && (c in r.connections <==> c in b.connections) && (c in b.connections ==> r.connections[c] == b.connections[c])
              && (c in r.table <==> c in b.table) && (c in b.table ==> r.table[c] == b.table[c])
    ensures b.touched <= AfterPackets(b, packets).touched
    decreases |packets|
  {
    if packets != [] && b.accepted.None? {
      OthersKept(AfterPacket(b, packets[0]), packets[1..], c);
    }
  }

  /** An accepted connection is established, and was not before; a timer of its handshake
      does not outlive the handshake. */
  lemma {:induction false} AcceptedHasNoOldTimer(b: Batch, packets: seq<Packet>, c: ConnId)
    requires b.accepted.None? && AfterPackets(b, packets).accepted == Some(c)
    ensures var r := AfterPackets(b, packets);
            && c in r.connections && r.connections[c] == Established && c in r.touched
            && (c in b.connections ==> b.connections[c] == Handshake)
            && (c in b.connections || c !in b.table ==> c !in r.table)
    decreases |packets|
  {
    var b' := AfterPacket(b, packets[0]);
    if b'.accepted.None? {
      AcceptedHasNoOldTimer(b', packets[1..], c);
    }
  }

  /** So behind a batch it has a timer exactly when it asks for one. */
  lemma AcceptedTimerIff(b: Batch, packets: seq<Packet>, c: ConnId, now: Instant, delay: ConnId -> Option<nat>)
    requires b.accepted.None? && AfterPackets(b, packets).accepted == Some(c)
    requires c in b.connections || c !in b.table
    ensures var r := AfterPackets(b, packets); c in Armed(r.table, r.touched, now, delay) <==> delay(c).Some?
  {
    hide AfterPackets;
    AcceptedHasNoOldTimer(b, packets, c);
  }

  datatype SocketMessage = Close(conn: ConnId) | RefreshDeadline(conn: ConnId)

  method MinDeadline(table: Table) returns (closest: Option<Instant>)
    ensures IsClosest(table, closest)
  {
    var rest := table.Keys;
    closest := None;
    while rest != {}
      invariant rest <= table.Keys
      invariant closest.None? <==> rest == table.Keys
      invariant closest.Some? ==>
        (exists c :: c in table && table[c] == closest.value)
        && forall c | c in table.Keys - rest :: closest.value <= table[c]
      decreases |rest|
    {
      var c :| c in rest;
      rest := rest - {c};
      if closest.None? || table[c] < closest.value {
        closest := Some(table[c]);
      }
    }
    assert closest.None? ==> table == map[];
  }

  class QuicMultiplexer {
    var connections: map<ConnId, Connection>
    var deadlines: Table
    var closestDeadline: Option<Instant>
    // the connections whose `on_timeout` was called, in order
    var timeoutCalls: seq<ConnId>

    ghost predicate Valid()
      reads this
    {
      NeverLate(deadlines, closestDeadline)
    }

    ghost function View(): Timers
      reads this
    {
      Timers(deadlines, closestDeadline)
    }

    constructor ()
      ensures Valid() && connections == map[] && deadlines == map[] && timeoutCalls == []
    {
      connections, deadlines, closestDeadline, timeoutCalls := map[], map[], None, [];
    }

    method UpdateConnectionDeadline(conn: ConnId, now: Instant, duration: nat)
      modifies this`deadlines, this`closestDeadline
      ensures Valid() && Next(old(View()), Arm(conn, now + duration), View())
    {
      deadlines := deadlines[conn := now + duration];
      closestDeadline := MinDeadline(deadlines);
    }

    /** A first packet of a connection that is let in. */
    method OnNewConnection(conn: ConnId, established: bool, h3Opened: bool) returns (accepted: bool)
      requires conn !in connections
      modifies this`connections
      ensures var verdict := if established then Completes(h3Opened) else Waiting;
              var b := AfterPacket(Batch(old(connections), deadlines, {}, None), Packet(conn, verdict));
              connections == b.connections && deadlines == b.table && accepted == b.accepted.Some?
    {
      if established {
        if h3Opened {
          connections := connections[conn := Established];
        }
        return h3Opened;
      }
      connections := connections[conn := Handshake];
      return false;
    }

    /** A handshake completes: the connection's timer goes, and the earliest
        deadline is left as it was. */
    method OnHandshakeComplete(conn: ConnId, h3Opened: bool)
      requires Valid() && conn in connections
      modifies this`connections, this`deadlines
      ensures Valid() && Next(old(View()), Forget({conn}), View())
      ensures connections == if h3Opened then old(connections)[conn := Established] else old(connections) - {conn}
    {
      deadlines := deadlines - {conn};
      connections := connections - {conn};
      if h3Opened {
        connections := connections[conn := Established];
        assert connections == old(connections)[conn := Established];
      }
    }

    /** One packet: whether its connection is to be looked after, and whether it is accepted. */
    method OnQuicPacket(packet: Packet, ghost touched: set<ConnId>) returns (touch: bool, accept: bool)
      requires Valid()
      modifies this`connections, this`deadlines
      ensures Valid() && (touch || accept ==> packet.Packet?)
      ensures var b := AfterPacket(Batch(old(connections), old(deadlines), touched, None), packet);
              && connections == b.connections && deadlines == b.table
              && b.touched == touched + (if touch then {packet.conn} else {})
              && b.accepted == if accept then Some(packet.conn) else None
    {
      if packet.Malformed? { return false, false; }
      var conn, verdict := packet.conn, packet.verdict;
      if conn !in connections {
        if verdict.Ignored? || verdict.Fails? { return false, false; }
        accept := OnNewConnection(conn, verdict.Completes?, verdict.Completes? && verdict.h3Opened);
        return true, accept;
      }
      match connections[conn] {
        case Handshake =>
          if verdict.Completes? {
            OnHandshakeComplete(conn, verdict.h3Opened);
            return true, verdict.h3Opened;
          }
          return true, false;
        case Established =>
          return true, false;
      }
    }

    /** Reads a batch of packets and then arms the timers of the connections they were for. */
    method ReadUdpSocket(packets: seq<Packet>, now: Instant, delay: ConnId -> Option<nat>) returns (accepted: Option<ConnId>)
      requires Valid()
      modifies this`connections, this`deadlines, this`closestDeadline
      ensures Valid()
      ensures var b := AfterPackets(Batch(old(connections), old(deadlines), {}, None), packets[..Min(|packets|, READ_BUDGET)]);
              connections == b.connections && deadlines == Armed(b.table, b.touched, now, delay) && accepted == b.accepted
    {
      hide AfterPacket, AfterPackets, Armed;
      ghost var start, all := Batch(connections, deadlines, {}, None), packets[..Min(|packets|, READ_BUDGET)];
      var pending: set<ConnId>, i := {}, 0;
      accepted := None;
      NoPackets(start);
      while i < |packets| && i < READ_BUDGET && accepted.None?
        invariant 0 <= i <= |all| && Valid()
        invariant AfterPackets(start, packets[..i]) == Batch(connections, deadlines, pending, accepted)
      {
        AfterPacketsAppend(start, packets[..i], packets[i]);
        assert packets[..i + 1] == packets[..i] + [packets[i]];
        var touch, accept := OnQuicPacket(packets[i], pending);
        if touch { pending := pending + {packets[i].conn}; }
        if accept { accepted := Some(packets[i].conn); }
        i := i + 1;
      }
      assert all[..i] == packets[..i];
      if accepted.Some? {
        AfterPacketsStops(start, all, i);
      } else {
        assert all[..i] == all;
      }
      ArmAll(pending, now, delay);
    }

    /** Each connection that asks for a timer is armed. */
    method ArmAll(ids: set<ConnId>, now: Instant, delay: ConnId -> Option<nat>)
      requires Valid()
      modifies this`deadlines, this`closestDeadline
      ensures Valid() && deadlines == Armed(old(deadlines), ids, now, delay)
    {
      hide Armed;
      var left := ids;
      ghost var done := {};
      ArmedNone(deadlines, now, delay);
      while left != {}
        invariant done !! left && done + left == ids && Valid()
        invariant deadlines == Armed(old(deadlines), done, now, delay)
        decreases left
      {
        var conn :| conn in left;
        ArmedOneMore(old(deadlines), done, conn, now, delay);
        if delay(conn).Some? {
          UpdateConnectionDeadline(conn, now, delay(conn).value);
        }
        left, done := left - {conn}, done + {conn};
      }
      assert done == ids;
    }

    method OnSocketMessage(message: SocketMessage, now: Instant, timeout: Option<nat>)
      requires Valid()
      modifies this`connections, this`deadlines, this`closestDeadline
      ensures Valid()
      ensures message.Close? ==> connections == old(connections) - {message.conn} && View() == old(View())
      ensures message.RefreshDeadline? ==> connections == old(connections)
      ensures message.RefreshDeadline? ==>
                if message.conn !in connections then View() == old(View())
                else if timeout.Some? then Next(old(View()), Arm(message.conn, now + timeout.value), View())
                else Next(old(View()), Disarm(message.conn), View())
    {
      match message {
        case Close(conn) =>
          connections := connections - {conn};
        case RefreshDeadline(conn) =>
          if conn in connections {
            if timeout.Some? {
              UpdateConnectionDeadline(conn, now, timeout.value);
            } else if conn in deadlines {
              deadlines := deadlines - {conn};
              closestDeadline := MinDeadline(deadlines);
            }
          }
      }
    }

    /** Closed connections go with their timers, and the established ones among them
        are told; the earliest deadline is left as it was. */
    method RemoveClosedConnections(closed: seq<ConnId>) returns (notified: seq<ConnId>)
      requires Valid() && OnceEach(closed, AsSet(closed)) && AsSet(closed) <= connections.Keys
      modifies this`connections, this`deadlines
      ensures Valid()
      ensures connections == old(connections) - AsSet(closed)
      ensures Next(old(View()), Forget(AsSet(closed)), View())
      ensures notified == Among(closed, set c | c in old(connections) && old(connections)[c].Established?)
    {
      ghost var established := set c | c in connections && connections[c].Established?;
      notified := [];
      for i := 0 to |closed|
        invariant deadlines == old(deadlines) - AsSet(closed[..i])
        invariant connections == old(connections) - AsSet(closed[..i])
        invariant notified == Among(closed[..i], established)
      {
        var conn := closed[i];
        AmongOneMore(closed, i, established);
        assert conn in AsSet(closed) && closed[..i + 1] == closed[..i] + [conn];
        assert conn in connections;
        deadlines := deadlines - {conn};
        if connections[conn].Established? {
          notified := notified + [conn];
        }
        connections := connections - {conn};
      }
      assert closed[..|closed|] == closed;
    }

    method CollectExpired(now: Instant) returns (ids: seq<ConnId>)
      ensures OnceEach(ids, Expired(deadlines, now))
    {
      var rest := deadlines.Keys;
      ids := [];
      while rest != {}
        invariant rest <= deadlines.Keys
        invariant forall c :: c in ids <==> c in deadlines.Keys - rest && deadlines[c] <= now
        invariant forall i, j | 0 <= i < j < |ids| :: ids[i] != ids[j]
        decreases |rest|
      {
        var conn :| conn in rest;
        rest := rest - {conn};
        if deadlines[conn] <= now {
          ids := ids + [conn];
        }
      }
    }

    /** One expired connection: its timer goes, it is told if it is still there, and
        its next timer is armed. */
    method FireTimeout(conn: ConnId, now: Instant, delay: ConnId -> Option<nat>)
      requires conn in deadlines
      modifies this`deadlines, this`closestDeadline, this`timeoutCalls
      ensures deadlines == Rearmed(old(deadlines), {conn}, connections.Keys, now, delay)
      ensures timeoutCalls == old(timeoutCalls) + if conn in connections then [conn] else []
    {
      deadlines := deadlines - {conn};
      if conn in connections {
        timeoutCalls := timeoutCalls + [conn];
        if delay(conn).Some? {
          UpdateConnectionDeadline(conn, now, delay(conn).value);
        }
      }
    }

    /** Every expired connection that is still there is told exactly once, no deadline
        before `now` is left, and the earliest deadline is exact again. `delay(c)` is
        when the timer of `c` is due next: the clock has not gone back since `now`. */
    method ProcessTimeouts(now: Instant, delay: ConnId -> Option<nat>)
      requires Valid()
      modifies this`deadlines, this`closestDeadline, this`timeoutCalls
      ensures Valid() && Next(old(View()), Pass(now, connections.Keys, delay), View())
      ensures forall c | c in deadlines :: now <= deadlines[c]
      ensures old(timeoutCalls) <= timeoutCalls
      ensures OnceEach(timeoutCalls[|old(timeoutCalls)|..], Expired(old(deadlines), now) * connections.Keys)
    {
      hide Rearmed, Among, AsSet;
      ghost var table, live := deadlines, connections.Keys;
      var timedout := CollectExpired(now);
      SetOfOnceEach(timedout, Expired(table, now));
      RearmedNone(table, live, now, delay);
      assert timedout[..0] == [];
      AmongNone(live);
      for i := 0 to |timedout|
        invariant deadlines == Rearmed(table, AsSet(timedout[..i]), live, now, delay)
        invariant timeoutCalls == old(timeoutCalls) + Among(timedout[..i], live)
      {
        assert timedout[i] in timedout;
        RearmedOneMore(table, timedout, i, live, now, delay);
        AmongOneMore(timedout, i, live);
        FireTimeout(timedout[i], now, delay);
      }
      assert timedout[..|timedout|] == timedout;
      AmongOnceEach(timedout, live);
      PassLeavesNothingLate(table, live, now, delay);
      closestDeadline := MinDeadline(deadlines);
    }
  }

  lemma AmongNone(who: set<ConnId>)
    ensures Among([], who) == []
  {
  }

  lemma SetOfOnceEach(ids: seq<ConnId>, who: set<ConnId>)
    requires OnceEach(ids, who)
    ensures AsSet(ids) == who
  {
  }

  lemma NoPackets(b: Batch)
    ensures AfterPackets(b, []) == b
  {
  }
}
