/** What a batch of packets does to each connection, told by the packets for it alone. */
module PacketBatch {
  import opened Bytes
  import opened Deadlines

  datatype Stage = Unknown | Shaking | Up

  /** One connection as the multiplexer sees it: its stage, whether a packet of the batch was
      taken for it, and its timer. */
  datatype View = View(stage: Stage, touched: bool, timer: Option<Instant>)

  function StageOf(connections: map<ConnId, Connection>, c: ConnId): Stage {
    if c !in connections then Unknown else if connections[c].Handshake? then Shaking else Up
  }

  function ViewOf(b: Batch, c: ConnId): View {
    View(StageOf(b.connections, c), c in b.touched, if c in b.table then Some(b.table[c]) else None)
  }

  /** A connection gets known with the first packet that is let in, is up once its handshake
      completes with a session, and is forgotten when it completes without one. Completing
      ends the handshake's timer. */
  function NextView(v: View, verdict: Verdict): View {
    match v.stage
    case Unknown =>
      (match verdict
       case Waiting => View(Shaking, true, v.timer)
       case Completes(h3Opened) => View(if h3Opened then Up else Unknown, true, v.timer)
       case _ => v)
    case Shaking =>
      if verdict.Completes? then View(if verdict.h3Opened then Up else Unknown, true, None)
      else v.(touched := true)
    case Up => v.(touched := true)
  }

  function ViewAlong(v: View, verdicts: seq<Verdict>): View
    decreases |verdicts|
  {
    if verdicts == [] then v else ViewAlong(NextView(v, verdicts[0]), verdicts[1..])
  }

  /** The verdicts of the packets for one connection, in order. */
  function VerdictsFor(packets: seq<Packet>, c: ConnId): seq<Verdict> {
    if packets == [] then []
    else (if packets[0].Packet? && packets[0].conn == c then [packets[0].verdict] else []) + VerdictsFor(packets[1..], c)
  }

  /** The packet completes a connection that is not up yet, with a session. */
  predicate Accepts(b: Batch, packet: Packet) {
    packet.Packet? && packet.verdict == Completes(true) && StageOf(b.connections, packet.conn) != Up
  }

  lemma StepTold(b: Batch, packet: Packet, c: ConnId)
    ensures var b' := AfterPacket(b, packet);
            && ViewOf(b', c) == (if packet.Packet? && packet.conn == c then NextView(ViewOf(b, c), packet.verdict) else ViewOf(b, c))
            && b'.accepted == if Accepts(b, packet) then Some(packet.conn) else b.accepted
  {
  }

  /** What a packet finds depends on the packets before it. */
  predicate AcceptsAt(b: Batch, packets: seq<Packet>, i: nat)
    requires i < |packets|
  {
    && packets[i].Packet? && packets[i].verdict == Completes(true)
    && var c := packets[i].conn; ViewAlong(ViewOf(b, c), VerdictsFor(packets[..i], c)).stage != Up
  }

  lemma AcceptsAtNext(b: Batch, packets: seq<Packet>, i: nat)
    requires 0 < i < |packets|
    ensures AcceptsAt(b, packets, i) <==> AcceptsAt(AfterPacket(b, packets[0]), packets[1..], i - 1)
  {
    hide ViewOf, AfterPacket, NextView;
    if packets[i].Packet? {
      var c := packets[i].conn;
      StepTold(b, packets[0], c);
      assert packets[..i][0] == packets[0] && packets[..i][1..] == packets[1..][..i - 1];
      var rest := VerdictsFor(packets[1..][..i - 1], c);
      assert packets[1..][i - 1] == packets[i];
      if packets[0].Packet? && packets[0].conn == c {
        assert ([packets[0].verdict] + rest)[1..] == rest;
      } else {
        assert [] + rest == rest;
      }
    }
  }

  /** What becomes of a connection over a batch that accepts none is the run of its own
      verdicts. */
  lemma {:induction false} EachOnItsOwn(b: Batch, packets: seq<Packet>, c: ConnId)
    requires b.accepted.None? && forall i | 0 <= i < |packets| :: !AcceptsAt(b, packets, i)
    ensures var r := AfterPackets(b, packets);
            r.accepted.None? && ViewOf(r, c) == ViewAlong(ViewOf(b, c), VerdictsFor(packets, c))
    decreases |packets|
  {
    hide ViewOf, AfterPacket, NextView, AcceptsAt;
    if packets != [] {
      var b' := AfterPacket(b, packets[0]);
      StepTold(b, packets[0], c);
      AcceptsFirst(b, packets);
      forall i | 0 <= i < |packets| - 1 ensures !AcceptsAt(b', packets[1..], i) {
        AcceptsAtNext(b, packets, i + 1);
      }
      EachOnItsOwn(b', packets[1..], c);
      var rest := VerdictsFor(packets[1..], c);
      if packets[0].Packet? && packets[0].conn == c {
        assert ([packets[0].verdict] + rest)[1..] == rest;
      } else {
        assert [] + rest == rest;
      }
    }
  }

  lemma AcceptsFirst(b: Batch, packets: seq<Packet>)
    requires packets != []
    ensures AcceptsAt(b, packets, 0) <==> Accepts(b, packets[0])
  {
    assert packets[..0] == [];
  }

  /** The connection that ends a batch is that of the first accepting packet, and the packets
      behind it are not taken. */
  lemma {:induction false} FirstAcceptsEnds(b: Batch, packets: seq<Packet>, n: nat, c: ConnId)
    requires b.accepted.None? && n < |packets| && AcceptsAt(b, packets, n)
    requires forall i | 0 <= i < n :: !AcceptsAt(b, packets, i)
    ensures var r := AfterPackets(b, packets);
            && r.accepted == Some(packets[n].conn)
            && ViewOf(r, c) == ViewAlong(ViewOf(b, c), VerdictsFor(packets[..n + 1], c))
    decreases n
  {
    hide ViewOf, AfterPacket, NextView, AcceptsAt;
    var b' := AfterPacket(b, packets[0]);
    StepTold(b, packets[0], c);
    AcceptsFirst(b, packets);
    var rest := VerdictsFor(packets[1..][..n], c);
    assert packets[..n + 1][0] == packets[0] && packets[..n + 1][1..] == packets[1..][..n];
    if packets[0].Packet? && packets[0].conn == c {
      assert ([packets[0].verdict] + rest)[1..] == rest;
    } else {
      assert [] + rest == rest;
    }
    if n == 0 {
      assert packets[1..][..0] == [];
      Stopped(b', packets[1..]);
    } else {
      forall i | 0 <= i < n ensures AcceptsAt(b', packets[1..], i) <==> AcceptsAt(b, packets, i + 1) {
        AcceptsAtNext(b, packets, i + 1);
      }
      FirstAcceptsEnds(b', packets[1..], n - 1, c);
    }
  }

  lemma Stopped(b: Batch, packets: seq<Packet>)
    requires b.accepted.Some?
    ensures AfterPackets(b, packets) == b
  {
  }

  /** Every batch is one of the two. */
  lemma {:induction false} FirstAccepting(b: Batch, packets: seq<Packet>, m: nat) returns (n: Option<nat>)
    requires m <= |packets|
    ensures n.None? ==> forall i | 0 <= i < m :: !AcceptsAt(b, packets, i)
    ensures n.Some? ==> n.value < m && AcceptsAt(b, packets, n.value) && forall i | 0 <= i < n.value :: !AcceptsAt(b, packets, i)
    decreases m
  {
    hide AcceptsAt;
    if m == 0 {
      n := None;
    } else {
      n := FirstAccepting(b, packets, m - 1);
      if n.None? && AcceptsAt(b, packets, m - 1) {
        n := Some(m - 1);
      }
    }
  }

  // ------------------------------------------------------------------ timers and connections

  /** A packet was taken for the connection or it has a timer, only when it is known. */
  predicate KnownIfTimed(v: View) {
    v.touched || v.timer.Some? ==> v.stage != Unknown
  }

  lemma {:induction false} KnownAlong(v: View, verdicts: seq<Verdict>)
    requires Completes(false) !in verdicts && KnownIfTimed(v)
    ensures KnownIfTimed(ViewAlong(v, verdicts))
    decreases |verdicts|
  {
    if verdicts != [] {
      KnownAlong(NextView(v, verdicts[0]), verdicts[1..]);
    }
  }

  lemma {:induction false} VerdictsOfPackets(packets: seq<Packet>, c: ConnId)
    requires Packet(c, Completes(false)) !in packets
    ensures Completes(false) !in VerdictsFor(packets, c)
    decreases |packets|
  {
    if packets != [] {
      VerdictsOfPackets(packets[1..], c);
    }
  }

  /** Behind a batch every connection that a packet was taken for is known, unless one of
      its packets completed the handshake without a session. So the timers, with those armed
      after the batch, belong to known connections. */
  lemma TimersAreOfKnown(b: Batch, packets: seq<Packet>, c: ConnId, now: Instant, delay: ConnId -> Option<nat>)
    requires b.accepted.None? && b.touched == {} && (c in b.table ==> c in b.connections)
    requires Packet(c, Completes(false)) !in packets
    ensures var r := AfterPackets(b, packets);
            && (c in r.touched ==> c in r.connections)
            && (c in Armed(r.table, r.touched, now, delay) ==> c in r.connections)
  {
    hide AfterPackets, AcceptsAt, ViewAlong, VerdictsFor;
    var n := FirstAccepting(b, packets, |packets|);
    var taken := if n.Some? then packets[..n.value + 1] else packets;
    if n.Some? {
      FirstAcceptsEnds(b, packets, n.value, c);
    } else {
      EachOnItsOwn(b, packets, c);
    }
    assert Packet(c, Completes(false)) !in taken;
    VerdictsOfPackets(taken, c);
    KnownAlong(ViewOf(b, c), VerdictsFor(taken, c));
  }

  /** The first packet of an ordinary handshake makes its connection known. */
  lemma FirstPacketKnown(b: Batch, c: ConnId)
    requires b.accepted.None? && c !in b.connections
    ensures var r := AfterPackets(b, [Packet(c, Waiting)]);
            c in r.connections && r.connections[c] == Handshake && c in r.touched && r.accepted.None?
  {
    assert [Packet(c, Waiting)][1..] == [];
  }
}
