/** SOCKS5 UDP associations, an index of peers by source, against a plain set of pairs. */
module Associations {

  type Addr = nat

  /** The peers of each source that has an association. */
  type Index = map<Addr, set<Addr>>

  /** What the SOCKS server and the waker of the reading side answer. */
  datatype Reply =
    | Unavailable
    | AuthenticationFailed
    | Associated(wakerAlive: bool)

  datatype Step =
    /** `permitted`: the destination is global, or private networks are allowed. */
    | Open(source: Addr, destination: Addr, permitted: bool, reply: Reply)
    /** Named as it arrives: from the target back to the client. */
    | Close(target: Addr, client: Addr)
    | SocketError(source: Addr)

  // ------------------------------------------------------------------ the index

  /** The association is made, or made and undone when the waker is gone. */
  function Finish(index: Index, source: Addr, destination: Addr, reply: Reply): Index {
    match reply
    case Unavailable => index
    case AuthenticationFailed => map[]
    case Associated(alive) => if alive then index[source := {destination}] else index - {source}
  }

  function Apply(index: Index, step: Step): Index {
    match step
    case Open(source, destination, permitted, reply) =>
      if !permitted then index
      else if source in index then index[source := index[source] + {destination}]
      else Finish(index, source, destination, reply)
    case Close(target, client) =>
      if client !in index then index
      else
        var left := index[client] - {target};
        if left == {} then index - {client} else index[client := left]
    case SocketError(source) => index - {source}
  }

  // ------------------------------------------------------------------ the reference

  type Pairs = set<(Addr, Addr)>

  predicate HasPair(open: Pairs, source: Addr) {
    exists p | p in open :: p.0 == source
  }

  /** The same calls on the set of open (source, destination) pairs. */
  function RefApply(open: Pairs, step: Step): Pairs {
    match step
    case Open(source, destination, permitted, reply) =>
      if !permitted then open
      else if HasPair(open, source) || reply == Associated(true) then open + {(source, destination)}
      else if reply.AuthenticationFailed? then {}
      else open
    case Close(target, client) => open - {(client, target)}
    case SocketError(source) => set p | p in open && p.0 != source
  }

  predicate Succeeds(open: Pairs, source: Addr, permitted: bool, reply: Reply) {
    permitted && (HasPair(open, source) || reply == Associated(true))
  }

  /** An open succeeds exactly when it is permitted and its pair is open afterwards. */
  lemma SucceedsIffOpen(open: Pairs, source: Addr, destination: Addr, permitted: bool, reply: Reply)
    ensures Succeeds(open, source, permitted, reply)
       <==> permitted && (source, destination) in RefApply(open, Open(source, destination, permitted, reply))
  {
  }

  // ------------------------------------------------------------------ refinement

  ghost predicate Refines(index: Index, open: Pairs) {
    && (forall source | source in index :: index[source] != {})
    && (forall s, d :: (s, d) in open <==> s in index && d in index[s])
  }

  /** A source has an association exactly when it has an open pair. */
  lemma AssociatedIffOpen(index: Index, open: Pairs, source: Addr)
    requires Refines(index, open)
    ensures source in index <==> HasPair(open, source)
  {
  }

  lemma StepRefines(index: Index, open: Pairs, step: Step)
    requires Refines(index, open)
    ensures Refines(Apply(index, step), RefApply(open, step))
  {
    match step {
      case Open(source, destination, permitted, reply) => AssociatedIffOpen(index, open, source);
      case Close(target, client) =>
        if client in index {
          var left := index[client] - {target};
          forall d ensures d in left <==> (client, d) in RefApply(open, step) {}
        }
      case SocketError(source) =>
    }
  }

  function Run(index: Index, steps: seq<Step>): Index
    decreases |steps|
  {
    if steps == [] then index else Run(Apply(index, steps[0]), steps[1..])
  }

  function RefRun(open: Pairs, steps: seq<Step>): Pairs
    decreases |steps|
  {
    if steps == [] then open else RefRun(RefApply(open, steps[0]), steps[1..])
  }

  /** Over every sequence of calls the index is the set of open pairs, without an empty
      association. */
  lemma {:induction false} AlwaysRefines(index: Index, open: Pairs, steps: seq<Step>)
    requires Refines(index, open)
    ensures Refines(Run(index, steps), RefRun(open, steps))
    decreases |steps|
  {
    hide Refines, Apply, RefApply;
    if steps != [] {
      StepRefines(index, open, steps[0]);
      AlwaysRefines(Apply(index, steps[0]), RefApply(open, steps[0]), steps[1..]);
    }
  }

  // ------------------------------------------------------------------ overlapping opens

  /** What the set of pairs should be once an open that was already under way is answered. */
  function RefFinish(open: Pairs, source: Addr, destination: Addr, reply: Reply): Pairs {
    match reply
    case Unavailable => open
    case AuthenticationFailed => {}
    case Associated(alive) => if alive then open + {(source, destination)} else open
  }

  /** An answered open that other calls came in between of keeps the index right exactly
      when no other peer of its source is associated by then. */
  lemma FinishRefinesIff(index: Index, open: Pairs, source: Addr, destination: Addr, reply: Reply)
    requires Refines(index, open)
    ensures Refines(Finish(index, source, destination, reply), RefFinish(open, source, destination, reply))
       <==> !reply.Associated? || source !in index || (reply.wakerAlive && index[source] == {destination})
  {
  }

  /** Two overlapping opens of one source: the second answer forgets the first peer. */
  lemma OverlapForgetsPeer()
    ensures var index: Index := Finish(Finish(map[], 1, 2, Associated(true)), 1, 3, Associated(true));
            var open := RefFinish(RefFinish({}, 1, 2, Associated(true)), 1, 3, Associated(true));
            index[1] == {3} && (1, 2) in open && !Refines(index, open)
  {
  }

  // ------------------------------------------------------------------ the objects

  /** A list that names every peer of a set, each once, with the source they share. */
  predicate ClosesEach(closures: seq<(Addr, Addr)>, peers: set<Addr>, source: Addr) {
    multiset(closures) == multiset(set peer | peer in peers :: (peer, source))
  }

  lemma ClosesOneMore(closures: seq<(Addr, Addr)>, peers: set<Addr>, source: Addr, peer: Addr)
    requires ClosesEach(closures, peers, source) && peer !in peers
    ensures ClosesEach(closures + [(peer, source)], peers + {peer}, source)
  {
    var before, more := set p | p in peers :: (p, source), set p | p in peers + {peer} :: (p, source);
    assert more == before + {(peer, source)} && (peer, source) !in before;
  }

  /** One close per peer, in whatever order the peers come. */
  method ClosuresOf(peers: set<Addr>, source: Addr) returns (closures: seq<(Addr, Addr)>)
    ensures ClosesEach(closures, peers, source)
  {
    hide ClosesEach;
    var left := peers;
    ghost var done := {};
    closures := [];
    assert ClosesEach(closures, {}, source) by { ClosesNone(source); }
    while left != {}
      invariant done !! left && done + left == peers
      invariant ClosesEach(closures, done, source)
      decreases left
    {
      var peer :| peer in left;
      ClosesOneMore(closures, done, source, peer);
      closures := closures + [(peer, source)];
      left, done := left - {peer}, done + {peer};
    }
    assert done == peers;
  }

  lemma ClosesNone(source: Addr)
    ensures ClosesEach([], {}, source)
  {
  }

  class DatagramTransceiverShared {
    var associations: Index

    constructor ()
      ensures associations == map[]
    {
      associations := map[];
    }

    /** One open from its check to its answer, with no other call in between. */
    method OnNewUdpConnection(source: Addr, destination: Addr, permitted: bool, reply: Reply, ghost open: Pairs)
      returns (ok: bool)
      requires Refines(associations, open)
      modifies this
      ensures associations == Apply(old(associations), Open(source, destination, permitted, reply))
      ensures ok == Succeeds(open, source, permitted, reply)
      ensures ok ==> source in associations && destination in associations[source]
    {
      AssociatedIffOpen(associations, open, source);
      if !permitted { return false; }
      if source in associations {
        associations := associations[source := associations[source] + {destination}];
        return true;
      }
      match reply {
        case Unavailable => return false;
        case AuthenticationFailed =>
          associations := map[];
          return false;
        case Associated(wakerAlive) =>
          associations := associations[source := {destination}];
          if !wakerAlive {
            associations := associations - {source};
            assert associations == old(associations) - {source};
            return false;
          }
          return true;
      }
    }

    /** The close is told with the target as its source and the client as its destination. */
    method OnConnectionClosed(target: Addr, client: Addr)
      modifies this
      ensures associations == Apply(old(associations), Close(target, client))
    {
      if client in associations {
        var peers := associations[client];
        associations := associations - {client};
        peers := peers - {target};
        if peers != {} {
          associations := associations[client := peers];
          assert associations == old(associations)[client := peers];
        }
      }
    }
  }

  class DatagramSource {
    const shared: DatagramTransceiverShared
    var pendingClosures: seq<(Addr, Addr)>

    constructor (shared: DatagramTransceiverShared)
      ensures this.shared == shared && pendingClosures == []
    {
      this.shared := shared;
      pendingClosures := [];
    }

    /** The source loses its association, and one close per peer of it is queued. */
    method OnSocketError(source: Addr)
      modifies this, shared
      ensures shared.associations == Apply(old(shared.associations), SocketError(source))
      ensures old(pendingClosures) <= pendingClosures
      ensures var peers := if source in old(shared.associations) then old(shared.associations)[source] else {};
              ClosesEach(pendingClosures[|old(pendingClosures)|..], peers, source)
    {
      var peers := {};
      if source in shared.associations {
        peers := shared.associations[source];
        shared.associations := shared.associations - {source};
      }
      assert shared.associations == old(shared.associations) - {source};
      var queued := ClosuresOf(peers, source);
      pendingClosures := pendingClosures + queued;
      assert pendingClosures[|old(pendingClosures)|..] == queued;
    }
  }
}
