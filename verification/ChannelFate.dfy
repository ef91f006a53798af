/** What becomes of one sink, one stream and one message over a whole run: laws over the
    steps alone, each about its own part of the state. */
module ChannelFate {
  import opened Bytes
  import opened Wakeup

  // ------------------------------------------------------------------ when a channel closes

  /** What has happened to a sink's stream since the sink was made: its read side shut, its
      write side shut, or the stream over because its id was opened again or the codec was
      dropped. */
  datatype Fate = Fate(id: StreamId, read: bool, write: bool, over: bool)

  /** The sides of a stream whose shutdown a step processes. */
  predicate ShutsRead(s: State, step: Step, id: StreamId) {
    || step == PeerClosed(id)
    || (step.Receive? && s.queue != [] && (s.queue[0] == Shutdown(id, Direction.Read) || s.queue[0] == Shutdown(id, Both)))
  }

  predicate ShutsWrite(s: State, step: Step, id: StreamId) {
    step.Receive? && s.queue != [] && (s.queue[0] == Shutdown(id, Direction.Write) || s.queue[0] == Shutdown(id, Both))
  }

  function NextFate(fate: Option<Fate>, s: State, step: Step, k: SinkId): Option<Fate> {
    if step.Open? && step.sink == k then Some(Fate(step.id, false, false, false))
    else if fate.None? then None
    else
      var f := fate.value;
      Some(Fate(f.id,
                f.read || ShutsRead(s, step, f.id),
                f.write || ShutsWrite(s, step, f.id),
                f.over || (step.Open? && step.id == f.id) || step.DropCodec?))
  }

  ghost function FateAlong(fate: Option<Fate>, s: State, steps: seq<Step>, k: SinkId): Option<Fate>
    requires Run(s, steps)
    decreases |steps|
  {
    if steps == [] then fate
    else FateAlong(NextFate(fate, s, steps[0], k), Apply(s, steps[0]), steps[1..], k)
  }

  predicate IsClosed(f: Fate) {
    f.over || (f.read && f.write)
  }

  predicate HasStream(s: State, k: SinkId) {
    exists id | id in s.streams :: s.streams[id].sink == k
  }

  /** The codec's end of the stream is what the fate says. */
  predicate Agrees(s: State, k: SinkId, fate: Option<Fate>) {
    match fate
    case None => k !in s.sinks && !HasStream(s, k)
    case Some(f) =>
      && (k in s.sinks ==> s.sinks[k].stream == f.id)
      && if IsClosed(f) then !HasStream(s, k)
         else f.id in s.streams && s.streams[f.id] == Stream(k, f.read, f.write)
              && forall id | id in s.streams && s.streams[id].sink == k :: id == f.id
  }

  lemma ShutdownAgrees(s: State, id: StreamId, direction: Direction, k: SinkId, fate: Option<Fate>)
    requires Agrees(s, k, fate)
    ensures var fate' := if fate.Some? && fate.value.id == id
                         then Some(fate.value.(read := fate.value.read || !direction.Write?,
                                               write := fate.value.write || !direction.Read?))
                         else fate;
            Agrees(OnShutdown(s, id, direction), k, fate')
  {
    var s' := OnShutdown(s, id, direction);
    assert forall i | i in s'.streams :: i in s.streams && s'.streams[i].sink == s.streams[i].sink;
    if HasStream(s', k) {
      assert HasStream(s, k);
    }
  }

  lemma OpenAgrees(s: State, id: StreamId, k': SinkId, k: SinkId, fate: Option<Fate>)
    requires Agrees(s, k, fate) && Enabled(s, Open(id, k'))
    ensures Agrees(Apply(s, Open(id, k')), k, NextFate(fate, s, Open(id, k'), k))
  {
    var s' := Apply(s, Open(id, k'));
    if k' != k && HasStream(s', k) {
      var i :| i in s'.streams && s'.streams[i].sink == k;
      assert i in s.streams && s.streams[i].sink == k && i != id;
    }
  }

  lemma StepAgrees(s: State, step: Step, k: SinkId, fate: Option<Fate>)
    requires Agrees(s, k, fate) && Enabled(s, step)
    ensures Agrees(Apply(s, step), k, NextFate(fate, s, step, k))
  {
    match step {
      case Open(id, k') => OpenAgrees(s, id, k', k, fate);
      case PeerClosed(id) => ShutdownAgrees(s, id, Direction.Read, k, fate);
      case Receive =>
        if s.queue[0].Shutdown? {
          ShutdownAgrees(s.(queue := s.queue[1..]), s.queue[0].id, s.queue[0].direction, k, fate);
        }
      case _ =>
    }
  }

  lemma {:induction false} RunAgrees(s: State, steps: seq<Step>, k: SinkId, fate: Option<Fate>)
    requires Agrees(s, k, fate) && Run(s, steps)
    ensures Agrees(End(s, steps), k, FateAlong(fate, s, steps, k))
    decreases |steps|
  {
    hide Agrees, NextFate;
    if steps != [] {
      StepAgrees(s, steps[0], k, fate);
      RunAgrees(Apply(s, steps[0]), steps[1..], k, NextFate(fate, s, steps[0], k));
    }
  }

  /** Over every run from the start, a sink's channel is closed if and only if, since the
      sink was made, shutdowns of both sides of its stream were processed, or the stream's id
      was opened again, or the codec was dropped. */
  lemma ChannelClosedIff(steps: seq<Step>, k: SinkId)
    requires Run(INIT, steps) && k in End(INIT, steps).sinks
    ensures var fate := FateAlong(None, INIT, steps, k);
            fate.Some? && (SenderDropped(End(INIT, steps), k) <==> IsClosed(fate.value))
  {
    hide Run, End, FateAlong;
    RunAgrees(INIT, steps, k, None);
    var s := End(INIT, steps);
    if !SenderDropped(s, k) {
      assert s.streams[s.sinks[k].stream].sink == k;
    }
  }

  /** The end of the client's request body alone leaves the way open for the response. */
  lemma BodyEndKeepsChannel(steps: seq<Step>, k: SinkId)
    requires Run(INIT, steps) && k in End(INIT, steps).sinks && !SenderDropped(End(INIT, steps), k)
    requires var f := FateAlong(None, INIT, steps, k); f.Some? && !f.value.write
    requires Enabled(End(INIT, steps), PeerClosed(End(INIT, steps).sinks[k].stream))
    ensures var s := End(INIT, steps);
            var s' := Apply(s, PeerClosed(s.sinks[k].stream));
            k in s'.sinks && !SenderDropped(s', k)
  {
    hide Run, End, FateAlong;
    RunAgrees(INIT, steps, k, None);
    ChannelClosedIff(steps, k);
    var s := End(INIT, steps);
    StepAgrees(s, PeerClosed(s.sinks[k].stream), k, FateAlong(None, INIT, steps, k));
  }

  // ------------------------------------------------------------------ what a sink sees

  datatype SinkView = SinkView(blocked: bool, token: bool)

  /** A writable event reaches the sink. */
  predicate Delivers(s: State, step: Step, k: SinkId) {
    && step.Notify? && s.inFlight != [] && s.inFlight[0] in s.streams && s.streams[s.inFlight[0]].sink == k
    && step.capacity.Some? && step.capacity.value >= MIN_USABLE_CAPACITY
  }

  function NextView(v: SinkView, s: State, step: Step, k: SinkId): SinkView {
    if step == Ask(k) then v.(blocked := true)
    else if step == Resume(k) then SinkView(false, false)
    else if step == Closed(k) || step == Cancel(k) then v.(blocked := false)
    else if step.Open? && step.sink == k then SinkView(false, false)
    else if Delivers(s, step, k) then v.(token := true)
    else v
  }

  ghost function ViewAlong(v: SinkView, s: State, steps: seq<Step>, k: SinkId): SinkView
    requires Run(s, steps)
    decreases |steps|
  {
    if steps == [] then v else ViewAlong(NextView(v, s, steps[0], k), Apply(s, steps[0]), steps[1..], k)
  }

  predicate Sees(s: State, k: SinkId, v: SinkView) {
    k in s.sinks ==> s.sinks[k].blocked == v.blocked && s.sinks[k].token == v.token
  }

  lemma {:induction false} RunSees(s: State, steps: seq<Step>, k: SinkId, v: SinkView)
    requires Sees(s, k, v) && Run(s, steps)
    ensures Sees(End(s, steps), k, ViewAlong(v, s, steps, k))
    decreases |steps|
  {
    hide Sees, NextView;
    if steps != [] {
      StepSees(s, steps[0], k, v);
      RunSees(Apply(s, steps[0]), steps[1..], k, NextView(v, s, steps[0], k));
    }
  }

  lemma StepSees(s: State, step: Step, k: SinkId, v: SinkView)
    requires Sees(s, k, v) && Enabled(s, step)
    ensures Sees(Apply(s, step), k, NextView(v, s, step, k))
  {
  }

  /** Over every run, a sink is blocked exactly since it asked and has not gone on, and has a
      token exactly since a writable event reached it and it has not taken it. */
  lemma SinkSees(steps: seq<Step>, k: SinkId)
    requires Run(INIT, steps) && k in End(INIT, steps).sinks
    ensures var v := ViewAlong(SinkView(false, false), INIT, steps, k);
            End(INIT, steps).sinks[k].blocked == v.blocked && End(INIT, steps).sinks[k].token == v.token
  {
    RunSees(INIT, steps, k, SinkView(false, false));
  }

  // ------------------------------------------------------------------ what the socket watches

  function NextWatched(w: bool, s: State, step: Step, id: StreamId): bool {
    match step
    case Receive => w || (s.queue != [] && s.queue[0] == WaitingWritable(id))
    case Collect(ready) => w && id !in ready
    case ListenFails(taken) => w && id !in taken
    case Notify(capacity) =>
      w || (s.inFlight != [] && s.inFlight[0] == id && id in s.streams
            && capacity.Some? && capacity.value < MIN_USABLE_CAPACITY)
    case _ => w
  }

  ghost function WatchedAlong(w: bool, s: State, steps: seq<Step>, id: StreamId): bool
    requires Run(s, steps)
    decreases |steps|
  {
    if steps == [] then w else WatchedAlong(NextWatched(w, s, steps[0], id), Apply(s, steps[0]), steps[1..], id)
  }

  /** Over every run, a stream is watched exactly since a request for it was received, or its
      delivery found too little capacity, and it was not reported. */
  lemma {:induction false} WatchedIff(s: State, steps: seq<Step>, id: StreamId)
    requires Run(s, steps)
    ensures id in End(s, steps).waiting <==> WatchedAlong(id in s.waiting, s, steps, id)
    decreases |steps|
  {
    hide NextWatched;
    if steps != [] {
      StepWatched(s, steps[0], id);
      WatchedIff(Apply(s, steps[0]), steps[1..], id);
    }
  }

  lemma StepWatched(s: State, step: Step, id: StreamId)
    requires Enabled(s, step)
    ensures id in Apply(s, step).waiting <==> NextWatched(id in s.waiting, s, step, id)
  {
  }

  // ------------------------------------------------------------------ the queue

  /** The message that a step sends. */
  function Sent(s: State, step: Step): seq<Message> {
    match step
    case Ask(k) => if k in s.sinks then [WaitingWritable(s.sinks[k].stream)] else []
    case DropSink(k) => if k in s.sinks && s.alive then [Shutdown(s.sinks[k].stream, Direction.Write)] else []
    case SendShutdown(id, direction) => [Shutdown(id, direction)]
    case _ => []
  }

  ghost function SentAlong(s: State, steps: seq<Step>): seq<Message>
    requires Run(s, steps)
    decreases |steps|
  {
    if steps == [] then [] else Sent(s, steps[0]) + SentAlong(Apply(s, steps[0]), steps[1..])
  }

  function Receives(steps: seq<Step>): nat {
    if steps == [] then 0 else (if steps[0].Receive? then 1 else 0) + Receives(steps[1..])
  }

  lemma QueueStep(s: State, step: Step)
    requires Enabled(s, step) && step != DropCodec
    ensures step.Receive? ==> s.queue != [] && Apply(s, step).queue == s.queue[1..] && Sent(s, step) == []
    ensures !step.Receive? ==> Apply(s, step).queue == s.queue + Sent(s, step)
  {
  }

  /** While the codec lives its messages are worked off in the order they were sent. */
  lemma {:induction false} QueueIsFifo(s: State, steps: seq<Step>)
    requires Run(s, steps) && DropCodec !in steps
    ensures var all := s.queue + SentAlong(s, steps);
            Receives(steps) <= |all| && End(s, steps).queue == all[Receives(steps)..]
    decreases |steps|
  {
    hide Apply, Enabled, Sent;
    if steps == [] {
      assert s.queue + [] == s.queue;
    } else {
      var s' := Apply(s, steps[0]);
      QueueStep(s, steps[0]);
      QueueIsFifo(s', steps[1..]);
      QueueShift(s.queue, s'.queue, Sent(s, steps[0]), SentAlong(s', steps[1..]), steps[0].Receive?, Receives(steps[1..]));
    }
  }

  lemma QueueShift(q: seq<Message>, q': seq<Message>, sent: seq<Message>, rest: seq<Message>, received: bool, n: nat)
    requires received ==> q != [] && q' == q[1..] && sent == []
    requires !received ==> q' == q + sent
    requires n <= |q' + rest|
    ensures var m := (if received then 1 else 0) + n;
            m <= |q + (sent + rest)| && (q + (sent + rest))[m..] == (q' + rest)[n..]
  {
    if received {
      assert q + (sent + rest) == [q[0]] + (q' + rest);
    } else {
      assert q + (sent + rest) == q' + rest;
    }
  }
}
