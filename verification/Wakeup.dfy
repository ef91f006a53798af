/** The wake-up protocol between the stream sinks, the HTTP/3 codec and the QUIC
    socket: a sink that finds no capacity asks the codec, the codec hands the
    stream to the socket, the socket reports it writable, and the codec drops a
    token into the sink's one-slot channel. Sinks run beside the codec, so every
    send, receive and lock is a step of its own. */
module Wakeup {
  import opened Bytes

  type StreamId = nat

  // Each accepted request makes a new sink, also when a stream id comes back
  type SinkId = nat

  // One byte of frame type, one of frame length and one of data
  const MIN_USABLE_CAPACITY := 3

  datatype Direction = Read | Write | Both

  datatype Message = WaitingWritable(id: StreamId) | Shutdown(id: StreamId, direction: Direction)

  /** The codec's end of a stream: the sink that its channel's sender leads to. */
  datatype Stream = Stream(sink: SinkId, readShutdown: bool, writeShutdown: bool)

  /** A sink is blocked from the moment its request is sent until its receive
      returns. `token` is the channel's one slot. */
  datatype Sink = Sink(stream: StreamId, blocked: bool, token: bool)

  /** `queue` holds the messages to the codec, `waiting` the streams that the
      socket watches, `inFlight` what is left of a writable event that the codec
      is delivering. A codec whose listening has `failed` only waits to be dropped. */
  datatype State = State(alive: bool, failed: bool, streams: map<StreamId, Stream>, queue: seq<Message>,
                         waiting: set<StreamId>, inFlight: seq<StreamId>, sinks: map<SinkId, Sink>)

  const INIT := State(true, false, map[], [], {}, [], map[])

  datatype Step =
    | Open(id: StreamId, sink: SinkId)
    | Ask(sink: SinkId)
    | Resume(sink: SinkId)
    | Closed(sink: SinkId)
    | Cancel(sink: SinkId)
    | DropSink(sink: SinkId)
    | SendShutdown(id: StreamId, direction: Direction)
    | Receive
    | Collect(ready: seq<StreamId>)
    /** The connection is found closed after the streams were taken out. */
    | ListenFails(taken: set<StreamId>)
    | Notify(capacity: Option<nat>)
    | PeerClosed(id: StreamId)
    | DropCodec

  // ------------------------------------------------------------ what a step does

  predicate SenderDropped(s: State, k: SinkId)
    requires k in s.sinks
  {
    s.sinks[k].stream !in s.streams || s.streams[s.sinks[k].stream].sink != k
  }

  /** Whether a step can be taken. Only the codec takes the steps of its own loop,
      and it does so between two deliveries. */
  predicate Enabled(s: State, step: Step) {
    match step
    case Open(_, k) => s.alive && !s.failed && s.inFlight == [] && k !in s.sinks
                       && forall id | id in s.streams :: s.streams[id].sink != k
    case Ask(k) => s.alive && k in s.sinks && !s.sinks[k].blocked
    case Resume(k) => k in s.sinks && s.sinks[k].blocked && s.sinks[k].token
    case Closed(k) => k in s.sinks && s.sinks[k].blocked && !s.sinks[k].token && SenderDropped(s, k)
    case Cancel(k) => k in s.sinks && s.sinks[k].blocked
    case DropSink(k) => k in s.sinks
    case SendShutdown(_, _) => s.alive
    case Receive => s.alive && !s.failed && s.inFlight == [] && s.queue != [] && s.streams != map[]
    case Collect(ready) => s.alive && !s.failed && s.inFlight == [] && forall id | id in ready :: id in s.waiting
    case ListenFails(taken) => s.alive && !s.failed && s.inFlight == [] && taken <= s.waiting
    case Notify(_) => s.alive && !s.failed && s.inFlight != []
    case PeerClosed(_) => s.alive && !s.failed && s.inFlight == []
    case DropCodec => s.alive
  }

  function OnShutdown(s: State, id: StreamId, direction: Direction): State {
    if id !in s.streams then s
    else
      var st := s.streams[id];
      var st' := st.(readShutdown := st.readShutdown || !direction.Write?,
                     writeShutdown := st.writeShutdown || !direction.Read?);
      s.(streams := if st'.readShutdown && st'.writeShutdown then s.streams - {id} else s.streams[id := st'])
  }

  function OnMessage(s: State, m: Message): State {
    match m
    case WaitingWritable(id) => s.(waiting := s.waiting + {id})
    case Shutdown(id, direction) => OnShutdown(s, id, direction)
  }

  /** The delivery of a writable event to one stream, given the answer to the
      codec's own capacity query (`None`: the query fails). */
  function NotifyStream(s: State, id: StreamId, capacity: Option<nat>): State {
    if id !in s.streams || capacity.None? then s
    else if capacity.value < MIN_USABLE_CAPACITY then s.(waiting := s.waiting + {id})
    else
      var k := s.streams[id].sink;
      if k in s.sinks then s.(sinks := s.sinks[k := s.sinks[k].(token := true)]) else s
  }

  function Apply(s: State, step: Step): State
    requires Enabled(s, step)
  {
    match step
    case Open(id, k) =>
      s.(streams := s.streams[id := Stream(k, false, false)], sinks := s.sinks[k := Sink(id, false, false)])
    case Ask(k) =>
      s.(queue := s.queue + [WaitingWritable(s.sinks[k].stream)],
         sinks := s.sinks[k := s.sinks[k].(blocked := true)])
    case Resume(k) => s.(sinks := s.sinks[k := s.sinks[k].(blocked := false, token := false)])
    case Closed(k) => s.(sinks := s.sinks[k := s.sinks[k].(blocked := false)])
    case Cancel(k) => s.(sinks := s.sinks[k := s.sinks[k].(blocked := false)])
    case DropSink(k) =>
      s.(queue := if s.alive then s.queue + [Shutdown(s.sinks[k].stream, Write)] else s.queue,
         sinks := s.sinks - {k})
    case SendShutdown(id, direction) => s.(queue := s.queue + [Shutdown(id, direction)])
    case Receive => OnMessage(s.(queue := s.queue[1..]), s.queue[0])
    case Collect(ready) => s.(waiting := s.waiting - (set id | id in ready), inFlight := ready)
    case ListenFails(taken) => s.(waiting := s.waiting - taken, failed := true)
    case Notify(capacity) => NotifyStream(s.(inFlight := s.inFlight[1..]), s.inFlight[0], capacity)
    case PeerClosed(id) => OnShutdown(s, id, Read)
    case DropCodec => s.(alive := false, failed := false, streams := map[], queue := [], inFlight := [])
  }

  // --------------------------------------------------------------- no lost wakeup

  /** Something is still bound to wake the sink. */
  predicate Covered(s: State, k: SinkId)
    requires k in s.sinks
  {
    var id := s.sinks[k].stream;
    || WaitingWritable(id) in s.queue
    || id in s.waiting
    || id in s.inFlight
    || s.sinks[k].token
    || SenderDropped(s, k)
    || s.failed
  }

  /** Dropping the codec closes every sink's channel. */
  lemma DropWakesAll(s: State, k: SinkId)
    requires s.alive && k in s.sinks
    ensures SenderDropped(Apply(s, DropCodec), k)
  {
  }

  ghost predicate NoneLost(s: State) {
    forall k | k in s.sinks && s.sinks[k].blocked :: Covered(s, k)
  }

  /** The one step that loses a wakeup: the capacity query fails for a stream whose
      blocked sink has nothing else to wake it. */
  predicate Loses(s: State, step: Step)
    requires Enabled(s, step)
  {
    && step.Notify?
    && step.capacity.None?
    && var id := s.inFlight[0];
       && id in s.streams
       && var k := s.streams[id].sink;
          && k in s.sinks && s.sinks[k] == Sink(id, true, false)
          && WaitingWritable(id) !in s.queue && id !in s.waiting && id !in s.inFlight[1..]
  }

  lemma ShutdownKeepsCover(s: State, id: StreamId, direction: Direction, k: SinkId)
    requires k in s.sinks && Covered(s, k)
    ensures Covered(OnShutdown(s, id, direction), k)
  {
  }

  lemma ReceiveKeepsCover(s: State, k: SinkId)
    requires Enabled(s, Receive) && k in s.sinks && Covered(s, k)
    ensures k in Apply(s, Receive).sinks && Covered(Apply(s, Receive), k)
  {
  }

  /** A delivery uncovers a blocked sink exactly when it loses its wakeup. */
  lemma NotifyKeepsCoverIff(s: State, capacity: Option<nat>, k: SinkId)
    requires Enabled(s, Notify(capacity)) && k in s.sinks && s.sinks[k].blocked && Covered(s, k)
    ensures k in Apply(s, Notify(capacity)).sinks
    ensures !Covered(Apply(s, Notify(capacity)), k) <==>
            Loses(s, Notify(capacity)) && s.streams[s.inFlight[0]].sink == k
  {
  }

  lemma StepKeepsNoneLost(s: State, step: Step)
    requires NoneLost(s) && Enabled(s, step)
    ensures NoneLost(Apply(s, step)) <==> !Loses(s, step)
  {
    var s' := Apply(s, step);
    if step.Notify? {
      forall k | k in s.sinks && s.sinks[k].blocked
        ensures k in s'.sinks
        ensures !Covered(s', k) <==> Loses(s, step) && s.streams[s.inFlight[0]].sink == k
      {
        NotifyKeepsCoverIff(s, step.capacity, k);
      }
      if Loses(s, step) {
        assert !Covered(s', s.streams[s.inFlight[0]].sink);
      }
    } else {
      forall k | k in s'.sinks && s'.sinks[k].blocked
        ensures Covered(s', k)
      {
        match step
        case Receive => ReceiveKeepsCover(s, k);
        case PeerClosed(id) => ShutdownKeepsCover(s, id, Direction.Read, k);
        case _ =>
      }
    }
  }

  /** A run of the system, by its steps. */
  ghost predicate Run(s: State, steps: seq<Step>)
    decreases |steps|
  {
    steps == [] || (Enabled(s, steps[0]) && Run(Apply(s, steps[0]), steps[1..]))
  }

  ghost function End(s: State, steps: seq<Step>): State
    requires Run(s, steps)
    decreases |steps|
  {
    if steps == [] then s else End(Apply(s, steps[0]), steps[1..])
  }

  /** Whether some step of the run loses a wakeup. */
  ghost predicate RunLoses(s: State, steps: seq<Step>)
    requires Run(s, steps)
    decreases |steps|
  {
    steps != [] && (Loses(s, steps[0]) || RunLoses(Apply(s, steps[0]), steps[1..]))
  }

  /** All the states of the run keep every blocked sink covered. */
  ghost predicate NoneLostAlong(s: State, steps: seq<Step>)
    requires Run(s, steps)
    decreases |steps|
  {
    NoneLost(s) && (steps != [] ==> NoneLostAlong(Apply(s, steps[0]), steps[1..]))
  }

  /** No wakeup is lost on a run exactly when no capacity query of the codec fails
      for a sink that nothing else would wake. */
  lemma {:induction false} NoLostWakeup(s: State, steps: seq<Step>)
    requires NoneLost(s) && Run(s, steps)
    ensures NoneLostAlong(s, steps) <==> !RunLoses(s, steps)
    decreases |steps|
  {
    if steps != [] {
      StepKeepsNoneLost(s, steps[0]);
      if !Loses(s, steps[0]) {
        NoLostWakeup(Apply(s, steps[0]), steps[1..]);
      } else {
        assert !NoneLost(Apply(s, steps[0]));
      }
    }
  }

  /** In particular none is lost when the codec's capacity queries succeed. */
  lemma {:induction false} NoLostWakeupWithCapacity(s: State, steps: seq<Step>)
    requires NoneLost(s) && Run(s, steps)
    requires forall i | 0 <= i < |steps| && steps[i].Notify? :: steps[i].capacity.Some?
    ensures NoneLost(End(s, steps))
    decreases |steps|
  {
    if steps != [] {
      StepKeepsNoneLost(s, steps[0]);
      NoLostWakeupWithCapacity(Apply(s, steps[0]), steps[1..]);
    }
  }

  lemma RunFirst(s: State, step: Step, rest: seq<Step>)
    requires Enabled(s, step) && Run(Apply(s, step), rest)
    ensures Run(s, [step] + rest) && End(s, [step] + rest) == End(Apply(s, step), rest)
    ensures RunLoses(s, [step] + rest) <==> Loses(s, step) || RunLoses(Apply(s, step), rest)
  {
  }

  /** Stream 4 is open and its sink has just asked for capacity. */
  const ASKING := INIT.(streams := map[4 := Stream(0, false, false)], queue := [WaitingWritable(4)],
                        sinks := map[0 := Sink(4, true, false)])

  const CODEC_STEPS := [Receive] + ([Collect([4])] + ([Notify(None)] + []))

  lemma FailedQueryLosesAsking()
    ensures Run(ASKING, CODEC_STEPS) && RunLoses(ASKING, CODEC_STEPS) && !NoneLost(End(ASKING, CODEC_STEPS))
  {
    hide Run, End, RunLoses;
    var s3 := ASKING.(queue := [], waiting := {4});
    var s4 := s3.(waiting := {}, inFlight := [4]);
    var s5 := s4.(inFlight := []);
    assert !Covered(s5, 0);
    EmptyRun(s5);
    assert Enabled(s4, Notify(None)) && Apply(s4, Notify(None)) == s5;
    RunFirst(s4, Notify(None), []);
    assert Enabled(s3, Collect([4])) && Apply(s3, Collect([4])) == s4;
    RunFirst(s3, Collect([4]), [Notify(None)] + []);
    assert 4 in ASKING.streams;
    assert Enabled(ASKING, Receive) && Apply(ASKING, Receive) == s3;
    RunFirst(ASKING, Receive, [Collect([4])] + ([Notify(None)] + []));
  }

  /** A run, from the start, on which a failing query loses a wakeup. */
  lemma FailedQueryLosesWakeup()
    ensures var steps := [Open(4, 0)] + ([Ask(0)] + CODEC_STEPS);
            Run(INIT, steps) && RunLoses(INIT, steps) && !NoneLost(End(INIT, steps))
  {
    hide Run, End, RunLoses;
    FailedQueryLosesAsking();
    var s1 := ASKING.(queue := [], sinks := map[0 := Sink(4, false, false)]);
    assert Enabled(s1, Ask(0)) && Apply(s1, Ask(0)) == ASKING;
    RunFirst(s1, Ask(0), CODEC_STEPS);
    assert Enabled(INIT, Open(4, 0)) && Apply(INIT, Open(4, 0)) == s1;
    RunFirst(INIT, Open(4, 0), [Ask(0)] + CODEC_STEPS);
  }

  lemma EmptyRun(s: State)
    ensures Run(s, []) && End(s, []) == s && !RunLoses(s, [])
  {
  }

  /** A sink's channel belongs to the stream it was made for. */
  ghost predicate Linked(s: State) {
    forall id | id in s.streams && s.streams[id].sink in s.sinks :: s.sinks[s.streams[id].sink].stream == id
  }

  lemma StepKeepsLinked(s: State, step: Step)
    requires Linked(s) && Enabled(s, step)
    ensures Linked(Apply(s, step))
  {
  }

  /** A lost sink stays lost whatever the codec and the socket do, until a message
      about its own stream arrives. */
  lemma LostStaysLost(s: State, step: Step, k: SinkId)
    requires Linked(s) && Enabled(s, step) && k in s.sinks && s.sinks[k].blocked && !Covered(s, k)
    requires step.Receive? || step.Collect? || step.Notify?
    requires step.Receive? ==> s.queue[0].id != s.sinks[k].stream
    ensures k in Apply(s, step).sinks && !Covered(Apply(s, step), k)
  {
    if step.Receive? {
      assert s.queue == [s.queue[0]] + s.queue[1..];
    } else if step.Notify? {
      assert s.inFlight == [s.inFlight[0]] + s.inFlight[1..];
    }
  }

  // ------------------------------------------------- one round wakes those it can

  /** The codec works off its queue. */
  function Drain(s: State): (s': State)
    ensures s'.inFlight == s.inFlight && s'.alive == s.alive && s'.failed == s.failed
    decreases |s.queue|
  {
    if s.queue == [] || s.streams == map[] then s
    else Drain(OnMessage(s.(queue := s.queue[1..]), s.queue[0]))
  }

  /** The socket reports the watched streams whose query fails or shows capacity. */
  predicate Reported(capacity: Option<nat>) {
    capacity.None? || capacity.value >= MIN_USABLE_CAPACITY
  }

  function Deliver(s: State, ids: seq<StreamId>, capacity: StreamId -> Option<nat>): State
    decreases |ids|
  {
    if ids == [] then s else Deliver(NotifyStream(s, ids[0], capacity(ids[0])), ids[1..], capacity)
  }

  /** Drain the queue, collect in some order, deliver. */
  function Round(s: State, ready: seq<StreamId>, capacity: StreamId -> Option<nat>): State {
    var s1 := Drain(s);
    Deliver(s1.(waiting := s1.waiting - (set id | id in ready)), ready, capacity)
  }

  lemma {:induction false} DrainKeepsCover(s: State, k: SinkId)
    requires s.alive && !s.failed && s.inFlight == [] && k in s.sinks && Covered(s, k)
    ensures Drain(s).sinks == s.sinks && Covered(Drain(s), k)
    ensures Drain(s).queue == [] || Drain(s).streams == map[]
    decreases |s.queue|
  {
    if s.queue != [] && s.streams != map[] {
      ReceiveKeepsCover(s, k);
      DrainKeepsCover(OnMessage(s.(queue := s.queue[1..]), s.queue[0]), k);
    }
  }

  lemma {:induction false} DeliverWakes(s: State, ids: seq<StreamId>, capacity: StreamId -> Option<nat>, k: SinkId)
    requires k in s.sinks
    requires Reported(capacity(s.sinks[k].stream)) && capacity(s.sinks[k].stream).Some?
    requires s.sinks[k].stream in ids || s.sinks[k].token || SenderDropped(s, k)
    ensures var s' := Deliver(s, ids, capacity);
            k in s'.sinks && s'.streams == s.streams && s'.sinks[k].stream == s.sinks[k].stream
            && (s'.sinks[k].token || SenderDropped(s', k))
    decreases |ids|
  {
    if ids != [] {
      DeliverWakes(NotifyStream(s, ids[0], capacity(ids[0])), ids[1..], capacity, k);
    }
  }

  /** The write side of the sink's stream is open, and nothing in the queue shuts it. */
  predicate WriteOpen(s: State, k: SinkId)
    requires k in s.sinks
  {
    var id := s.sinks[k].stream;
    && id in s.streams && s.streams[id].sink == k && !s.streams[id].writeShutdown
    && forall i | 0 <= i < |s.queue| && s.queue[i].Shutdown? && s.queue[i].id == id :: s.queue[i].direction == Direction.Read
  }

  lemma {:induction false} DrainKeepsOpen(s: State, k: SinkId)
    requires k in s.sinks && WriteOpen(s, k)
    ensures k in Drain(s).sinks && !SenderDropped(Drain(s), k)
    decreases |s.queue|
  {
    if s.queue != [] && s.streams != map[] {
      var s' := OnMessage(s.(queue := s.queue[1..]), s.queue[0]);
      assert forall i | 0 <= i < |s'.queue| :: s'.queue[i] == s.queue[i + 1];
      DrainKeepsOpen(s', k);
    }
  }

  /** One round of the codec's loop wakes every blocked sink whose stream has capacity
      when the socket asks and still when the codec does: it finds a token, or its
      channel closed; a token when its write side is open. */
  lemma RoundWakes(s: State, ready: seq<StreamId>, asked: StreamId -> Option<nat>,
                   capacity: StreamId -> Option<nat>, k: SinkId)
    requires s.alive && !s.failed && s.inFlight == [] && NoneLost(s) && k in s.sinks && s.sinks[k].blocked
    requires forall id :: id in ready <==> id in Drain(s).waiting && Reported(asked(id))
    requires Reported(asked(s.sinks[k].stream))
    requires capacity(s.sinks[k].stream).Some? && Reported(capacity(s.sinks[k].stream))
    ensures var s' := Round(s, ready, capacity);
            && k in s'.sinks && (s'.sinks[k].token || SenderDropped(s', k))
            && (WriteOpen(s, k) ==> s'.sinks[k].token)
  {
    hide Drain, Deliver, WriteOpen;
    DrainKeepsCover(s, k);
    var s1 := Drain(s);
    DeliverWakes(s1.(waiting := s1.waiting - (set id | id in ready)), ready, capacity, k);
    if WriteOpen(s, k) {
      DrainKeepsOpen(s, k);
    }
  }
}
