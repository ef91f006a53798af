/** The codec's part of the wake-up protocol as the object that is updated in
    place, together with the socket's set of watched streams and the sinks' ends
    of the channels it sends to. */
module Http3Codec {
  import opened Bytes
  import opened Wakeup

  class Codec {
    var streams: map<StreamId, Stream>
    var queue: seq<Message>
    var waiting: set<StreamId>
    var sinks: map<SinkId, Sink>

    ghost function View(): State
      reads this
    {
      State(true, false, streams, queue, waiting, [], sinks)
    }

    constructor ()
      ensures View() == INIT
    {
      streams, queue, waiting, sinks := map[], [], {}, map[];
    }

    /** Registers a request; a stream that was open under this id loses its sender. */
    method OnRequest(id: StreamId, k: SinkId)
      requires Enabled(View(), Open(id, k))
      modifies this
      ensures View() == Apply(old(View()), Open(id, k))
    {
      streams := streams[id := Stream(k, false, false)];
      sinks := sinks[k := Sink(id, false, false)];
    }

    method OnStreamShutdown(id: StreamId, direction: Direction) returns (found: bool)
      modifies this`streams
      ensures found == (id in old(streams))
      ensures View() == OnShutdown(old(View()), id, direction)
    {
      if id !in streams { return false; }
      var stream := streams[id];
      if !direction.Write? && !stream.readShutdown {
        stream := stream.(readShutdown := true);
      }
      if !direction.Read? && !stream.writeShutdown {
        stream := stream.(writeShutdown := true);
      }
      streams := if stream.readShutdown && stream.writeShutdown then streams - {id} else streams[id := stream];
      found := true;
    }

    method OnStreamMessage(m: Message) returns (ok: bool)
      modifies this`streams, this`waiting
      ensures ok <==> m.WaitingWritable? || m.id in old(streams)
      ensures View() == OnMessage(old(View()), m)
    {
      match m {
        case WaitingWritable(id) =>
          waiting := waiting + {id};
          ok := true;
        case Shutdown(id, direction) =>
          ok := OnStreamShutdown(id, direction);
      }
    }

    /** The message branch of the listening loop, which is taken only while there
        are streams. A message that fails closes its stream. */
    method ReceiveMessages()
      modifies this
      ensures View() == Drain(old(View()))
    {
      while queue != [] && streams != map[]
        invariant Drain(View()) == Drain(old(View()))
        decreases |queue|
      {
        var message := queue[0];
        queue := queue[1..];
        var ok := OnStreamMessage(message);
        if !ok {
          ok := OnStreamShutdown(message.id, Both);
        }
      }
    }

    /** The socket's pass over the watched streams: it keeps those it does not report. */
    method CollectWritable(capacity: StreamId -> Option<nat>) returns (ready: seq<StreamId>)
      modifies this`waiting
      ensures forall id :: id in ready <==> id in old(waiting) && Reported(capacity(id))
      ensures waiting == old(waiting) - (set id | id in ready)
    {
      ready := [];
      var rest := waiting;
      while rest != {}
        invariant rest <= waiting
        invariant forall id :: id in ready <==> id in waiting - rest && Reported(capacity(id))
        decreases |rest|
      {
        var id :| id in rest;
        rest := rest - {id};
        if Reported(capacity(id)) {
          ready := ready + [id];
        }
      }
      waiting := set id | id in waiting && id !in ready;
    }

    method NotifyWritableStreams(ids: seq<StreamId>, capacity: StreamId -> Option<nat>)
      modifies this`waiting, this`sinks
      ensures View() == Deliver(old(View()), ids, capacity)
    {
      var i := 0;
      while i < |ids|
        invariant 0 <= i <= |ids|
        invariant Deliver(View(), ids[i..], capacity) == Deliver(old(View()), ids, capacity)
      {
        var id := ids[i];
        assert ids[i..][1..] == ids[i + 1..];
        if id in streams && capacity(id).Some? {
          if capacity(id).value < MIN_USABLE_CAPACITY {
            waiting := waiting + {id};
          } else if streams[id].sink in sinks {
            // a full slot is left as it is
            var k := streams[id].sink;
            sinks := sinks[k := sinks[k].(token := true)];
          }
        }
        i := i + 1;
      }
    }

    /** One round of listening: every blocked sink whose stream has capacity, when the
        socket asks and still when the codec does, finds a token or its channel closed; a
        token when its write side is open. */
    method ListenRound(asked: StreamId -> Option<nat>, capacity: StreamId -> Option<nat>)
      requires NoneLost(View())
      modifies this
      ensures forall k | k in old(sinks) && old(sinks[k]).blocked && Reported(asked(old(sinks[k]).stream))
                         && capacity(old(sinks[k]).stream).Some? && Reported(capacity(old(sinks[k]).stream)) ::
                && k in sinks && (sinks[k].token || SenderDropped(View(), k))
                && (WriteOpen(old(View()), k) ==> sinks[k].token)
    {
      ghost var s := View();
      ReceiveMessages();
      var ready := CollectWritable(asked);
      NotifyWritableStreams(ready, capacity);
      assert View() == Round(s, ready, capacity);
      forall k | k in s.sinks && s.sinks[k].blocked && Reported(asked(s.sinks[k].stream))
                 && capacity(s.sinks[k].stream).Some? && Reported(capacity(s.sinks[k].stream))
        ensures k in sinks && (sinks[k].token || SenderDropped(View(), k))
        ensures WriteOpen(s, k) ==> sinks[k].token
      {
        RoundWakes(s, ready, asked, capacity, k);
      }
    }
  }
}
