/** What the driver does with packets that the decoder drops. */
module UdpDropping {
  import opened Bytes
  import opened UdpCodec
  import opened UdpRoundTrip

  const PACKET_HEADER := LENGTH_SIZE + FIXED_HEADER_SIZE

  // ------------------------------------------------------- no byte is used twice

  function NameLength(name: Option<Buffer>): nat {
    if name.Some? then |name.value| else 0
  }

  /** The bytes that a datagram takes up on the wire. */
  function Weight(d: Datagram): nat {
    PACKET_HEADER + NameLength(d.appName) + |d.payload|
  }

  function TotalWeight(ds: seq<Datagram>): nat {
    if ds == [] then 0 else Weight(ds[0]) + TotalWeight(ds[1..])
  }

  /** The bytes of the packet at hand that the decoder has taken into its fields. */
  function Held(s: State): nat {
    match s.recv
    case Length => |s.buffer|
    case FixedHeader => LENGTH_SIZE + |s.buffer|
    case AppName(_) => PACKET_HEADER + |s.buffer|
    case Payload(_) => PACKET_HEADER + NameLength(s.appName) + |s.buffer|
    case Dropping(_) => 0
  }

  /** A result whose datagrams and held bytes weigh no more than `limit`. */
  predicate Within(r: (State, seq<Datagram>), limit: nat) {
    TotalWeight(r.1) + Held(r.0) <= limit
  }

  lemma AfterWithin(ds: seq<Datagram>, r: (State, seq<Datagram>), limit: nat)
    requires TotalWeight(ds) <= limit && Within(r, limit - TotalWeight(ds))
    ensures Within(After(ds, r), limit)
  {
    TotalWeightAppend(ds, r.1);
  }

  lemma {:induction false} TotalWeightAppend(a: seq<Datagram>, b: seq<Datagram>)
    ensures TotalWeight(a + b) == TotalWeight(a) + TotalWeight(b)
    decreases |a|
  {
    if a == [] {
      assert a + b == b;
    } else {
      assert (a + b)[1..] == a[1..] + b;
      TotalWeightAppend(a[1..], b);
    }
  }

  /** Dropping hands bytes back, but a byte that is taken into a field is gone. */
  lemma OnceWeighs(s: State, data: Buffer)
    requires Valid(s) && data != []
    ensures var o := Once(s, data); TotalWeight(o.1) + Held(o.0) + |o.2| <= Held(s) + |data|
  {
    hide IsUtf8;
    var o := Once(s, data);
    if o.1 != [] {
      assert o.1 == [o.1[0]] && TotalWeight([]) == 0;
    }
  }

  lemma {:induction false} DecodeChunkWeighs(s: State, data: Buffer)
    requires Valid(s)
    ensures var r := DecodeChunk(s, data);
            match r.1
            case WantMore => Held(r.0) <= Held(s) + |data|
            case Complete(d, tail) => Weight(d) + Held(r.0) + |tail| <= Held(s) + |data|
    decreases |data|, Rank(s), ToDrop(s)
  {
    hide Once, Held, Weight;
    if data != [] {
      OnceWeighs(s, data);
      var o := Once(s, data);
      if o.1 == [] {
        DecodeChunkWeighs(o.0, o.2);
      } else {
        assert o.1 == [o.1[0]] && TotalWeight([]) == 0;
      }
    }
  }

  lemma {:induction false} DriveChunkWeighs(s: State, data: Buffer)
    requires Valid(s)
    ensures Within(DriveChunk(s, data), Held(s) + |data|)
    decreases |data|, Rank(s)
  {
    hide DecodeChunk, Held, Weight, Valid;
    DecodeChunkWeighs(s, data);
    var r := DecodeChunk(s, data);
    if r.1.Complete? {
      DriveChunkWeighs(r.0, r.1.tail);
      assert TotalWeight([r.1.datagram]) == Weight(r.1.datagram);
      AfterWithin([r.1.datagram], DriveChunk(r.0, r.1.tail), Held(s) + |data|);
    }
  }

  /** However the bytes arrive and whatever is dropped, the datagrams of a run take up
      no more bytes than there were. */
  lemma {:induction false} DriveWeighs(s: State, chunks: seq<Buffer>)
    requires Valid(s)
    ensures Within(Drive(s, chunks), Held(s) + |Concat(chunks)|)
    decreases |chunks|
  {
    hide DriveChunk, Held, Valid;
    if chunks != [] {
      var r := DriveChunk(s, chunks[0]);
      DriveChunkWeighs(s, chunks[0]);
      DriveWeighs(r.0, chunks[1..]);
      AfterWithin(r.1, Drive(r.0, chunks[1..]), Held(s) + |Concat(chunks)|);
    }
  }

  // ------------------------------------------------------- a run into a dropped packet

  /** The first `k` bytes bring the decoder to drop a packet, and yield nothing. */
  ghost predicate DropsAt(s: State, data: Buffer, k: nat)
    requires Valid(s)
  {
    && k <= |data| && Clean(s, data[..k])
    && Feed(s, data[..k]).1 == [] && Feed(s, data[..k]).0.recv.Dropping?
  }

  lemma DriveChunkOnce(s: State, data: Buffer)
    requires Valid(s) && data != [] && Once(s, data).1 == []
    ensures DriveChunk(s, data) == DriveChunk(Once(s, data).0, Once(s, data).2)
  {
  }

  /** A field that ends before the dropped packet begins is read as laid out. */
  lemma DropsAfterField(s: State, data: Buffer, k: nat)
    requires Valid(s) && !s.recv.Dropping? && data != [] && DropsAt(s, data, k)
    ensures var o, m := Once(s, data), Need(s) - |s.buffer|;
            0 <= m <= k <= |data| && o.1 == [] && o.2 == data[m..] && DropsAt(o.0, o.2, k - m)
  {
    hide Feed, Clean;
    var m, front := Need(s) - |s.buffer|, data[..k];
    if k < m {
      FeedPartial(s, front);
      assert false;
    }
    if front == [] {
      FeedNothing(s);
      assert false;
    }
    FeedField(s, front);
    FieldKeepsClean(s, front);
    assert front[..m] == data[..m] && front[m..] == data[m..][..k - m];
  }

  /** Only the bytes behind the point where dropping begins can be in a datagram. */
  lemma {:induction false} DriveChunkIntoDrop(s: State, data: Buffer, k: nat)
    requires Valid(s) && DropsAt(s, data, k)
    ensures Within(DriveChunk(s, data), |data| - k)
    decreases |data|, Rank(s)
  {
    hide DriveChunk, Feed, Clean, Once, DropsAt;
    if s.recv.Dropping? {
      DropsFromDropping(s, data, k);
      DriveChunkWeighs(s, data);
    } else {
      DropsNonEmpty(s, data, k);
      DropsAfterField(s, data, k);
      DriveChunkOnce(s, data);
      var o, m := Once(s, data), Need(s) - |s.buffer|;
      DriveChunkIntoDrop(o.0, o.2, k - m);
    }
  }

  lemma DropsFromDropping(s: State, data: Buffer, k: nat)
    requires Valid(s) && s.recv.Dropping? && DropsAt(s, data, k)
    ensures k == 0
  {
  }

  lemma DropsNonEmpty(s: State, data: Buffer, k: nat)
    requires Valid(s) && !s.recv.Dropping? && DropsAt(s, data, k)
    ensures data != []
  {
  }

  lemma {:induction false} DriveIntoDrop(s: State, chunks: seq<Buffer>, k: nat)
    requires Valid(s) && DropsAt(s, Concat(chunks), k)
    ensures Within(Drive(s, chunks), |Concat(chunks)| - k)
    decreases |chunks|
  {
    hide DriveChunk, Feed, Clean, Held, Valid;
    if s.recv.Dropping? {
      DropsFromDropping(s, Concat(chunks), k);
      assert Held(s) == 0 by { NothingHeld(s); }
      DriveWeighs(s, chunks);
    } else if chunks == [] {
      DropsNonEmpty(s, Concat(chunks), k);
    } else {
      var c, more := chunks[0], Concat(chunks[1..]);
      assert Concat(chunks) == c + more;
      if |c| <= k {
        DropsLater(s, c, more, k);
        DriveIntoDrop(Feed(s, c).0, chunks[1..], k - |c|);
      } else {
        assert (c + more)[..k] == c[..k];
        DriveChunkIntoDrop(s, c, k);
        var r := DriveChunk(s, c);
        DriveWeighs(r.0, chunks[1..]);
        AfterWithin(r.1, Drive(r.0, chunks[1..]), |Concat(chunks)| - k);
      }
    }
  }

  lemma NothingHeld(s: State)
    requires s.recv.Dropping?
    ensures Held(s) == 0
  {
  }

  lemma DropsLater(s: State, c: Buffer, more: Buffer, k: nat)
    requires Valid(s) && DropsAt(s, c + more, k) && |c| <= k
    ensures DriveChunk(s, c) == (Feed(s, c).0, []) && DropsAt(Feed(s, c).0, more, k - |c|)
  {
    hide DriveChunk, Feed, Clean, Valid;
    var front := more[..k - |c|];
    assert (c + more)[..k] == c + front;
    CleanAppend(s, c, front);
    FeedAppend(s, c, front);
    DriveChunkIsFeed(s, c);
  }

  // ------------------------------------------------------- which datagrams come back

  /** Where the decoder starts to drop a packet that it does not accept: behind the
      fixed header of one that is too large, behind a name that is not UTF-8. */
  function DropPoint(d: Packet): nat {
    PACKET_HEADER + if WireLength(d) + |d.appName.value| > MAX_IN_PAYLOAD_SIZE then 0 else |d.appName.value|
  }

  lemma RefusedDrops(d: Packet, rest: Buffer)
    requires !Accepted(d)
    ensures Valid(INIT) && DropsAt(INIT, Wire(d) + rest, DropPoint(d))
  {
    hide Feed, Clean, Header, PutFixedSizeIp, GetFixedSizeIp, IsUtf8;
    var name, len, head := d.appName.value, PutU32(WireLength(d)), Header(d);
    var s1 := INIT.(totalLength := WireLength(d), recv := FixedHeader);
    var large := WireLength(d) + |name| > MAX_IN_PAYLOAD_SIZE;
    var s2 := AfterFixed(INIT, d).(recv := if large then Dropping(|name| + |d.payload|) else AppName(|name|));
    assert Finish(INIT, len) == (s1, []) && Finish(s1, head) == (s2, []);
    var front := if large then [] else name;
    assert (Wire(d) + rest)[..DropPoint(d)] == len + (head + front);
    var end := if large then s2 else s2.(recv := Dropping(|d.payload|));
    assert Feed(s2, front) == (end, []) && Clean(s2, front) by {
      if large { FeedNothing(s2); CleanNothing(s2); } else { NameDrops(s2, name); }
    }
    FieldFed(s1, head, front);
    FieldFed(INIT, len, head + front);
  }

  lemma CleanNothing(s: State)
    requires Valid(s)
    ensures Clean(s, [])
  {
  }

  lemma FieldFed(s: State, field: Buffer, rest: Buffer)
    requires Valid(s) && !s.recv.Dropping? && s.buffer == [] && |field| == Need(s) > 0
    requires Finish(s, field).1 == [] && Clean(Finish(s, field).0, rest)
    ensures Clean(s, field + rest) && Feed(s, field + rest) == Feed(Finish(s, field).0, rest)
  {
    hide Feed, Clean, Finish;
    CleanField(s, field, rest);
    FeedNonEmptyField(s, field + rest);
    assert s.buffer + (field + rest)[..|field|] == field && (field + rest)[|field|..] == rest;
  }

  lemma NameDrops(s: State, name: Buffer)
    requires Valid(s) && s.recv == AppName(|name|) && s.buffer == [] && !IsUtf8(name)
    ensures Clean(s, name) && Feed(s, name) == (s.(recv := Dropping(s.totalLength - FIXED_HEADER_SIZE - |name|)), [])
  {
    hide Feed, Clean;
    assert name != [];
    CleanPartial(s, name);
    FeedNonEmptyField(s, name);
    assert s.buffer + name[..|name|] == name && name[|name|..] == [];
    FeedNothing(Finish(s, name).0);
  }

  /** The datagram that an accepted packet is read as: ambiguous addresses come back as IPv4. */
  function ReadAs(d: Packet): Datagram {
    var s := AfterFixed(INIT, d);
    Datagram(s.source.value, s.destination.value, d.appName, d.payload)
  }

  lemma AcceptedReadAs(d: Packet, b: Byte)
    requires Accepted(d)
    ensures Clean(INIT, Wire(d) + [b]) && Feed(INIT, Wire(d) + [b]).1 == [ReadAs(d)]
  {
    hide Feed, Clean, Header, PutFixedSizeIp, GetFixedSizeIp, IsUtf8;
    var name, body := d.appName.value, d.payload + [b];
    var s := AfterFixed(INIT, d);
    PacketClean(INIT, d, [b]);
    assert Clean(s.(appName := None), [b]) by { CleanPartial(s.(appName := None), [b]); }
    assert Wire(d) + [b] == PutU32(WireLength(d)) + Header(d) + (name + body);
    FixedPartReadBack(INIT, d, name + body);
    var s2 := s.(recv := AppName(|name|));
    AppNameReadBack(s2, name, body);
    var s3 := Finish(s2, name).0;
    assert s3 == s2.(appName := d.appName, recv := Payload(|d.payload|));
    FeedField(s3, body);
    assert s3.buffer + body[..|d.payload|] == d.payload && body[|d.payload|..] == [b];
    FeedPartial(Finish(s3, d.payload).0, [b]);
  }

  lemma ReadAsItselfIff(d: Packet)
    ensures ReadAs(d) == d <==> Unambiguous(d.source.ip) && Unambiguous(d.destination.ip)
  {
    hide PutFixedSizeIp, GetFixedSizeIp, Unambiguous;
    FixedSizeIpRoundTrip(d.source.ip);
    FixedSizeIpRoundTrip(d.destination.ip);
  }

  /** In whatever chunks its bytes and one more arrive, the driver yields a datagram
      exactly when it is deliverable. */
  lemma ReadBackIffDeliverable(d: Packet, b: Byte, chunks: seq<Buffer>)
    requires Concat(chunks) == Wire(d) + [b]
    ensures Drive(INIT, chunks).1 == [d] <==> Deliverable(d)
  {
    hide Drive, Feed, Clean, Wire, Accepted, Unambiguous, ReadAs;
    if Accepted(d) {
      AcceptedReadAs(d, b);
      DriveIsFeed(INIT, chunks);
      ReadAsItselfIff(d);
    } else {
      RefusedDrops(d, [b]);
      DriveIntoDrop(INIT, chunks, DropPoint(d));
      TooHeavy(d, b, Drive(INIT, chunks));
    }
  }

  lemma TooHeavy(d: Packet, b: Byte, r: (State, seq<Datagram>))
    requires DropPoint(d) <= |Wire(d) + [b]| && Within(r, |Wire(d) + [b]| - DropPoint(d))
    ensures r.1 != [d]
  {
    assert TotalWeight([d]) == Weight(d);
    assert |Wire(d)| == Weight(d);
  }

  // ------------------------------------------------------- inputs

  /** A packet within the limit whose name has one byte: it never comes back. */
  lemma LargestWithNameRefused(b: Byte, chunks: seq<Buffer>)
    ensures var d := Datagram(NOWHERE, NOWHERE, Some([0x61]), seq(MAX_IN_PAYLOAD_SIZE - FIXED_HEADER_SIZE - 1, _ => 0 as Byte));
            && WireLength(d) == MAX_IN_PAYLOAD_SIZE && IsUtf8(d.appName.value)
            && (Concat(chunks) == Wire(d) + [b] ==> Drive(INIT, chunks).1 != [d])
  {
    hide Drive, Wire;
    var d := Datagram(NOWHERE, NOWHERE, Some([0x61]), seq(MAX_IN_PAYLOAD_SIZE - FIXED_HEADER_SIZE - 1, _ => 0 as Byte));
    assert [0x61 as Byte][1..] == [];
    if Concat(chunks) == Wire(d) + [b] {
      ReadBackIffDeliverable(d, b, chunks);
    }
  }

  /** A packet of one byte is dropped; its byte is taken for the start of the next one. */
  lemma ShortPacketMisread(b: Byte)
    ensures Feed(INIT, [0, 0, 0, 1, b]) == (INIT.(totalLength := 1), [])
    ensures Drive(INIT, [[0, 0, 0, 1, b]]) == (INIT.(totalLength := 1, buffer := [b]), [])
  {
    hide Feed, Drive;
    var length: Buffer := [0, 0, 0, 1];
    var s := INIT.(totalLength := 1, recv := Dropping(1));
    assert Finish(INIT, length) == (s, []);
    assert INIT.buffer + (length + [b])[..4] == length && (length + [b])[4..] == [b];
    FeedField(INIT, length + [b]);
    FeedStep(s, [b]);
    assert [b][1..] == [];
    FeedNothing(INIT.(totalLength := 1));
    assert length + [b] == [0, 0, 0, 1, b];
    DriveChunkOnce(INIT, length + [b]);
    DroppingLeavesByte(s, b);
    assert DriveChunk(s, [b]) == (s.(recv := RecvState.Length, buffer := [b]), []);
    OneChunk(INIT, length + [b]);
  }

  lemma OneChunk(s: State, data: Buffer)
    requires Valid(s)
    ensures Drive(s, [data]) == DriveChunk(s, data)
  {
    var r := DriveChunk(s, data);
    assert Drive(r.0, []) == (r.0, []);
    assert r.1 + [] == r.1;
  }

  // ------------------------------------------------------- what the layout drops

  /** A dropping decoder of the layout swallows exactly the bytes it has to. */
  lemma {:induction false} DroppedExactly(s: State, bytes: Buffer, rest: Buffer)
    requires Valid(s) && s.recv == Dropping(|bytes|) && rest != []
    ensures Feed(s, bytes + rest) == Feed(s.(recv := RecvState.Length), rest)
    decreases |bytes|
  {
    hide Feed;
    FeedStep(s, bytes + rest);
    if bytes == [] {
      assert bytes + rest == rest;
      FeedStep(s.(recv := RecvState.Length), rest);
    } else {
      assert (bytes + rest)[1..] == bytes[1..] + rest;
      if |bytes| == 1 {
        assert bytes[1..] + rest == rest;
      } else {
        DroppedExactly(s.(recv := Dropping(|bytes| - 1)), bytes[1..], rest);
      }
    }
  }

  /** A packet that is too short for a header is dropped as a whole. */
  lemma ShortSkipped(s: State, body: Buffer, rest: Buffer)
    requires Valid(s) && AtStart(s) && |body| < FIXED_HEADER_SIZE && rest != []
    ensures Feed(s, PutU32(|body|) + (body + rest)) == Feed(s.(totalLength := |body|), rest)
  {
    hide Feed, PutU32;
    var len := PutU32(|body|);
    var s1 := s.(totalLength := |body|, recv := Dropping(|body|));
    var data := len + (body + rest);
    assert s.buffer + data[..4] == len && data[4..] == body + rest;
    FeedNonEmptyField(s, data);
    assert Finish(s, len) == (s1, []);
    DroppedExactly(s1, body, rest);
  }

  /** A packet that is not accepted is dropped as a whole: the next one is read from its
      own start. */
  lemma RefusedSkipped(s: State, d: Packet, rest: Buffer)
    requires Valid(s) && AtStart(s) && !Accepted(d) && rest != []
    ensures Feed(s, Wire(d) + rest) == Feed(AfterFixed(s, d), rest)
  {
    hide Feed, Header, PutFixedSizeIp, GetFixedSizeIp, IsUtf8, PutU32;
    var name := d.appName.value;
    var s2 := BehindHeader(s, d);
    assert Wire(d) + rest == PutU32(WireLength(d)) + Header(d) + (name + (d.payload + rest));
    FixedPartReadBack(s, d, name + (d.payload + rest));
    if s2.recv.Dropping? {
      assert name + (d.payload + rest) == (name + d.payload) + rest;
      DroppedExactly(s2, name + d.payload, rest);
    } else {
      AppNameReadBack(s2, name, d.payload + rest);
      DroppedExactly(Finish(s2, name).0, d.payload, rest);
    }
  }
}
