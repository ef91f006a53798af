/** What the client puts on the wire comes out of the decoder. */
module UdpRoundTrip {
  import opened Bytes
  import opened UdpCodec

  /** The datagrams that the client's packet layout can express. */
  type Packet = d: Datagram |
    d.appName.Some? && |d.appName.value| <= 255
    && FIXED_HEADER_SIZE + |d.appName.value| + |d.payload| < 0x1_0000_0000
    witness Datagram(NOWHERE, NOWHERE, Some([]), [])

  const NOWHERE := SocketAddr(V4([0, 0, 0, 0]), 0)

  function WireLength(d: Packet): nat {
    FIXED_HEADER_SIZE + |d.appName.value| + |d.payload|
  }

  /** The packets that the decoder does not drop. The length of the name counts twice. */
  predicate Accepted(d: Packet) {
    WireLength(d) + |d.appName.value| <= MAX_IN_PAYLOAD_SIZE && IsUtf8(d.appName.value)
  }

  /** The datagrams that the decoder gives back. */
  predicate Deliverable(d: Packet) {
    Accepted(d) && Unambiguous(d.source.ip) && Unambiguous(d.destination.ip)
  }

  function Header(d: Packet): (h: Buffer)
    ensures |h| == FIXED_HEADER_SIZE
    ensures h[..16] == PutFixedSizeIp(d.source.ip) && GetU16(h, 16) == d.source.port
    ensures h[18..34] == PutFixedSizeIp(d.destination.ip) && GetU16(h, 34) == d.destination.port
    ensures h[36] == |d.appName.value|
  {
    PutFixedSizeIp(d.source.ip) + PutU16(d.source.port)
    + PutFixedSizeIp(d.destination.ip) + PutU16(d.destination.port) + [|d.appName.value|]
  }

  /** Length, addresses and ports, the name with its length, the payload. */
  function Wire(d: Packet): Buffer {
    PutU32(WireLength(d)) + Header(d) + d.appName.value + d.payload
  }

  function WireAll(ds: seq<Packet>): Buffer {
    if ds == [] then [] else Wire(ds[0]) + WireAll(ds[1..])
  }

  /** A decoder at the start of a packet. */
  predicate AtStart(s: State) {
    s.recv.Length? && s.buffer == []
  }

  function AfterFixed(s: State, d: Packet): State {
    s.(totalLength := WireLength(d),
       source := Some(SocketAddr(GetFixedSizeIp(PutFixedSizeIp(d.source.ip)), d.source.port)),
       destination := Some(SocketAddr(GetFixedSizeIp(PutFixedSizeIp(d.destination.ip)), d.destination.port)))
  }

  /** Where the decoder is behind the fixed header: the size limit is applied. */
  function BehindHeader(s: State, d: Packet): State {
    var l := |d.appName.value|;
    AfterFixed(s, d).(recv := if WireLength(d) + l <= MAX_IN_PAYLOAD_SIZE then AppName(l) else Dropping(l + |d.payload|))
  }

  lemma HeaderFinished(s: State, d: Packet)
    requires Valid(s) && AtStart(s)
    ensures var s1 := s.(totalLength := WireLength(d), recv := FixedHeader);
            && Finish(s, PutU32(WireLength(d))) == (s1, []) && Valid(s1)
            && Finish(s1, Header(d)) == (BehindHeader(s, d), [])
  {
    hide Header, PutFixedSizeIp, GetFixedSizeIp;
  }

  /** Length and fixed header are read back. */
  lemma FixedPartReadBack(s: State, d: Packet, rest: Buffer)
    requires Valid(s) && AtStart(s)
    ensures Valid(BehindHeader(s, d))
    ensures Feed(s, PutU32(WireLength(d)) + Header(d) + rest) == Feed(BehindHeader(s, d), rest)
  {
    hide Feed, Header, Finish, PutU32;
    var len, head := PutU32(WireLength(d)), Header(d);
    var data := len + head + rest;
    HeaderFinished(s, d);
    assert s.buffer + data[..4] == len && data[4..] == head + rest;
    FeedNonEmptyField(s, data);
    var s1 := Finish(s, len).0;
    FeedNonEmptyField(s1, head + rest);
    assert s1.buffer + (head + rest)[..37] == head && (head + rest)[37..] == rest;
  }

  /** The application name is read back when it is UTF-8. */
  lemma AppNameReadBack(s: State, name: Buffer, rest: Buffer)
    requires Valid(s) && s.recv == AppName(|name|) && s.buffer == [] && rest != []
    ensures Feed(s, name + rest) == Feed(Finish(s, name).0, rest)
  {
    hide Feed, Finish;
    assert (name + rest)[..|name|] == name && (name + rest)[|name|..] == rest && s.buffer + name == name;
    FeedField(s, name + rest);
    AppNameEmitsNothing(s, name);
  }

  lemma AppNameEmitsNothing(s: State, name: Buffer)
    requires Valid(s) && s.recv == AppName(|name|)
    ensures Finish(s, name).1 == []
  {
  }

  /** One packet, followed by at least one more byte. */
  lemma PacketReadBack(s: State, d: Packet, rest: Buffer)
    requires Valid(s) && AtStart(s) && Deliverable(d) && rest != []
    ensures var s' := AfterFixed(s, d).(appName := None);
            Valid(s') && AtStart(s') && Feed(s, Wire(d) + rest) == After([d], Feed(s', rest))
  {
    hide Feed, Header, PutFixedSizeIp, GetFixedSizeIp;
    FixedSizeIpRoundTrip(d.source.ip);
    FixedSizeIpRoundTrip(d.destination.ip);
    var name, body := d.appName.value, d.payload + rest;
    assert Wire(d) + rest == PutU32(WireLength(d)) + Header(d) + (name + body);
    FixedPartReadBack(s, d, name + body);
    var s2 := AfterFixed(s, d).(recv := AppName(|name|));
    AppNameReadBack(s2, name, body);
    var s3 := Finish(s2, name).0;
    assert s3 == s2.(appName := d.appName, recv := Payload(|d.payload|));
    FeedField(s3, body);
    assert s3.buffer + body[..|d.payload|] == d.payload && body[|d.payload|..] == rest;
  }

  /** The last packet of a stream is held back while its payload is empty. */
  lemma LastPacketReadBack(s: State, d: Packet)
    requires Valid(s) && AtStart(s) && Deliverable(d)
    ensures Feed(s, Wire(d)).1 == if d.payload == [] then [] else [d]
  {
    hide Feed, Header, PutFixedSizeIp, GetFixedSizeIp, Finish;
    var name := d.appName.value;
    var s2 := AfterFixed(s, d).(recv := AppName(|name|));
    if d.payload == [] {
      assert Wire(d) == PutU32(WireLength(d)) + Header(d) + name;
      FixedPartReadBack(s, d, name);
      NameEndsStream(s2, name);
    } else {
      FixedSizeIpRoundTrip(d.source.ip);
      FixedSizeIpRoundTrip(d.destination.ip);
      assert Wire(d) == PutU32(WireLength(d)) + Header(d) + (name + d.payload);
      FixedPartReadBack(s, d, name + d.payload);
      AppNameReadBack(s2, name, d.payload);
      PayloadEndsStream(s2, d);
    }
  }

  lemma NameEndsStream(s: State, name: Buffer)
    requires Valid(s) && s.recv == AppName(|name|) && s.buffer == []
    ensures Feed(s, name).1 == []
  {
    if name != [] {
      FeedNonEmptyField(s, name);
      assert s.buffer + name[..|name|] == name;
    }
  }

  lemma PayloadEndsStream(s: State, d: Packet)
    requires Valid(s) && s.buffer == [] && d.payload != [] && Deliverable(d)
    requires s.recv == AppName(|d.appName.value|) && s.totalLength == WireLength(d)
    requires s.source == Some(d.source) && s.destination == Some(d.destination)
    ensures Feed(Finish(s, d.appName.value).0, d.payload).1 == [d]
  {
    hide Feed;
    var s3 := Finish(s, d.appName.value).0;
    FeedNonEmptyField(s3, d.payload);
    assert s3.buffer + d.payload[..|d.payload|] == d.payload && d.payload[|d.payload|..] == [];
    FeedNothing(Finish(s3, d.payload).0);
  }

  /** Any list of deliverable datagrams is read back once a byte follows it. */
  lemma {:induction false} AllReadBack(s: State, ds: seq<Packet>, rest: Buffer) returns (s': State)
    requires Valid(s) && AtStart(s) && rest != []
    requires forall i | 0 <= i < |ds| :: Deliverable(ds[i])
    ensures Valid(s') && AtStart(s') && Feed(s, WireAll(ds) + rest) == After(ds, Feed(s', rest))
    decreases |ds|
  {
    hide Feed, Wire;
    if ds == [] {
      s' := s;
      assert WireAll(ds) + rest == rest;
    } else {
      assert WireAll(ds) + rest == Wire(ds[0]) + (WireAll(ds[1..]) + rest);
      PacketReadBack(s, ds[0], WireAll(ds[1..]) + rest);
      s' := AllReadBack(AfterFixed(s, ds[0]).(appName := None), ds[1..], rest);
      AfterAfter([ds[0]], ds[1..], Feed(s', rest));
      assert [ds[0]] + ds[1..] == ds;
    }
  }

  // ------------------------------------------------ no packet of it is dropped

  lemma {:induction false} CleanPartial(s: State, data: Buffer)
    requires Valid(s) && !s.recv.Dropping? && |s.buffer| + |data| <= Need(s)
    ensures Clean(s, data)
    decreases |data|
  {
    if |data| > 1 {
      CleanPartial(s.(buffer := s.buffer + [data[0]]), data[1..]);
    }
  }

  lemma CleanField(s: State, field: Buffer, rest: Buffer)
    requires Valid(s) && !s.recv.Dropping? && s.buffer == [] && |field| == Need(s)
    ensures Clean(Finish(s, field).0, rest) ==> Clean(s, field + rest)
  {
    hide Feed, Clean;
    if field == [] {
      assert field + rest == rest;
      CleanEmptyField(s, rest);
    } else {
      CleanPartial(s, field);
      FeedNonEmptyField(s, field);
      assert s.buffer + field[..|field|] == field && field[|field|..] == [];
      FeedNothing(Finish(s, field).0);
      CleanAppend(s, field, rest);
    }
  }

  lemma CleanEmptyField(s: State, rest: Buffer)
    requires Valid(s) && !s.recv.Dropping? && Need(s) == 0
    ensures Clean(Finish(s, []).0, rest) ==> Clean(s, rest)
  {
  }

  lemma PacketClean(s: State, d: Packet, rest: Buffer)
    requires Valid(s) && AtStart(s) && Accepted(d)
    ensures var s' := AfterFixed(s, d).(appName := None);
            Clean(s', rest) ==> Clean(s, Wire(d) + rest)
  {
    hide Clean, Feed, Header, PutFixedSizeIp, GetFixedSizeIp;
    var name, len, head := d.appName.value, PutU32(WireLength(d)), Header(d);
    assert Wire(d) + rest == len + (head + (name + (d.payload + rest)));
    var s1 := s.(totalLength := WireLength(d), recv := FixedHeader);
    var s2 := AfterFixed(s, d).(recv := AppName(|name|));
    var s3 := s2.(appName := d.appName, recv := Payload(|d.payload|));
    assert Finish(s, len).0 == s1 && Finish(s1, head).0 == s2 && Finish(s2, name).0 == s3;
    CleanField(s3, d.payload, rest);
    CleanField(s2, name, d.payload + rest);
    CleanField(s1, head, name + (d.payload + rest));
    CleanField(s, len, head + (name + (d.payload + rest)));
  }

  lemma {:induction false} AllClean(s: State, ds: seq<Packet>, rest: Buffer)
    requires Valid(s) && AtStart(s) && |rest| <= 1
    requires forall i | 0 <= i < |ds| :: Deliverable(ds[i])
    ensures Clean(s, WireAll(ds) + rest)
    decreases |ds|
  {
    hide Wire;
    if ds == [] {
      assert WireAll(ds) + rest == rest;
    } else {
      assert WireAll(ds) + rest == Wire(ds[0]) + (WireAll(ds[1..]) + rest);
      PacketClean(s, ds[0], WireAll(ds[1..]) + rest);
      AllClean(AfterFixed(s, ds[0]).(appName := None), ds[1..], rest);
    }
  }

  // --------------------------------------------------------------- the theorems

  /** Every list of deliverable datagrams, in whatever chunks its bytes arrive, is
      what the driver yields once one more byte has arrived. */
  lemma FollowedRoundTrip(ds: seq<Packet>, b: Byte, chunks: seq<Buffer>)
    requires forall i | 0 <= i < |ds| :: Deliverable(ds[i])
    requires Concat(chunks) == WireAll(ds) + [b]
    ensures Drive(INIT, chunks).1 == ds
  {
    hide Drive, Clean, Feed, WireAll, Deliverable;
    AllClean(INIT, ds, [b]);
    DriveIsFeed(INIT, chunks);
    var s' := AllReadBack(INIT, ds, [b]);
    FeedPartial(s', [b]);
  }

  /** Without that byte only a last datagram with an empty payload is missing. */
  lemma RoundTrip(ds: seq<Packet>, chunks: seq<Buffer>)
    requires forall i | 0 <= i < |ds| :: Deliverable(ds[i])
    requires Concat(chunks) == WireAll(ds)
    ensures Drive(INIT, chunks).1 ==
            if ds != [] && ds[|ds| - 1].payload == [] then ds[..|ds| - 1] else ds
  {
    hide Drive, Clean, Feed, Deliverable, WireAll, Valid;
    InitIsValid();
    assert WireAll(ds) + [] == WireAll(ds);
    AllClean(INIT, ds, []);
    DriveIsFeed(INIT, chunks);
    if ds == [] {
      WireNothing();
      FeedNothing(INIT);
    } else {
      assert ds == ds[..|ds| - 1] + [ds[|ds| - 1]];
      EndReadBack(ds[..|ds| - 1], ds[|ds| - 1]);
    }
  }

  lemma EndReadBack(front: seq<Packet>, last: Packet)
    requires (forall i | 0 <= i < |front| :: Deliverable(front[i])) && Deliverable(last)
    ensures Feed(INIT, WireAll(front + [last])).1 ==
            if last.payload == [] then front else front + [last]
  {
    hide Feed, WireAll, Deliverable, Wire, Valid;
    InitIsValid();
    WireAllAppend(front, last);
    WireNotEmpty(last);
    var s' := AllReadBack(INIT, front, Wire(last));
    LastPacketReadBack(s', last);
  }

  lemma WireNothing()
    ensures WireAll([]) == []
  {
  }

  lemma WireNotEmpty(d: Packet)
    ensures Wire(d) != []
  {
  }

  lemma {:induction false} WireAllAppend(ds: seq<Packet>, d: Packet)
    ensures WireAll(ds + [d]) == WireAll(ds) + Wire(d)
    decreases |ds|
  {
    hide Wire;
    if ds == [] {
      assert (ds + [d])[1..] == [];
    } else {
      assert (ds + [d])[1..] == ds[1..] + [d];
      WireAllAppend(ds[1..], d);
    }
  }
}
