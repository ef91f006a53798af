/** UDP over HTTP: the incremental datagram decoder, the driver that feeds it
    the tails it returns, and a byte-at-a-time reference decoder. */
module UdpCodec {
  import opened Bytes

  const LENGTH_SIZE := 4
  const ADDR_SIZE := 16
  const PORT_SIZE := 2
  const FIXED_HEADER_SIZE := 2 * (ADDR_SIZE + PORT_SIZE) + 1
  // An IP packet of 2^16 bytes less the IPv4, the UDP and the fixed header
  const MAX_IN_PAYLOAD_SIZE := 0x1_0000 - 20 - 8 - FIXED_HEADER_SIZE
  const IPV4_PADDING := [0, 0, 0, 0, 0, 0, 0, 0, 0, 0, 0, 0]

  datatype Ip = V4(octets: Buffer) | V6(octets: Buffer)

  type IpAddr = ip: Ip | |ip.octets| == (if ip.V4? then 4 else 16) witness V4([0, 0, 0, 0])

  datatype SocketAddr = SocketAddr(ip: IpAddr, port: U16)

  datatype Datagram = Datagram(source: SocketAddr, destination: SocketAddr,
                               appName: Option<Buffer>, payload: Buffer)

  datatype RecvState =
    | Length
    | FixedHeader
    | AppName(n: nat)
    | Payload(n: nat)
    | Dropping(n: nat)

  /** The fields of a decoder, as a value. */
  datatype State = State(recv: RecvState, totalLength: nat, buffer: Buffer,
                         source: Option<SocketAddr>, destination: Option<SocketAddr>,
                         appName: Option<Buffer>)

  const INIT := State(Length, 0, [], None, None, None)

  // ---------------------------------------------------------------- addresses

  function GetFixedSizeIp(b: Buffer): IpAddr
    requires |b| == ADDR_SIZE
  {
    if b[..12] == IPV4_PADDING then V4(b[12..]) else V6(b)
  }

  function PutFixedSizeIp(ip: IpAddr): (b: Buffer)
    ensures |b| == ADDR_SIZE
  {
    if ip.V4? then IPV4_PADDING + ip.octets else ip.octets
  }

  /** An address survives the wire unless it is an IPv6 address whose first 12
      bytes are zero, which comes back as IPv4. */
  predicate Unambiguous(ip: IpAddr) {
    ip.V6? ==> ip.octets[..12] != IPV4_PADDING
  }

  lemma FixedSizeIpRoundTrip(ip: IpAddr)
    ensures GetFixedSizeIp(PutFixedSizeIp(ip)) == ip <==> Unambiguous(ip)
  {
  }

  /** The IPv6 loopback address comes back as 0.0.0.1. */
  lemma LoopbackReadAsV4()
    ensures GetFixedSizeIp(PutFixedSizeIp(V6([0, 0, 0, 0, 0, 0, 0, 0, 0, 0, 0, 0, 0, 0, 0, 1]))) == V4([0, 0, 0, 1])
  {
    var b: Buffer := [0, 0, 0, 0, 0, 0, 0, 0, 0, 0, 0, 0, 0, 0, 0, 1];
    assert b[..12] == IPV4_PADDING && b[12..] == [0, 0, 0, 1];
  }

  // ------------------------------------------------------- one field at a time

  /** The size of the field that is being received. */
  function Need(s: State): nat {
    match s.recv
    case Length => LENGTH_SIZE
    case FixedHeader => FIXED_HEADER_SIZE
    case AppName(n) => n
    case Payload(n) => n
    case Dropping(n) => n
  }

  /** Every state that a decoder can be in. */
  ghost predicate Valid(s: State) {
    && s.totalLength < 0x1_0000_0000
    && (if s.recv.Dropping? || Need(s) == 0 then s.buffer == [] else |s.buffer| < Need(s))
    && (s.recv.FixedHeader? || s.recv.AppName? ==> s.totalLength >= FIXED_HEADER_SIZE)
    && (s.recv.AppName? ==> s.recv.n <= 255 && s.totalLength >= FIXED_HEADER_SIZE + s.recv.n)
    && (s.recv.AppName? || s.recv.Payload? ==> s.source.Some? && s.destination.Some?)
    && (s.recv.Payload? ==> s.appName.Some?)
  }

  lemma InitIsValid()
    ensures Valid(INIT)
  {
  }

  /** What a complete field makes of a decoder, and the datagram it completes. */
  function Finish(s: State, field: Buffer): (r: (State, seq<Datagram>))
    requires Valid(s) && |field| == Need(s) && !s.recv.Dropping?
    ensures Valid(r.0) && r.0.buffer == []
    ensures Need(s) == 0 ==> Rank(r.0) < Rank(s)
  {
    var s0 := s.(buffer := []);
    match s.recv
    case Length =>
      var total := GetU32(field, 0);
      (s0.(totalLength := total,
           recv := if total >= FIXED_HEADER_SIZE then FixedHeader else Dropping(total)), [])
    case FixedHeader =>
      var nameLength := field[36];
      var s1 := s0.(source := Some(SocketAddr(GetFixedSizeIp(field[..16]), GetU16(field, 16))),
                    destination := Some(SocketAddr(GetFixedSizeIp(field[18..34]), GetU16(field, 34))));
      (if s.totalLength > MAX_IN_PAYLOAD_SIZE - nameLength
          || s.totalLength < FIXED_HEADER_SIZE + nameLength
       then s1.(recv := Dropping(s.totalLength - FIXED_HEADER_SIZE))
       else s1.(recv := AppName(nameLength)), [])
    case AppName(n) =>
      var rest := s.totalLength - FIXED_HEADER_SIZE - n;
      (if IsUtf8(field) then s0.(appName := Some(field), recv := Payload(rest))
       else s0.(recv := Dropping(rest)), [])
    case Payload(n) =>
      (s0.(recv := Length, appName := None),
       [Datagram(s.source.value, s.destination.value, s.appName, field)])
  }

  function Rank(s: State): nat {
    match s.recv
    case AppName(_) => 2
    case Payload(_) => 1
    case Dropping(_) => 1
    case _ => 0
  }

  // ------------------------------------------------------ the reference decoder

  /** One byte, by the wire layout alone: an empty field is complete as soon as a
      byte arrives behind it, and a dropped packet swallows exactly its own bytes. */
  function ByteStep(s: State, b: Byte): (r: (State, seq<Datagram>))
    requires Valid(s)
    ensures Valid(r.0)
    decreases Rank(s)
  {
    if s.recv.Dropping? then
      if s.recv.n == 0 then ByteStep(s.(recv := Length), b)
      else (s.(recv := if s.recv.n == 1 then Length else Dropping(s.recv.n - 1)), [])
    else if Need(s) == 0 then
      var r0 := Finish(s, []);
      var r1 := ByteStep(r0.0, b);
      (r1.0, r0.1 + r1.1)
    else if |s.buffer| + 1 < Need(s) then (s.(buffer := s.buffer + [b]), [])
    else Finish(s, s.buffer + [b])
  }

  function Feed(s: State, bytes: Buffer): (r: (State, seq<Datagram>))
    requires Valid(s)
    ensures Valid(r.0)
    decreases |bytes|
  {
    if bytes == [] then (s, [])
    else
      var r0 := ByteStep(s, bytes[0]);
      After(r0.1, Feed(r0.0, bytes[1..]))
  }

  /** A run whose first datagrams are `ds`. */
  function After(ds: seq<Datagram>, r: (State, seq<Datagram>)): (State, seq<Datagram>) {
    if ds == [] then r else (r.0, ds + r.1)
  }

  lemma FeedStep(s: State, data: Buffer)
    requires Valid(s) && data != []
    ensures var r := ByteStep(s, data[0]); Feed(s, data) == After(r.1, Feed(r.0, data[1..]))
  {
  }

  lemma FeedNothing(s: State)
    requires Valid(s)
    ensures Feed(s, []) == (s, [])
  {
  }

  lemma AfterAfter(ds: seq<Datagram>, es: seq<Datagram>, r: (State, seq<Datagram>))
    ensures After(ds, After(es, r)) == After(ds + es, r)
  {
    assert ds == [] ==> ds + es == es;
    assert es == [] ==> ds + es == ds;
    assert ds + (es + r.1) == ds + es + r.1;
  }

  lemma {:induction false} FeedAppend(s: State, a: Buffer, b: Buffer)
    requires Valid(s)
    ensures Feed(s, a + b) == After(Feed(s, a).1, Feed(Feed(s, a).0, b))
    decreases |a|
  {
    if a == [] {
      assert a + b == b;
    } else {
      var r := ByteStep(s, a[0]);
      assert (a + b)[1..] == a[1..] + b;
      FeedAppend(r.0, a[1..], b);
      AfterAfter(r.1, Feed(r.0, a[1..]).1, Feed(Feed(s, a).0, b));
    }
  }

  /** The reference takes a field byte by byte: too few bytes are kept ... */
  lemma {:induction false} FeedPartial(s: State, data: Buffer)
    requires Valid(s) && !s.recv.Dropping? && |s.buffer| + |data| < Need(s)
    ensures Feed(s, data) == (s.(buffer := s.buffer + data), [])
    decreases |data|
  {
    if data == [] {
      assert s.buffer + data == s.buffer;
    } else {
      var s1 := s.(buffer := s.buffer + [data[0]]);
      assert ByteStep(s, data[0]) == (s1, []);
      FeedPartial(s1, data[1..]);
      assert s.buffer + [data[0]] + data[1..] == s.buffer + data;
    }
  }

  lemma FinishIgnoresBuffer(s: State, buffer: Buffer, field: Buffer)
    requires Valid(s) && Valid(s.(buffer := buffer)) && !s.recv.Dropping? && |field| == Need(s)
    ensures Finish(s.(buffer := buffer), field) == Finish(s, field)
  {
  }

  lemma {:induction false} FeedNonEmptyField(s: State, data: Buffer)
    requires Valid(s) && !s.recv.Dropping? && 0 < Need(s) <= |s.buffer| + |data|
    ensures var k := Need(s) - |s.buffer|;
            var r := Finish(s, s.buffer + data[..k]);
            Feed(s, data) == After(r.1, Feed(r.0, data[k..]))
    decreases |data|
  {
    hide Finish, Feed;
    FeedStep(s, data);
    var k := Need(s) - |s.buffer|;
    if k == 1 {
      assert data[..1] == [data[0]];
    } else {
      var s1 := s.(buffer := s.buffer + [data[0]]);
      FeedNonEmptyField(s1, data[1..]);
      assert s1.buffer + data[1..][..k - 1] == s.buffer + data[..k];
      assert data[1..][k - 1..] == data[k..];
      FinishIgnoresBuffer(s, s1.buffer, s.buffer + data[..k]);
      assert Feed(s, data) == Feed(s1, data[1..]);
    }
  }

  /** ... and enough of them complete it. */
  lemma {:induction false} FeedField(s: State, data: Buffer)
    requires Valid(s) && !s.recv.Dropping? && data != []
    requires Need(s) <= |s.buffer| + |data|
    ensures var k := Need(s) - |s.buffer|;
            var r := Finish(s, s.buffer + data[..k]);
            Feed(s, data) == After(r.1, Feed(r.0, data[k..]))
  {
    var k := Need(s) - |s.buffer|;
    if k == 0 {
      assert s.buffer + data[..k] == [] && data[k..] == data;
      var r0 := Finish(s, []);
      AfterAfter(r0.1, ByteStep(r0.0, data[0]).1, Feed(ByteStep(r0.0, data[0]).0, data[1..]));
    } else {
      FeedNonEmptyField(s, data);
    }
  }

  // ------------------------------------------------- the decoder as it is written

  /** One pass of the decoder's loop. The dropping arm hands back the bytes it
      discards and keeps none of the others. */
  function Once(s: State, data: Buffer): (r: (State, seq<Datagram>, Buffer))
    requires Valid(s) && data != []
    ensures Valid(r.0) && |r.1| <= 1 && |r.2| <= |data|
    ensures r.1 != [] ==> r.0.recv.Length?
    ensures |r.2| == |data| ==> Rank(r.0) < Rank(s) || (s.recv.Dropping? && r.0.recv.Dropping? && r.0.recv.n < s.recv.n)
  {
    if s.recv.Dropping? then
      var drop := Min(s.recv.n, |data|);
      (s.(recv := if s.recv.n <= drop then Length else Dropping(s.recv.n - drop)), [], data[..drop])
    else
      var missing := Need(s) - |s.buffer|;
      if |data| < missing then (s.(buffer := s.buffer + data), [], [])
      else
        var r := Finish(s, s.buffer + data[..missing]);
        (r.0, r.1, data[missing..])
  }

  function ToDrop(s: State): nat {
    if s.recv.Dropping? then s.recv.n else 0
  }

  datatype DecodeResult = WantMore | Complete(datagram: Datagram, tail: Buffer)

  /** The decoder on one chunk. It terminates from every state because each pass
      shortens the data, lowers the rank or has less left to drop. */
  function DecodeChunk(s: State, data: Buffer): (r: (State, DecodeResult))
    requires Valid(s)
    ensures Valid(r.0)
    ensures r.1.Complete? ==> |r.1.tail| <= |data| && r.0.recv.Length?
    ensures r.1.Complete? && |r.1.tail| == |data| ==> Rank(s) > 0
    decreases |data|, Rank(s), ToDrop(s)
  {
    if data == [] then (s, WantMore)
    else
      var o := Once(s, data);
      if o.1 != [] then (o.0, Complete(o.1[0], o.2)) else DecodeChunk(o.0, o.2)
  }

  /** All the datagrams of one chunk: each tail is fed back. */
  function DriveChunk(s: State, data: Buffer): (r: (State, seq<Datagram>))
    requires Valid(s)
    ensures Valid(r.0)
    decreases |data|, Rank(s)
  {
    var r := DecodeChunk(s, data);
    match r.1
    case WantMore => (r.0, [])
    case Complete(d, tail) => After([d], DriveChunk(r.0, tail))
  }

  function Drive(s: State, chunks: seq<Buffer>): (r: (State, seq<Datagram>))
    requires Valid(s)
    ensures Valid(r.0)
    decreases |chunks|
  {
    if chunks == [] then (s, [])
    else
      var r := DriveChunk(s, chunks[0]);
      After(r.1, Drive(r.0, chunks[1..]))
  }

  // ------------------------------------------------- every split gives the same

  /** No byte of the stream arrives while a packet is being dropped. */
  ghost predicate Clean(s: State, bytes: Buffer)
    requires Valid(s)
    decreases |bytes|
  {
    bytes == [] || (!s.recv.Dropping? && Clean(ByteStep(s, bytes[0]).0, bytes[1..]))
  }

  lemma {:induction false} CleanAppend(s: State, a: Buffer, b: Buffer)
    requires Valid(s)
    ensures Clean(s, a + b) <==> Clean(s, a) && Clean(Feed(s, a).0, b)
    decreases |a|
  {
    if a == [] {
      assert a + b == b;
    } else {
      assert (a + b)[1..] == a[1..] + b;
      CleanAppend(ByteStep(s, a[0]).0, a[1..], b);
    }
  }

  /** On a clean stream one pass of the loop loses nothing of what is to come. */
  lemma {:induction false} OnceKeepsFuture(s: State, data: Buffer)
    requires Valid(s) && data != [] && Clean(s, data)
    ensures var o := Once(s, data);
            Feed(s, data) == After(o.1, Feed(o.0, o.2)) && Clean(o.0, o.2)
  {
    var missing := Need(s) - |s.buffer|;
    if |data| < missing {
      FeedPartial(s, data);
    } else {
      FeedField(s, data);
      FieldKeepsClean(s, data);
    }
  }

  lemma {:induction false} FieldKeepsClean(s: State, data: Buffer)
    requires Valid(s) && data != [] && Clean(s, data) && Need(s) <= |s.buffer| + |data|
    ensures var k := Need(s) - |s.buffer|; Clean(Finish(s, s.buffer + data[..k]).0, data[k..])
  {
    hide Feed;
    var k := Need(s) - |s.buffer|;
    if k == 0 {
      assert s.buffer + data[..k] == [] && data[k..] == data;
      var s1 := Finish(s, []).0;
      assert ByteStep(s, data[0]).0 == ByteStep(s1, data[0]).0;
    } else {
      FeedField(s, data[..k]);
      assert data[..k][..k] == data[..k] && data[..k][k..] == [];
      FeedNothing(Finish(s, s.buffer + data[..k]).0);
      assert data == data[..k] + data[k..];
      CleanAppend(s, data[..k], data[k..]);
    }
  }

  lemma {:induction false} DecodeChunkKeepsFuture(s: State, data: Buffer)
    requires Valid(s) && Clean(s, data)
    ensures var r := DecodeChunk(s, data);
            match r.1
            case WantMore => Feed(s, data) == (r.0, [])
            case Complete(d, tail) => Feed(s, data) == After([d], Feed(r.0, tail)) && Clean(r.0, tail)
    decreases |data|, Rank(s), ToDrop(s)
  {
    if data != [] {
      OnceKeepsFuture(s, data);
      var o := Once(s, data);
      if o.1 == [] {
        DecodeChunkKeepsFuture(o.0, o.2);
      } else {
        assert o.1 == [o.1[0]];
      }
    }
  }

  lemma {:induction false} DriveChunkIsFeed(s: State, data: Buffer)
    requires Valid(s) && Clean(s, data)
    ensures DriveChunk(s, data) == Feed(s, data)
    decreases |data|, Rank(s)
  {
    DecodeChunkKeepsFuture(s, data);
    var r := DecodeChunk(s, data);
    if r.1.Complete? {
      DriveChunkIsFeed(r.0, r.1.tail);
    }
  }

  /** However a clean stream is cut into chunks, the driver yields the datagrams
      and ends in the state of the byte-at-a-time reference. */
  lemma {:induction false} DriveIsFeed(s: State, chunks: seq<Buffer>)
    requires Valid(s) && Clean(s, Concat(chunks))
    ensures Drive(s, chunks) == Feed(s, Concat(chunks))
    decreases |chunks|
  {
    if chunks != [] {
      CleanAppend(s, chunks[0], Concat(chunks[1..]));
      FeedAppend(s, chunks[0], Concat(chunks[1..]));
      DriveChunkIsFeed(s, chunks[0]);
      DriveIsFeed(Feed(s, chunks[0]).0, chunks[1..]);
    }
  }

  /** Chunk-boundary independence. */
  lemma SplitsAgree(s: State, chunks: seq<Buffer>, chunks': seq<Buffer>)
    requires Valid(s) && Concat(chunks) == Concat(chunks') && Clean(s, Concat(chunks))
    ensures Drive(s, chunks) == Drive(s, chunks')
  {
    DriveIsFeed(s, chunks);
    DriveIsFeed(s, chunks');
  }

  /** The driver follows the wire layout on `bytes`: whatever part of the stream
      has arrived, in whatever chunks. */
  ghost predicate FollowsLayout(s: State, bytes: Buffer)
    requires Valid(s)
  {
    forall chunks: seq<Buffer> :: Concat(chunks) <= bytes ==> Drive(s, chunks) == Feed(s, Concat(chunks))
  }

  /** A byte that arrives while a packet is dropped is misread. */
  lemma DroppingMisreads(s: State, b: Byte)
    requires Valid(s) && s.recv.Dropping?
    ensures DriveChunk(s, [b]).0 != ByteStep(s, b).0
    decreases s.recv.n
  {
    var o := Once(s, [b]);
    if s.recv.n > 1 {
      assert o.2 == [b];
      DroppingLeavesByte(o.0, b);
    } else if s.recv.n == 1 {
      assert o.2 == [b];
      DroppingLeavesByte(s, b);
    } else {
      assert o.2 == [];
      assert DecodeChunk(s, [b]) == DecodeChunk(s.(recv := Length), []);
      assert s.(recv := Length).buffer + [b] == [b];
    }
  }

  lemma {:induction false} DroppingLeavesByte(s: State, b: Byte)
    requires Valid(s) && s.recv.Dropping? && s.recv.n > 0
    ensures DecodeChunk(s, [b]) == (s.(recv := Length, buffer := [b]), WantMore)
    decreases s.recv.n
  {
    var o := Once(s, [b]);
    assert o.2 == [b];
    if s.recv.n > 1 {
      DroppingLeavesByte(o.0, b);
    } else {
      assert [] + [b] == [b];
      assert DecodeChunk(o.0, [b]) == DecodeChunk(s.(recv := Length, buffer := [b]), []);
    }
  }

  /** The driver follows the layout on a stream exactly when the stream is clean. */
  lemma FollowsLayoutIffClean(s: State, bytes: Buffer)
    requires Valid(s)
    ensures FollowsLayout(s, bytes) <==> Clean(s, bytes)
  {
    hide Clean, Feed, Drive, Concat, Valid;
    if Clean(s, bytes) {
      forall chunks: seq<Buffer> | Concat(chunks) <= bytes
        ensures Drive(s, chunks) == Feed(s, Concat(chunks))
      {
        assert bytes == Concat(chunks) + bytes[|Concat(chunks)|..];
        CleanAppend(s, Concat(chunks), bytes[|Concat(chunks)|..]);
        DriveIsFeed(s, chunks);
      }
    } else {
      var k := FirstDropped(s, bytes);
      var chunks := [bytes[..k], [bytes[k]]];
      ConcatPair(bytes[..k], [bytes[k]]);
      assert bytes[..k] + [bytes[k]] == bytes[..k + 1];
      SplitMisread(s, bytes[..k], bytes[k]);
      assert Concat(chunks) <= bytes;
    }
  }

  lemma ConcatPair(a: Buffer, b: Buffer)
    ensures Concat([a, b]) == a + b
  {
    assert [a, b][1..] == [b] && [b][1..] == [];
    assert Concat([b]) == b;
  }

  lemma SplitMisread(s: State, a: Buffer, b: Byte)
    requires Valid(s) && Clean(s, a) && Feed(s, a).0.recv.Dropping?
    ensures Drive(s, [a, [b]]) != Feed(s, a + [b])
  {
    var s1 := Feed(s, a).0;
    DriveChunkIsFeed(s, a);
    FeedAppend(s, a, [b]);
    DroppingMisreads(s1, b);
    assert [a, [b]][1..] == [[b]] && [[b]][1..] == [] && [b][1..] == [];
    assert Drive(s1, [[b]]).0 == DriveChunk(s1, [b]).0;
    assert Feed(s1, [b]).0 == ByteStep(s1, b).0;
  }

  lemma {:induction false} FirstDropped(s: State, bytes: Buffer) returns (k: nat)
    requires Valid(s) && !Clean(s, bytes)
    ensures k < |bytes| && Clean(s, bytes[..k]) && Feed(s, bytes[..k]).0.recv.Dropping?
    decreases |bytes|
  {
    if s.recv.Dropping? {
      k := 0;
    } else {
      var k0 := FirstDropped(ByteStep(s, bytes[0]).0, bytes[1..]);
      k := k0 + 1;
      assert bytes[..k][1..] == bytes[1..][..k0];
    }
  }
}
