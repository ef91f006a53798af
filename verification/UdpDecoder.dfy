/** The datagram decoder and its driver as the objects that are updated in place. */
module UdpDecoder {
  import opened Bytes
  import opened UdpCodec

  class Decoder {
    var recv: RecvState
    var totalLength: nat
    var buffer: Buffer
    var source: Option<SocketAddr>
    var destination: Option<SocketAddr>
    var appName: Option<Buffer>

    ghost function View(): State
      reads this
    {
      State(recv, totalLength, buffer, source, destination, appName)
    }

    constructor ()
      ensures View() == INIT
    {
      recv, totalLength, buffer := RecvState.Length, 0, [];
      source, destination, appName := None, None, None;
    }

    method BufferedRead(input: Buffer, cap: nat) returns (r: Option<(Buffer, Buffer)>)
      requires |buffer| < cap || (cap == 0 && buffer == [])
      modifies this`buffer
      ensures |old(buffer)| + |input| < cap ==> r == None && buffer == old(buffer) + input
      ensures |old(buffer)| + |input| >= cap ==>
                var k := cap - |old(buffer)|;
                r == Some((old(buffer) + input[..k], input[k..])) && buffer == []
    {
      var toDrain := Min(|input|, cap - |buffer|);
      buffer := buffer + input[..toDrain];
      var rest := input[toDrain..];
      if |buffer| < cap {
        assert rest == [];
        return None;
      }
      r := Some((buffer, rest));
      buffer := [];
    }

    method ProcessClientLength(data: Buffer) returns (tail: Buffer)
      requires Valid(View()) && recv.Length? && data != []
      modifies this
      ensures (View(), [], tail) == Once(old(View()), data)
    {
      var r := BufferedRead(data, LENGTH_SIZE);
      if r.None? { return []; }
      totalLength := GetU32(r.value.0, 0);
      recv := if totalLength >= FIXED_HEADER_SIZE then FixedHeader else Dropping(totalLength);
      tail := r.value.1;
    }

    method ProcessClientFixedHeader(data: Buffer) returns (tail: Buffer)
      requires Valid(View()) && recv.FixedHeader? && data != []
      modifies this
      ensures (View(), [], tail) == Once(old(View()), data)
    {
      var r := BufferedRead(data, FIXED_HEADER_SIZE);
      if r.None? { return []; }
      var header := r.value.0;
      source := Some(SocketAddr(GetFixedSizeIp(header[..16]), GetU16(header, 16)));
      destination := Some(SocketAddr(GetFixedSizeIp(header[18..34]), GetU16(header, 34)));
      var appNameLength := header[36];
      if totalLength > MAX_IN_PAYLOAD_SIZE - appNameLength {
        recv := Dropping(totalLength - FIXED_HEADER_SIZE);
      } else if totalLength >= FIXED_HEADER_SIZE + appNameLength {
        recv := AppName(appNameLength);
      } else {
        recv := Dropping(totalLength - FIXED_HEADER_SIZE);
      }
      tail := r.value.1;
    }

    method ProcessClientAppName(length: nat, data: Buffer) returns (tail: Buffer)
      requires Valid(View()) && recv == AppName(length) && data != []
      modifies this
      ensures (View(), [], tail) == Once(old(View()), data)
    {
      var r := BufferedRead(data, length);
      if r.None? { return []; }
      var payloadLength := totalLength - FIXED_HEADER_SIZE - length;
      if IsUtf8(r.value.0) {
        appName := Some(r.value.0);
        recv := Payload(payloadLength);
      } else {
        recv := Dropping(payloadLength);
      }
      tail := r.value.1;
    }

    method ProcessClientPayload(length: nat, data: Buffer) returns (d: Option<Datagram>, tail: Buffer)
      requires Valid(View()) && recv == Payload(length) && data != []
      modifies this
      ensures (View(), if d.Some? then [d.value] else [], tail) == Once(old(View()), data)
    {
      var toSend;
      if buffer == [] && |data| >= length {
        toSend, tail := data[..length], data[length..];
        assert buffer + data[..length] == toSend;
      } else {
        var toDrain := Min(|data|, length - |buffer|);
        buffer := buffer + data[..toDrain];
        tail := data[toDrain..];
        if |buffer| < length {
          assert data[..toDrain] == data && tail == [];
          return None, tail;
        }
        toSend := buffer;
        buffer := [];
      }
      recv := RecvState.Length;
      d := Some(Datagram(source.value, destination.value, appName, toSend));
      appName := None;
    }

    method DecodeChunkOnce(data: Buffer) returns (d: Option<Datagram>, tail: Buffer)
      requires Valid(View()) && data != []
      modifies this
      ensures (View(), if d.Some? then [d.value] else [], tail) == Once(old(View()), data)
    {
      d := None;
      match recv {
        case Length => tail := ProcessClientLength(data);
        case FixedHeader => tail := ProcessClientFixedHeader(data);
        case AppName(length) => tail := ProcessClientAppName(length, data);
        case Payload(length) => d, tail := ProcessClientPayload(length, data);
        case Dropping(remaining) =>
          var toDrop := Min(remaining, |data|);
          recv := if remaining <= toDrop then RecvState.Length else Dropping(remaining - toDrop);
          tail := data[..toDrop];
      }
    }

    method DecodeChunk(chunk: Buffer) returns (r: DecodeResult)
      requires Valid(View())
      modifies this
      ensures Valid(View()) && (View(), r) == UdpCodec.DecodeChunk(old(View()), chunk)
    {
      var data := chunk;
      while data != []
        invariant Valid(View())
        invariant UdpCodec.DecodeChunk(View(), data) == UdpCodec.DecodeChunk(old(View()), chunk)
        decreases |data|, Rank(View()), ToDrop(View())
      {
        var d, tail := DecodeChunkOnce(data);
        if d.Some? {
          return Complete(d.value, tail);
        }
        data := tail;
      }
      r := WantMore;
    }
  }

  /** Reads datagrams out of a request body: `source` holds the chunks that the
      body has still to deliver before its end. */
  class DatagramDecoder {
    const decoder: Decoder
    var pendingBytes: seq<Buffer>
    var source: seq<Buffer>
    var consumed: nat

    constructor (body: seq<Buffer>)
      ensures fresh(decoder) && decoder.View() == INIT
      ensures pendingBytes == [] && source == body && consumed == 0
    {
      decoder := new Decoder();
      pendingBytes, source, consumed := [], body, 0;
    }

    /** The datagrams still to come, and the state the decoder will end in. */
    ghost function Future(): (State, seq<Datagram>)
      reads this, decoder
      requires Valid(decoder.View())
    {
      Drive(decoder.View(), pendingBytes + source)
    }

    /** The next chunk: a tail that was put back, or else one read from the body
        and acknowledged to it. */
    method NextChunk() returns (chunk: Option<Buffer>)
      modifies this
      ensures chunk.None? ==> old(pendingBytes + source) == [] == pendingBytes + source
      ensures chunk.Some? ==> old(pendingBytes + source) == [chunk.value] + (pendingBytes + source)
      ensures consumed - old(consumed) == |Concat(old(source))| - |Concat(source)|
    {
      if pendingBytes != [] {
        chunk, pendingBytes := Some(pendingBytes[0]), pendingBytes[1..];
      } else if source != [] {
        chunk, source := Some(source[0]), source[1..];
        consumed := consumed + |chunk.value|;
      } else {
        chunk := None;
      }
    }

    /** Takes the next datagram off the future; `None` is the end of the body. */
    method Read() returns (r: Option<Datagram>)
      requires Valid(decoder.View())
      modifies this, decoder
      ensures Valid(decoder.View())
      ensures r.Some? ==> old(Future()) == After([r.value], Future())
      ensures r.None? ==> old(Future()) == (decoder.View(), []) && pendingBytes + source == []
      ensures consumed - old(consumed) == |Concat(old(source))| - |Concat(source)|
    {
      hide UdpCodec.DecodeChunk, Drive, Concat, Valid;
      while true
        invariant Valid(decoder.View())
        invariant Future() == old(Future())
        invariant consumed - old(consumed) == |Concat(old(source))| - |Concat(source)|
        decreases |pendingBytes + source|
      {
        ghost var s, all := decoder.View(), pendingBytes + source;
        var chunk := NextChunk();
        if chunk.None? {
          FutureAtEnd(s);
          return None;
        }
        ghost var rest := pendingBytes + source;
        assert all[1..] == rest;
        var result := decoder.DecodeChunk(chunk.value);
        if result.Complete? {
          if result.tail != [] {
            pendingBytes := [result.tail] + pendingBytes;
            assert pendingBytes + source == [result.tail] + rest;
          }
          FutureAfterDatagram(s, all, decoder.View(), result, pendingBytes + source);
          return Some(result.datagram);
        }
        FutureWantsMore(s, all, decoder.View());
      }
    }
  }

  lemma FutureAtEnd(s: State)
    requires Valid(s)
    ensures Drive(s, []) == (s, [])
  {
  }

  lemma FutureWantsMore(s: State, all: seq<Buffer>, s': State)
    requires Valid(s) && all != [] && UdpCodec.DecodeChunk(s, all[0]) == (s', WantMore)
    ensures Drive(s, all) == Drive(s', all[1..])
  {
  }

  lemma FutureAfterDatagram(s: State, all: seq<Buffer>, s': State, result: DecodeResult, all': seq<Buffer>)
    requires Valid(s) && all != [] && UdpCodec.DecodeChunk(s, all[0]) == (s', result) && result.Complete?
    requires all' == if result.tail == [] then all[1..] else [result.tail] + all[1..]
    ensures Drive(s, all) == After([result.datagram], Drive(s', all'))
  {
    var tail := DriveChunk(s', result.tail);
    AfterAfter([result.datagram], tail.1, Drive(tail.0, all[1..]));
    if result.tail != [] {
      assert all'[1..] == all[1..];
    }
  }
}
