/** The walk over IPv6 extension headers: where it ends, and when it moves past the packet. */
module IcmpExtensions {
  import opened Bytes
  import opened Icmp
  import opened IcmpMatching

  /** A header of a kind, as long as the code takes it to be. */
  predicate SteppedOver(kind: Byte, header: Buffer) {
    if HasLengthOctet(kind) then |header| >= 2 && |header| == 2 + header[1] as int
    else kind == FRAGMENT && |header| == 8
  }

  /** Headers that name each other, from kind `next` to kind `last`. */
  predicate IsChain(next: Byte, headers: seq<Buffer>, last: Byte)
    decreases |headers|
  {
    if headers == [] then last == next
    else SteppedOver(next, headers[0]) && IsChain(headers[0][0], headers[1..], last)
  }

  /** A chain at the start of a packet's rest, and what is behind it. */
  ghost predicate ChainOf(next: Byte, rest: Buffer, headers: seq<Buffer>, last: Byte, tail: Buffer) {
    IsChain(next, headers, last) && rest == Concat(headers) + tail
  }

  /** The last header of a chain names no further one, or is cut off. */
  predicate Stops(last: Byte, tail: Buffer) {
    if HasLengthOctet(last) then |tail| < 2 || tail[1] as int > |tail| - 2
    else last == FRAGMENT ==> |tail| < 8
  }

  /** What the walk makes of the header where it stops. */
  function StopsWith(last: Byte, tail: Buffer): Skipped
    requires Stops(last, tail)
  {
    if HasLengthOctet(last) then (if |tail| < 2 then Invalid else Panic)
    else if last == FRAGMENT then Invalid
    else Payload(last, tail)
  }

  lemma {:induction false} ChainWalked(next: Byte, rest: Buffer, headers: seq<Buffer>, last: Byte, tail: Buffer)
    requires ChainOf(next, rest, headers, last, tail)
    ensures SkipExtensions(next, rest) == SkipExtensions(last, tail)
    decreases |headers|
  {
    if headers == [] {
      assert rest == tail;
    } else {
      var h, more := headers[0], Concat(headers[1..]) + tail;
      assert rest == h + more;
      assert rest[0] == h[0] && rest[1] == h[1] && rest[|h|..] == more;
      ChainWalked(h[0], more, headers[1..], last, tail);
    }
  }

  /** Every walk follows one chain to where it stops. */
  lemma {:induction false} WalkIsChain(next: Byte, rest: Buffer) returns (headers: seq<Buffer>, last: Byte, tail: Buffer)
    ensures ChainOf(next, rest, headers, last, tail) && Stops(last, tail)
    decreases |rest|
  {
    if Stops(next, rest) || !(HasLengthOctet(next) || next == FRAGMENT) {
      headers, last, tail := [], next, rest;
      assert rest == Concat([]) + rest;
    } else {
      var n := if HasLengthOctet(next) then 2 + rest[1] as int else 8;
      var h := rest[..n];
      headers, last, tail := WalkIsChain(rest[0], rest[n..]);
      assert ([h] + headers)[1..] == headers;
      assert rest == h + (Concat(headers) + tail) == Concat([h] + headers) + tail;
      headers := [h] + headers;
    }
  }

  /** The outcome of the walk is decided by the header where a chain stops. */
  lemma WalkEnds(next: Byte, rest: Buffer, headers: seq<Buffer>, last: Byte, tail: Buffer)
    requires ChainOf(next, rest, headers, last, tail) && Stops(last, tail)
    ensures SkipExtensions(next, rest) == StopsWith(last, tail)
  {
    ChainWalked(next, rest, headers, last, tail);
  }

  /** A header whose length octet exceeds what is behind it. */
  predicate Overruns(last: Byte, tail: Buffer) {
    HasLengthOctet(last) && |tail| >= 2 && tail[1] as int > |tail| - 2
  }

  /** The walk moves past the end exactly when a chain of headers leads to one that overruns. */
  lemma PanicIff(next: Byte, rest: Buffer)
    ensures SkipExtensions(next, rest).Panic?
       <==> exists headers, last, tail :: ChainOf(next, rest, headers, last, tail) && Overruns(last, tail)
  {
    if SkipExtensions(next, rest).Panic? {
      var headers, last, tail := WalkIsChain(next, rest);
      WalkEnds(next, rest, headers, last, tail);
      assert ChainOf(next, rest, headers, last, tail) && Overruns(last, tail);
    }
    if headers, last, tail :| ChainOf(next, rest, headers, last, tail) && Overruns(last, tail) {
      WalkEnds(next, rest, headers, last, tail);
    }
  }

  /** A message stops the program exactly when it is an error with a known code that
      quotes a whole IPv6 header with such a chain behind it. */
  lemma MessagePanicsIff(message: Buffer)
    ensures RecoveredV6(message).Panics?
       <==> && |message| >= MIN_V6_ERROR && IsV6Error(message[0]) && KnownV6Code(message[0], message[1])
            && SkipExtensions(message[14], message[MIN_V6_ERROR..]).Panic?
  {
    hide SkipExtensions, EchoAtStart;
    if |message| >= MIN_V6_ERROR {
      var data := message[8..];
      assert data[6] == message[14] && data[MIN_IPV6_HEADER..] == message[MIN_V6_ERROR..];
    }
  }

  /** A quote behind a header with fragment headers at most never does, whatever follows. */
  lemma PlainHeaderNeverPanics(typeId: Byte, code: Byte, own: Buffer, header: Buffer, payload: Buffer)
    requires IsV6Error(typeId) && |own| == 6 && PlainV6Header(header)
    ensures !RecoveredV6(ErrorMessage(typeId, code, own, header + payload)).Panics?
  {
    hide RecoveredV6, ErrorMessage, SkipIpv6, EchoAtStart, PlainV6Header;
    V6ErrorRead(typeId, code, own, header + payload);
    V6HeaderSkipped(header, payload);
  }

  /** A time-exceeded message of 50 bytes that stops the program. */
  lemma OverrunPanics(base: Buffer)
    requires |base| == MIN_IPV6_HEADER && base[6] == 0
    ensures RecoveredV6(ErrorMessage(3, 0, [0, 0, 0, 0, 0, 0], base + [ICMPV6, 255])) == Panics
  {
    var quote := base + [ICMPV6, 255];
    V6ErrorRead(3, 0, [0, 0, 0, 0, 0, 0], quote);
    assert quote[MIN_IPV6_HEADER..] == [ICMPV6, 255];
  }
}
