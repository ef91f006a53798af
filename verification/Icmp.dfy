/** ICMP and ICMPv6 messages: echo serialisation, parsing, and the request an error quotes. */
module Icmp {
  import opened Bytes
  import opened Checksum

  const MIN_IPV4_HEADER := 20
  const MIN_IPV6_HEADER := 40
  const ECHO_HEADER := 8
  /** The common header, the smallest IPv4 header and the first 8 bytes it carried. */
  const MIN_V4_ERROR := 8 + MIN_IPV4_HEADER + 8
  const MIN_V6_ERROR := 8 + MIN_IPV6_HEADER

  const ICMP: Byte := 1
  const ICMPV6: Byte := 58
  const FRAGMENT: Byte := 44
  const V4_ECHO: Byte := 8
  const V6_ECHO: Byte := 128

  datatype Echo = Echo(code: Byte, identifier: U16, sequenceNumber: U16, data: Buffer)

  /** The equality of echoes that requests are matched by. */
  predicate SameEcho(a: Echo, b: Echo) {
    && a.identifier == b.identifier
    && a.sequenceNumber == b.sequenceNumber
    && if |a.data| >= |b.data| then b.data <= a.data else a.data <= b.data
  }

  datatype DeserializeError =
    | InvalidLength
    | MessageType(typeId: Byte)
    | DestinationUnreachableCode(code: Byte)
    | TimeExceededCode(code: Byte)

  // ------------------------------------------------------------------ echo messages

  function Unsummed(e: Echo, typeId: Byte): (r: Buffer)
    ensures |r| == ECHO_HEADER + |e.data|
  {
    [typeId, 0, 0, 0] + PutU16(e.identifier) + PutU16(e.sequenceNumber) + e.data
  }

  function EchoPacket(e: Echo, typeId: Byte): (r: Buffer)
    ensures |r| == ECHO_HEADER + |e.data|
  {
    var packet := Unsummed(e, typeId);
    WithChecksum(packet, FoldOnce(WordSum(packet) % U32_END))
  }

  method SerializeEcho(e: Echo, typeId: Byte) returns (packet: Buffer)
    ensures packet == EchoPacket(e, typeId)
  {
    packet := [typeId];
    packet := packet + [0];
    packet := packet + PutU16(0);
    packet := packet + PutU16(e.identifier);
    packet := packet + PutU16(e.sequenceNumber);
    packet := packet + e.data;
    assert packet == Unsummed(e, typeId);
    var checksum := Rfc1071Checksum(packet);
    packet := packet[..2] + PutU16(checksum) + packet[4..];
  }

  function ParseEcho(packet: Buffer): Echo
    requires |packet| >= ECHO_HEADER
  {
    Echo(packet[1], GetU16(packet, 4), GetU16(packet, 6), packet[8..])
  }

  /** A serialised echo, cut anywhere after its header, parses to the echo with as
      much of its data, its code sent as 0. */
  lemma EchoReadBack(e: Echo, typeId: Byte, k: nat)
    requires ECHO_HEADER <= k <= ECHO_HEADER + |e.data|
    ensures EchoPacket(e, typeId)[0] == typeId
    ensures ParseEcho(EchoPacket(e, typeId)[..k]) == Echo(0, e.identifier, e.sequenceNumber, e.data[..k - ECHO_HEADER])
  {
  }

  lemma EchoSum(e: Echo, typeId: Byte)
    requires ECHO_HEADER + |e.data| <= MAX_SUMMABLE
    ensures EchoPacket(e, typeId) == WithChecksum(Unsummed(e, typeId), FoldOnce(WordSum(Unsummed(e, typeId))))
  {
    hide FoldOnce, WordSum, WithChecksum;
    var packet := Unsummed(e, typeId);
    FitsIff(|packet|);
    assert WordSum(packet) / 0x1_0000 + WordSum(packet) < U32_END;
  }

  /** An IPv4 echo request of any size up to 2^17 bytes verifies exactly when one fold suffices. */
  lemma EchoVerifiesIff(e: Echo)
    requires ECHO_HEADER + |e.data| <= MAX_SUMMABLE
    ensures Verifies(EchoPacket(e, V4_ECHO)) <==> FoldsOnce(WordSum(Unsummed(e, V4_ECHO)))
  {
    hide FoldOnce, WordSum, WithChecksum, Verifies, FoldsOnce, EchoPacket;
    EchoSum(e, V4_ECHO);
    SentVerifiesIff(Unsummed(e, V4_ECHO));
  }

  /** What an ICMPv6 receiver sums before the message (section 8.1 of RFC 8200). */
  function PseudoHeader(source: Buffer, destination: Buffer, length: nat): (r: Buffer)
    requires |source| == |destination| == 16 && length < U32_END
    ensures |r| == 40
  {
    source + destination + PutU32(length) + [0, 0, 0, ICMPV6]
  }

  /** The checksum of an ICMPv6 echo request leaves the pseudo-header out, so a receiver
      accepts it exactly when the words of that header, and a missed carry, sum to a
      multiple of 2^16 - 1. */
  lemma V6EchoVerifiesIff(e: Echo, source: Buffer, destination: Buffer)
    requires ECHO_HEADER + |e.data| <= MAX_SUMMABLE && |source| == |destination| == 16
    ensures var header := PseudoHeader(source, destination, ECHO_HEADER + |e.data|);
            Verifies(header + EchoPacket(e, V6_ECHO)) <==>
            (WordSum(header) + if FoldsOnce(WordSum(Unsummed(e, V6_ECHO))) then 0 else 1) % 0xFFFF == 0
  {
    hide FoldOnce, WordSum, WithChecksum, Verifies, FoldsOnce, EchoPacket, PseudoHeader;
    EchoSum(e, V6_ECHO);
    SentBehindVerifiesIff(PseudoHeader(source, destination, ECHO_HEADER + |e.data|), Unsummed(e, V6_ECHO));
  }

  /** An echo request whose fold carries, and which no receiver accepts. */
  lemma EchoRefused()
    ensures !Verifies(EchoPacket(Echo(0, 0xFFFF, 0xF7FF, [0, 1]), V4_ECHO))
  {
    var e := Echo(0, 0xFFFF, 0xF7FF, [0, 1]);
    var packet := Unsummed(e, V4_ECHO);
    EchoVerifiesIff(e);
    assert packet == [8, 0, 0, 0, 0xFF, 0xFF, 0xF7, 0xFF, 0, 1];
    assert packet[2..] == [0, 0, 0xFF, 0xFF, 0xF7, 0xFF, 0, 1];
    assert packet[2..][2..] == [0xFF, 0xFF, 0xF7, 0xFF, 0, 1];
    assert packet[2..][2..][2..] == [0xF7, 0xFF, 0, 1];
    assert packet[2..][2..][2..][2..] == [0, 1];
    assert WordSum(packet[2..][2..]) == 0xFFFF + 0xF7FF + 1;
    assert WordSum(packet) == 0x1_FFFF;
  }

  // ------------------------------------------------------------------ IP headers

  function SkipIpv4Header(packet: Buffer): Option<(Byte, Buffer)> {
    if |packet| < MIN_IPV4_HEADER then None
    else
      var headerLength := packet[0] % 16 * 4;
      if headerLength < 20 || headerLength > |packet| then None
      else Some((packet[9], packet[headerLength..]))
  }

  /** Hop-by-hop options, routing and destination options. */
  predicate HasLengthOctet(protocol: Byte) {
    protocol == 0 || protocol == 43 || protocol == 60
  }

  /** `Panic`: the cursor is moved past the end of the packet. */
  datatype Skipped = Invalid | Panic | Payload(protocol: Byte, rest: Buffer)

  function SkipExtensions(next: Byte, rest: Buffer): Skipped
    decreases |rest|
  {
    if HasLengthOctet(next) then
      if |rest| < 2 then Invalid
      else if |rest| - 2 < rest[1] then Panic
      else SkipExtensions(rest[0], rest[2 + rest[1]..])
    else if next == FRAGMENT then
      if |rest| < 8 then Invalid else SkipExtensions(rest[0], rest[8..])
    else
      Payload(next, rest)
  }

  function SkipIpv6(packet: Buffer): Skipped {
    if |packet| < MIN_IPV6_HEADER then Invalid else SkipExtensions(packet[6], packet[MIN_IPV6_HEADER..])
  }

  method SkipIpv6Header(packet: Buffer) returns (r: Skipped)
    ensures r == SkipIpv6(packet)
  {
    if |packet| < MIN_IPV6_HEADER { return Invalid; }
    var nextProtocol, rest := packet[6], packet[MIN_IPV6_HEADER..];
    while HasLengthOctet(nextProtocol) || nextProtocol == FRAGMENT
      invariant SkipExtensions(nextProtocol, rest) == SkipIpv6(packet)
      decreases |rest|
    {
      if HasLengthOctet(nextProtocol) {
        if |rest| < 2 { return Invalid; }
        var extLength := rest[1];
        if |rest| - 2 < extLength { return Panic; }
        nextProtocol, rest := rest[0], rest[2 + extLength..];
      } else {
        if |rest| < 8 { return Invalid; }
        nextProtocol, rest := rest[0], rest[8..];
      }
    }
    r := Payload(nextProtocol, rest);
  }

  // ------------------------------------------------------------------ ICMP for IPv4

  datatype V4 =
    | DestinationUnreachable(code: Byte, data: Buffer)
    | TimeExceeded(code: Byte, data: Buffer)
    | ParameterProblem(code: Byte, octet: Byte, data: Buffer)
    | SourceQuench(code: Byte, data: Buffer)
    | Redirect(code: Byte, gateway: nat, data: Buffer)
    | EchoRequest(echo: Echo)
    | EchoReply(echo: Echo)
    | Timestamp(code: Byte, identifier: U16, sequenceNumber: U16, originate: nat, receive: nat, transmit: nat)
    | TimestampReply(code: Byte, identifier: U16, sequenceNumber: U16, originate: nat, receive: nat, transmit: nat)
    | InformationRequest(code: Byte, identifier: U16, sequenceNumber: U16)
    | InformationReply(code: Byte, identifier: U16, sequenceNumber: U16)

  function DeserializeV4(packet: Buffer): Result<V4, DeserializeError> {
    if packet == [] then Err(InvalidLength)
    else match packet[0]
      case 0 =>
        if |packet| < ECHO_HEADER then Err(InvalidLength) else Ok(V4.EchoReply(ParseEcho(packet)))
      case 3 =>
        if |packet| < MIN_V4_ERROR then Err(InvalidLength)
        else if packet[1] > 5 then Err(DestinationUnreachableCode(packet[1]))
        else Ok(V4.DestinationUnreachable(packet[1], packet[8..]))
      case 4 =>
        if |packet| < MIN_V4_ERROR then Err(InvalidLength) else Ok(V4.SourceQuench(packet[1], packet[8..]))
      case 5 =>
        if |packet| < MIN_V4_ERROR then Err(InvalidLength)
        else Ok(V4.Redirect(packet[1], GetU32(packet, 4), packet[8..]))
      case 8 =>
        if |packet| < ECHO_HEADER then Err(InvalidLength) else Ok(V4.EchoRequest(ParseEcho(packet)))
      case 11 =>
        if |packet| < MIN_V4_ERROR then Err(InvalidLength)
        else if packet[1] > 1 then Err(TimeExceededCode(packet[1]))
        else Ok(V4.TimeExceeded(packet[1], packet[8..]))
      case 12 =>
        if |packet| < MIN_V4_ERROR then Err(InvalidLength)
        else Ok(V4.ParameterProblem(packet[1], packet[4], packet[8..]))
      case 13 =>
        if |packet| != 20 then Err(InvalidLength)
        else Ok(V4.Timestamp(packet[1], GetU16(packet, 4), GetU16(packet, 6),
                             GetU32(packet, 8), GetU32(packet, 12), GetU32(packet, 16)))
      case 14 =>
        if |packet| != 20 then Err(InvalidLength)
        else Ok(V4.TimestampReply(packet[1], GetU16(packet, 4), GetU16(packet, 6),
                                  GetU32(packet, 8), GetU32(packet, 12), GetU32(packet, 16)))
      case 15 =>
        if |packet| != 20 then Err(InvalidLength)
        else Ok(V4.InformationRequest(packet[1], GetU16(packet, 4), GetU16(packet, 6)))
      case 16 =>
        if |packet| != 20 then Err(InvalidLength)
        else Ok(V4.InformationReply(packet[1], GetU16(packet, 4), GetU16(packet, 6)))
      case other => Err(MessageType(other))
  }

  /** The echo request that an IP payload starts with. */
  function EchoAtStart(payload: Buffer, typeId: Byte): Option<Echo> {
    if payload == [] || payload[0] != typeId || |payload| < ECHO_HEADER then None
    else Some(ParseEcho(payload))
  }

  function QuotedV4(data: Buffer): Option<Echo> {
    var skipped := SkipIpv4Header(data);
    if skipped.None? || skipped.value.0 != ICMP then None else EchoAtStart(skipped.value.1, V4_ECHO)
  }

  function RespondedV4(m: V4): Option<Echo> {
    if m.EchoReply? then Some(m.echo)
    else if m.DestinationUnreachable? || m.TimeExceeded? || m.ParameterProblem? || m.SourceQuench? || m.Redirect?
    then QuotedV4(m.data)
    else None
  }

  // ------------------------------------------------------------------ ICMP for IPv6

  datatype V6 =
    | DestinationUnreachable(code: Byte, data: Buffer)
    | PacketTooBig(code: Byte, mtu: nat, data: Buffer)
    | TimeExceeded(code: Byte, data: Buffer)
    | ParameterProblem(code: Byte, octet: nat, data: Buffer)
    | EchoRequest(echo: Echo)
    | EchoReply(echo: Echo)

  function DeserializeV6(packet: Buffer): Result<V6, DeserializeError> {
    if packet == [] then Err(InvalidLength)
    else match packet[0]
      case 1 =>
        if |packet| < MIN_V6_ERROR then Err(InvalidLength)
        else if packet[1] > 6 then Err(DestinationUnreachableCode(packet[1]))
        else Ok(V6.DestinationUnreachable(packet[1], packet[8..]))
      case 2 =>
        if |packet| < MIN_V6_ERROR then Err(InvalidLength)
        else Ok(V6.PacketTooBig(packet[1], GetU32(packet, 4), packet[8..]))
      case 3 =>
        if |packet| < MIN_V6_ERROR then Err(InvalidLength)
        else if packet[1] > 1 then Err(TimeExceededCode(packet[1]))
        else Ok(V6.TimeExceeded(packet[1], packet[8..]))
      case 4 =>
        if |packet| < MIN_V6_ERROR then Err(InvalidLength)
        else Ok(V6.ParameterProblem(packet[1], GetU32(packet, 4), packet[8..]))
      case 128 =>
        if |packet| < ECHO_HEADER then Err(InvalidLength) else Ok(V6.EchoRequest(ParseEcho(packet)))
      case 129 =>
        if |packet| < ECHO_HEADER then Err(InvalidLength) else Ok(V6.EchoReply(ParseEcho(packet)))
      case other => Err(MessageType(other))
  }

  datatype Responded = NoEcho | Panics | Request(echo: Echo)

  function QuotedV6(data: Buffer): Responded {
    match SkipIpv6(data)
    case Invalid => NoEcho
    case Panic => Panics
    case Payload(protocol, payload) =>
      var echo := EchoAtStart(payload, V6_ECHO);
      if protocol != ICMPV6 || echo.None? then NoEcho else Request(echo.value)
  }

  function RespondedV6(m: V6): Responded {
    if m.EchoReply? then Request(m.echo)
    else if m.EchoRequest? then NoEcho
    else QuotedV6(m.data)
  }
}
