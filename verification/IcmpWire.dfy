/** Every ICMP message of the layouts of RFC 792 and RFC 4443 is read field by field. */
module IcmpWire {
  import opened Bytes
  import opened Icmp

  function Packet(typeId: Byte, code: Byte, checksum: U16, body: Buffer): Buffer {
    [typeId, code] + PutU16(checksum) + body
  }

  function EchoBody(e: Echo): Buffer {
    PutU16(e.identifier) + PutU16(e.sequenceNumber) + e.data
  }

  function StampBody(identifier: U16, sequenceNumber: U16, originate: nat, receive: nat, transmit: nat): Buffer
    requires originate < 0x1_0000_0000 && receive < 0x1_0000_0000 && transmit < 0x1_0000_0000
  {
    PutU16(identifier) + PutU16(sequenceNumber) + PutU32(originate) + PutU32(receive) + PutU32(transmit)
  }

  // ------------------------------------------------------------------ IPv4

  /** The messages that the code takes, apart from the information messages. */
  predicate LegalV4(m: V4) {
    match m
    case DestinationUnreachable(code, data) => code <= 5 && |data| >= MIN_IPV4_HEADER + 8
    case TimeExceeded(code, data) => code <= 1 && |data| >= MIN_IPV4_HEADER + 8
    case ParameterProblem(code, octet, data) => |data| >= MIN_IPV4_HEADER + 8
    case SourceQuench(code, data) => |data| >= MIN_IPV4_HEADER + 8
    case Redirect(code, gateway, data) => gateway < 0x1_0000_0000 && |data| >= MIN_IPV4_HEADER + 8
    case EchoRequest(_) => true
    case EchoReply(_) => true
    case Timestamp(code, i, n, o, r, t) => o < 0x1_0000_0000 && r < 0x1_0000_0000 && t < 0x1_0000_0000
    case TimestampReply(code, i, n, o, r, t) => o < 0x1_0000_0000 && r < 0x1_0000_0000 && t < 0x1_0000_0000
    case InformationRequest(_, _, _) => false
    case InformationReply(_, _, _) => false
  }

  /** `unused` fills the field that some messages leave free. */
  function WireV4(m: V4, checksum: U16, unused: Buffer): Buffer
    requires LegalV4(m) && |unused| == 4
  {
    match m
    case DestinationUnreachable(code, data) => Packet(3, code, checksum, unused + data)
    case TimeExceeded(code, data) => Packet(11, code, checksum, unused + data)
    case ParameterProblem(code, octet, data) => Packet(12, code, checksum, [octet] + unused[1..] + data)
    case SourceQuench(code, data) => Packet(4, code, checksum, unused + data)
    case Redirect(code, gateway, data) => Packet(5, code, checksum, PutU32(gateway) + data)
    case EchoRequest(e) => Packet(8, e.code, checksum, EchoBody(e))
    case EchoReply(e) => Packet(0, e.code, checksum, EchoBody(e))
    case Timestamp(code, i, n, o, r, t) => Packet(13, code, checksum, StampBody(i, n, o, r, t))
    case TimestampReply(code, i, n, o, r, t) => Packet(14, code, checksum, StampBody(i, n, o, r, t))
  }

  lemma StampRead(typeId: Byte, code: Byte, checksum: U16, i: U16, n: U16, o: nat, r: nat, t: nat)
    requires o < 0x1_0000_0000 && r < 0x1_0000_0000 && t < 0x1_0000_0000
    ensures var p := Packet(typeId, code, checksum, StampBody(i, n, o, r, t));
            && |p| == 20 && p[0] == typeId && p[1] == code
            && GetU16(p, 4) == i && GetU16(p, 6) == n
            && GetU32(p, 8) == o && GetU32(p, 12) == r && GetU32(p, 16) == t
  {
  }

  lemma QuoteRead(typeId: Byte, code: Byte, checksum: U16, field: Buffer, data: Buffer)
    requires |field| == 4
    ensures var p := Packet(typeId, code, checksum, field + data);
            && |p| == 8 + |data| && p[0] == typeId && p[1] == code && p[4] == field[0]
            && p[8..] == data && GetU32(p, 4) == GetU32(field, 0)
  {
  }

  /** Every field of every legal message comes back. */
  lemma V4RoundTrip(m: V4, checksum: U16, unused: Buffer)
    requires LegalV4(m) && |unused| == 4
    ensures DeserializeV4(WireV4(m, checksum, unused)) == Ok(m)
  {
    hide Packet, ParseEcho, EchoBody, StampBody, GetU16, GetU32;
    match m {
      case DestinationUnreachable(code, data) => QuoteRead(3, code, checksum, unused, data);
      case TimeExceeded(code, data) => QuoteRead(11, code, checksum, unused, data);
      case ParameterProblem(code, octet, data) => QuoteRead(12, code, checksum, [octet] + unused[1..], data);
      case SourceQuench(code, data) => QuoteRead(4, code, checksum, unused, data);
      case Redirect(code, gateway, data) => QuoteRead(5, code, checksum, PutU32(gateway), data);
      case EchoRequest(e) => EchoRead(e, 8, checksum);
      case EchoReply(e) => EchoRead(e, 0, checksum);
      case Timestamp(code, i, n, o, r, t) => StampRead(13, code, checksum, i, n, o, r, t);
      case TimestampReply(code, i, n, o, r, t) => StampRead(14, code, checksum, i, n, o, r, t);
    }
  }

  lemma EchoRead(e: Echo, typeId: Byte, checksum: U16)
    ensures var p := Packet(typeId, e.code, checksum, EchoBody(e));
            |p| >= ECHO_HEADER && p[0] == typeId && ParseEcho(p) == e
  {
  }

  /** An information message is taken exactly when it has 20 bytes; those of RFC 792 have 8. */
  lemma InformationTakenIff(typeId: Byte, rest: Buffer)
    requires typeId == 15 || typeId == 16
    ensures DeserializeV4([typeId] + rest).Ok? <==> |rest| == 19
    ensures |rest| == 7 ==> DeserializeV4([typeId] + rest) == Err(InvalidLength)
  {
  }

  // ------------------------------------------------------------------ IPv6

  predicate LegalV6(m: V6) {
    match m
    case DestinationUnreachable(code, data) => code <= 6 && |data| >= MIN_IPV6_HEADER
    case PacketTooBig(code, mtu, data) => mtu < 0x1_0000_0000 && |data| >= MIN_IPV6_HEADER
    case TimeExceeded(code, data) => code <= 1 && |data| >= MIN_IPV6_HEADER
    case ParameterProblem(code, octet, data) => octet < 0x1_0000_0000 && |data| >= MIN_IPV6_HEADER
    case EchoRequest(_) => true
    case EchoReply(_) => true
  }

  function WireV6(m: V6, checksum: U16, unused: Buffer): Buffer
    requires LegalV6(m) && |unused| == 4
  {
    match m
    case DestinationUnreachable(code, data) => Packet(1, code, checksum, unused + data)
    case PacketTooBig(code, mtu, data) => Packet(2, code, checksum, PutU32(mtu) + data)
    case TimeExceeded(code, data) => Packet(3, code, checksum, unused + data)
    case ParameterProblem(code, octet, data) => Packet(4, code, checksum, PutU32(octet) + data)
    case EchoRequest(e) => Packet(128, e.code, checksum, EchoBody(e))
    case EchoReply(e) => Packet(129, e.code, checksum, EchoBody(e))
  }

  lemma V6RoundTrip(m: V6, checksum: U16, unused: Buffer)
    requires LegalV6(m) && |unused| == 4
    ensures DeserializeV6(WireV6(m, checksum, unused)) == Ok(m)
  {
    hide Packet, ParseEcho, EchoBody, GetU32;
    match m {
      case DestinationUnreachable(code, data) => QuoteRead(1, code, checksum, unused, data);
      case PacketTooBig(code, mtu, data) => QuoteRead(2, code, checksum, PutU32(mtu), data);
      case TimeExceeded(code, data) => QuoteRead(3, code, checksum, unused, data);
      case ParameterProblem(code, octet, data) => QuoteRead(4, code, checksum, PutU32(octet), data);
      case EchoRequest(e) => EchoRead(e, 128, checksum);
      case EchoReply(e) => EchoRead(e, 129, checksum);
    }
  }

  // ------------------------------------------------------------------ nothing else is taken

  lemma PacketOf(p: Buffer)
    requires |p| >= 8
    ensures p == Packet(p[0], p[1], GetU16(p, 2), p[4..8] + p[8..])
  {
  }

  lemma PutGetU16(p: Buffer, at: nat)
    requires at + 2 <= |p|
    ensures PutU16(GetU16(p, at)) == p[at..at + 2]
  {
  }

  lemma PutGetU32(p: Buffer, at: nat)
    requires at + 4 <= |p|
    ensures PutU32(GetU32(p, at)) == p[at..at + 4]
  {
    hide PutU16, GetU16;
    PutGetU16(p, at);
    PutGetU16(p, at + 2);
    assert p[at..at + 4] == p[at..at + 2] + p[at + 2..at + 4];
  }

  lemma EchoOf(p: Buffer)
    requires |p| >= 8
    ensures EchoBody(ParseEcho(p)) == p[4..8] + p[8..]
  {
  }

  lemma StampOf(p: Buffer)
    requires |p| == 20
    ensures StampBody(GetU16(p, 4), GetU16(p, 6), GetU32(p, 8), GetU32(p, 12), GetU32(p, 16)) == p[4..8] + p[8..]
  {
    hide PutU16, GetU16, PutU32, GetU32;
    PutGetU16(p, 4); PutGetU16(p, 6);
    PutGetU32(p, 8); PutGetU32(p, 12); PutGetU32(p, 16);
    assert p[4..6] + p[6..8] + p[8..12] + p[12..16] + p[16..20] == p[4..8] + p[8..];
  }

  /** A message that parses is the wire form of what it parses to: two messages that
      parse alike differ in checksum and free field at most. */
  lemma V4TakenIsWire(p: Buffer)
    requires DeserializeV4(p).Ok? && p[0] != 15 && p[0] != 16
    ensures var m := DeserializeV4(p).value;
            LegalV4(m) && p == WireV4(m, GetU16(p, 2), p[4..8])
  {
    hide Packet, EchoBody, StampBody, ParseEcho, PutU16, GetU16, PutU32, GetU32;
    PacketOf(p);
    var m := DeserializeV4(p).value;
    if m.EchoRequest? || m.EchoReply? {
      EchoOf(p);
      EchoCode(p);
    } else if m.Redirect? {
      PutGetU32(p, 4);
    } else if m.ParameterProblem? {
      assert p[4..8] == [p[4]] + p[4..8][1..];
    } else if m.Timestamp? || m.TimestampReply? {
      StampOf(p);
    }
  }

  lemma V6TakenIsWire(p: Buffer)
    requires DeserializeV6(p).Ok?
    ensures var m := DeserializeV6(p).value;
            LegalV6(m) && p == WireV6(m, GetU16(p, 2), p[4..8])
  {
    hide Packet, EchoBody, ParseEcho, PutU16, GetU16, PutU32, GetU32;
    PacketOf(p);
    var m := DeserializeV6(p).value;
    if m.EchoRequest? || m.EchoReply? {
      EchoOf(p);
      EchoCode(p);
    } else if m.PacketTooBig? || m.ParameterProblem? {
      PutGetU32(p, 4);
    }
  }

  lemma EchoCode(p: Buffer)
    requires |p| >= 8
    ensures ParseEcho(p).code == p[1]
  {
  }
}
