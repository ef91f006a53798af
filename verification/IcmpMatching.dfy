/** Every error message that quotes an echo request leads back to that request. */
module IcmpMatching {
  import opened Bytes
  import opened Icmp

  /** What a quote of the first `k` bytes of an echo request tells. */
  function CutEcho(e: Echo, k: nat): (r: Echo)
    requires ECHO_HEADER <= k <= ECHO_HEADER + |e.data|
    ensures SameEcho(r, e) && SameEcho(e, r)
  {
    assert k == ECHO_HEADER + |e.data| ==> e.data[..k - ECHO_HEADER] == e.data;
    Echo(0, e.identifier, e.sequenceNumber, e.data[..k - ECHO_HEADER])
  }

  /** An error message: type, code, checksum and four bytes of its own, then the quote. */
  function ErrorMessage(typeId: Byte, code: Byte, own: Buffer, quote: Buffer): Buffer {
    [typeId, code] + own + quote
  }

  lemma CutEchoRead(e: Echo, typeId: Byte, k: nat)
    requires k <= ECHO_HEADER + |e.data|
    ensures EchoAtStart(EchoPacket(e, typeId)[..k], typeId)
            == if k >= ECHO_HEADER then Some(CutEcho(e, k)) else None
  {
    hide EchoPacket, ParseEcho, SameEcho;
    if k >= ECHO_HEADER {
      EchoReadBack(e, typeId, k);
    }
  }

  // ------------------------------------------------------------------ IPv4

  /** An IPv4 header with any options, carrying ICMP. */
  predicate LegalV4Header(header: Buffer) {
    |header| >= MIN_IPV4_HEADER && header[0] % 16 * 4 == |header| && header[9] == ICMP
  }

  predicate IsV4Error(typeId: Byte) {
    typeId == 3 || typeId == 4 || typeId == 5 || typeId == 11 || typeId == 12
  }

  predicate KnownV4Code(typeId: Byte, code: Byte) {
    (typeId == 3 ==> code <= 5) && (typeId == 11 ==> code <= 1)
  }

  function RecoveredV4(message: Buffer): Option<Echo> {
    var m := DeserializeV4(message);
    if m.Err? then None else RespondedV4(m.value)
  }

  lemma V4HeaderSkipped(header: Buffer, payload: Buffer)
    requires LegalV4Header(header)
    ensures SkipIpv4Header(header + payload) == Some((ICMP, payload))
  {
  }

  lemma V4ErrorRead(typeId: Byte, code: Byte, own: Buffer, quote: Buffer)
    requires IsV4Error(typeId) && |own| == 6
    ensures RecoveredV4(ErrorMessage(typeId, code, own, quote))
            == if |quote| >= MIN_IPV4_HEADER + 8 && KnownV4Code(typeId, code) then QuotedV4(quote) else None
  {
  }

  /** An IPv4 error quoting any cut of an echo request behind any legal header gives
      the request exactly when 8 of its bytes are there and the error's code is known. */
  lemma V4ErrorMatches(e: Echo, typeId: Byte, code: Byte, own: Buffer, header: Buffer, k: nat)
    requires IsV4Error(typeId) && |own| == 6 && LegalV4Header(header)
    requires k <= ECHO_HEADER + |e.data|
    ensures var message := ErrorMessage(typeId, code, own, header + EchoPacket(e, V4_ECHO)[..k]);
            RecoveredV4(message)
            == if k >= ECHO_HEADER && KnownV4Code(typeId, code) then Some(CutEcho(e, k)) else None
  {
    hide EchoPacket, EchoAtStart, SkipIpv4Header, RecoveredV4, ErrorMessage, CutEcho;
    var cut := EchoPacket(e, V4_ECHO)[..k];
    V4ErrorRead(typeId, code, own, header + cut);
    V4HeaderSkipped(header, cut);
    CutEchoRead(e, V4_ECHO, k);
  }

  // ------------------------------------------------------------------ IPv6

  /** A chain of fragment headers that ends in ICMPv6. */
  predicate FragmentsOnly(next: Byte, extensions: Buffer)
    decreases |extensions|
  {
    if next == FRAGMENT then |extensions| >= 8 && FragmentsOnly(extensions[0], extensions[8..])
    else next == ICMPV6 && extensions == []
  }

  /** An IPv6 header with fragment headers at most, carrying ICMPv6. */
  predicate PlainV6Header(header: Buffer) {
    |header| >= MIN_IPV6_HEADER && FragmentsOnly(header[6], header[MIN_IPV6_HEADER..])
  }

  predicate IsV6Error(typeId: Byte) {
    1 <= typeId <= 4
  }

  predicate KnownV6Code(typeId: Byte, code: Byte) {
    (typeId == 1 ==> code <= 6) && (typeId == 3 ==> code <= 1)
  }

  function RecoveredV6(message: Buffer): Responded {
    var m := DeserializeV6(message);
    if m.Err? then NoEcho else RespondedV6(m.value)
  }

  lemma {:induction false} FragmentsSkipped(next: Byte, extensions: Buffer, payload: Buffer)
    requires FragmentsOnly(next, extensions)
    ensures SkipExtensions(next, extensions + payload) == Payload(ICMPV6, payload)
    decreases |extensions|
  {
    if next == FRAGMENT {
      FragmentsSkipped(extensions[0], extensions[8..], payload);
      assert (extensions + payload)[8..] == extensions[8..] + payload;
    } else {
      assert extensions + payload == payload;
    }
  }

  lemma V6HeaderSkipped(header: Buffer, payload: Buffer)
    requires PlainV6Header(header)
    ensures SkipIpv6(header + payload) == Payload(ICMPV6, payload)
  {
    hide SkipExtensions, FragmentsOnly;
    FragmentsSkipped(header[6], header[MIN_IPV6_HEADER..], payload);
    assert (header + payload)[MIN_IPV6_HEADER..] == header[MIN_IPV6_HEADER..] + payload;
  }

  lemma V6ErrorRead(typeId: Byte, code: Byte, own: Buffer, quote: Buffer)
    requires IsV6Error(typeId) && |own| == 6
    ensures RecoveredV6(ErrorMessage(typeId, code, own, quote))
            == if |quote| >= MIN_IPV6_HEADER && KnownV6Code(typeId, code) then QuotedV6(quote) else NoEcho
  {
  }

  /** The same for IPv6, behind a header with fragment headers at most. */
  lemma V6ErrorMatches(e: Echo, typeId: Byte, code: Byte, own: Buffer, header: Buffer, k: nat)
    requires IsV6Error(typeId) && |own| == 6 && PlainV6Header(header)
    requires k <= ECHO_HEADER + |e.data|
    ensures var message := ErrorMessage(typeId, code, own, header + EchoPacket(e, V6_ECHO)[..k]);
            RecoveredV6(message)
            == if k >= ECHO_HEADER && KnownV6Code(typeId, code) then Request(CutEcho(e, k)) else NoEcho
  {
    hide EchoPacket, EchoAtStart, SkipIpv6, RecoveredV6, ErrorMessage, CutEcho;
    var cut := EchoPacket(e, V6_ECHO)[..k];
    V6ErrorRead(typeId, code, own, header + cut);
    V6HeaderSkipped(header, cut);
    CutEchoRead(e, V6_ECHO, k);
  }

  // ------------------------------------------------------------------ other extension headers

  /** An extension header as sections 4.3, 4.4 and 4.6 of RFC 8200 lay it out: its
      length octet counts 8-octet units beyond the first. */
  predicate LegalOptions(extension: Buffer) {
    |extension| >= 8 && |extension| == 8 * (extension[1] as int + 1)
  }

  /** The code stops inside every legal header of these kinds, 6 + 7n octets short of
      its end, and reads what is left as the next header. */
  lemma OptionsCutShort(kind: Byte, extension: Buffer, payload: Buffer)
    requires HasLengthOctet(kind) && LegalOptions(extension)
    ensures var left := extension[2 + extension[1]..];
            && |left| == 6 + 7 * extension[1] as int
            && SkipExtensions(kind, extension + payload) == SkipExtensions(extension[0], left + payload)
  {
    var n := extension[1];
    assert (extension + payload)[2 + n..] == extension[2 + n..] + payload;
  }

  /** An error that quotes a request behind one hop-by-hop header of padding gives nothing. */
  lemma HopByHopUnmatched(e: Echo, base: Buffer, own: Buffer)
    requires |base| == MIN_IPV6_HEADER && base[6] == 0 && |own| == 6
    ensures var padding: Buffer := [ICMPV6, 0, 1, 4, 0, 0, 0, 0];
            LegalOptions(padding)
            && RecoveredV6(ErrorMessage(3, 0, own, base + padding + EchoPacket(e, V6_ECHO))) == NoEcho
  {
    hide EchoPacket, ErrorMessage, RecoveredV6;
    var padding: Buffer := [ICMPV6, 0, 1, 4, 0, 0, 0, 0];
    var packet := EchoPacket(e, V6_ECHO);
    var quote := base + padding + packet;
    V6ErrorRead(3, 0, own, quote);
    assert quote[MIN_IPV6_HEADER..] == padding + packet;
    OptionsCutShort(0, padding, packet);
    assert padding[2..] == [1, 4, 0, 0, 0, 0];
    assert SkipIpv6(quote) == Payload(ICMPV6, padding[2..] + packet);
  }

  // ------------------------------------------------------------------ round trips and the equality

  /** A serialised request parses back, with code 0, in both versions. */
  lemma RequestRoundTrip(e: Echo)
    ensures DeserializeV4(EchoPacket(e, V4_ECHO)) == Ok(V4.EchoRequest(e.(code := 0)))
    ensures DeserializeV6(EchoPacket(e, V6_ECHO)) == Ok(V6.EchoRequest(e.(code := 0)))
  {
    hide EchoPacket, ParseEcho;
    var n := ECHO_HEADER + |e.data|;
    EchoReadBack(e, V4_ECHO, n);
    EchoReadBack(e, V6_ECHO, n);
    assert EchoPacket(e, V4_ECHO)[..n] == EchoPacket(e, V4_ECHO);
    assert EchoPacket(e, V6_ECHO)[..n] == EchoPacket(e, V6_ECHO);
    assert e.data[..|e.data|] == e.data;
  }

  /** A reply that returns the request's data gives the request. */
  lemma ReplyMatches(e: Echo, code: Byte, checksum: U16)
    ensures var body := PutU16(checksum) + PutU16(e.identifier) + PutU16(e.sequenceNumber) + e.data;
            && RecoveredV4([0, code] + body) == Some(e.(code := code))
            && RecoveredV6([129, code] + body) == Request(e.(code := code))
  {
    var body := PutU16(checksum) + PutU16(e.identifier) + PutU16(e.sequenceNumber) + e.data;
    ReplyParsed(e, 0, code, checksum);
    ReplyParsed(e, 129, code, checksum);
  }

  lemma ReplyParsed(e: Echo, typeId: Byte, code: Byte, checksum: U16)
    ensures var body := PutU16(checksum) + PutU16(e.identifier) + PutU16(e.sequenceNumber) + e.data;
            ParseEcho([typeId, code] + body) == e.(code := code)
  {
  }

  /** The equality goes through a middle echo that carries at least as much data as one
      of the outer ones. */
  lemma SameEchoThrough(a: Echo, b: Echo, c: Echo)
    requires SameEcho(a, b) && SameEcho(b, c)
    requires |b.data| >= Min(|a.data|, |c.data|)
    ensures SameEcho(a, c)
  {
  }

  ghost predicate Transitive(la: nat, lb: nat, lc: nat) {
    forall a: Echo, b: Echo, c: Echo |
      |a.data| == la && |b.data| == lb && |c.data| == lc && SameEcho(a, b) && SameEcho(b, c) :: SameEcho(a, c)
  }

  /** For given lengths of data the equality is transitive exactly when the middle one is
      not the shortest. */
  lemma TransitiveIff(la: nat, lb: nat, lc: nat)
    ensures Transitive(la, lb, lc) <==> lb >= Min(la, lc)
  {
    if lb >= Min(la, lc) {
      forall a: Echo, b: Echo, c: Echo |
        |a.data| == la && |b.data| == lb && |c.data| == lc && SameEcho(a, b) && SameEcho(b, c)
        ensures SameEcho(a, c)
      {
        SameEchoThrough(a, b, c);
      }
    } else {
      var zeros := seq(la, _ => 0 as Byte);
      var a, b := Echo(0, 0, 0, zeros), Echo(0, 0, 0, zeros[..lb]);
      var c := Echo(0, 0, 0, seq(lc, i => if i == lb then 1 as Byte else 0));
      assert b.data == c.data[..lb];
      assert SameEcho(a, b) && SameEcho(b, c);
      assert a.data[lb] != c.data[lb];
      assert !SameEcho(a, c);
    }
  }
}
