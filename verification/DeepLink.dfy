/** The deep-link payload: a configuration as a list of tag-length-value entries. */
module DeepLink {
  import opened Bytes
  import opened Varint

  const CURRENT_VERSION := 2

  type Str = s: Buffer | IsUtf8(s) witness []

  datatype Protocol = Http2 | Http3

  datatype Tag =
    | Version | Hostname | Address | CustomSni | HasIpv6 | Username | Password | SkipVerification
    | Certificate | UpstreamProtocol | AntiDpi | ClientRandomPrefix | Name | DnsUpstreams
    | SubscriptionUrl | ClientRandomAuthKey

  // The tags in the order of their numbers
  const TAGS := [Version, Hostname, Address, CustomSni, HasIpv6, Username, Password, SkipVerification,
                 Certificate, UpstreamProtocol, AntiDpi, ClientRandomPrefix, Name, DnsUpstreams,
                 SubscriptionUrl, ClientRandomAuthKey]

  function TagNumber(tag: Tag): (n: Byte)
    ensures n < |TAGS| && TAGS[n] == tag
  {
    match tag
    case Version => 0x00
    case Hostname => 0x01
    case Address => 0x02
    case CustomSni => 0x03
    case HasIpv6 => 0x04
    case Username => 0x05
    case Password => 0x06
    case SkipVerification => 0x07
    case Certificate => 0x08
    case UpstreamProtocol => 0x09
    case AntiDpi => 0x0A
    case ClientRandomPrefix => 0x0B
    case Name => 0x0C
    case DnsUpstreams => 0x0D
    case SubscriptionUrl => 0x0E
    case ClientRandomAuthKey => 0x0F
  }

  function TagOf(n: Byte): Option<Tag> {
    if n < |TAGS| then Some(TAGS[n]) else None
  }

  datatype Error =
    | UnexpectedEof
    | TruncatedTlv(tag: Byte, expected: nat, got: nat)
    | TruncatedListEntry(expected: nat, got: nat)
    | InvalidUtf8
    | InvalidBoolean(byte: Byte)
    | InvalidProtocol(byte: Byte)
    | UnsupportedVersion(found: nat)
    | InvalidHex
    | InvalidSubscriptionUrl
    | MissingHostname | MissingAddresses | MissingUsername | MissingPassword
    | VarintOverflow(value: nat)

  datatype Config = Config(
    hostname: Option<Str>,
    addresses: seq<Str>,
    username: Option<Str>,
    password: Option<Str>,
    clientRandomPrefix: Option<Str>,
    clientRandomAuthKey: Option<Str>,
    customSni: Option<Str>,
    hasIpv6: bool,
    skipVerification: bool,
    certificate: Option<Buffer>,
    upstreamProtocol: Protocol,
    antiDpi: bool,
    name: Option<Str>,
    dnsUpstreams: seq<Str>,
    subscriptionUrl: Option<Str>)

  const DEFAULTS := Config(None, [], None, None, None, None, None, true, false, None, Http2, false, None, [], None)

  const HTTPS: Buffer := [104, 116, 116, 112, 115, 58, 47, 47] // https://

  predicate Absent(s: Option<Str>) {
    s.None? || s.value == []
  }

  /** A subscription URL must be HTTPS; without one the connection parameters are
      required. */
  function Validate(c: Config): Option<Error> {
    if c.subscriptionUrl.Some? then
      if HTTPS <= c.subscriptionUrl.value then None else Some(InvalidSubscriptionUrl)
    else if Absent(c.hostname) then Some(MissingHostname)
    else if c.addresses == [] then Some(MissingAddresses)
    else if Absent(c.username) then Some(MissingUsername)
    else if Absent(c.password) then Some(MissingPassword)
    else None
  }

  // -------------------------------------------------------------------- decoding

  /** What a hex decoder accepts. */
  predicate IsHex(s: Buffer) {
    |s| % 2 == 0 && forall i | 0 <= i < |s| :: IsHexDigit(s[i])
  }

  function SplitOnce(s: Buffer): (Buffer, Buffer) {
    if s == [] then ([], [])
    else if s[0] == 47 then ([], s[1..])
    else
      var r := SplitOnce(s[1..]);
      ([s[0]] + r.0, r.1)
  }

  /** A prefix in hex, or a prefix and a mask in hex on either side of a slash. */
  predicate IsMaskedHex(s: Buffer) {
    IsHex(SplitOnce(s).0) && IsHex(SplitOnce(s).1)
  }

  function DecodeString(value: Buffer): Result<Str, Error> {
    if IsUtf8(value) then Ok(value) else Err(InvalidUtf8)
  }

  function DecodeBool(value: Buffer): Result<bool, Error> {
    if |value| != 1 then Err(InvalidBoolean(if value == [] then 0xFF else value[0]))
    else if value[0] == 0 then Ok(false)
    else if value[0] == 1 then Ok(true)
    else Err(InvalidBoolean(value[0]))
  }

  function DecodeProtocol(value: Buffer): Result<Protocol, Error> {
    if |value| != 1 then Err(InvalidProtocol(if value == [] then 0xFF else value[0]))
    else if value[0] == 1 then Ok(Http2)
    else if value[0] == 2 then Ok(Http3)
    else Err(InvalidProtocol(value[0]))
  }

  /** A list of strings, each behind its length. */
  function DecodeStrings(rest: Buffer): Result<seq<Str>, Error>
    decreases |rest|
  {
    if rest == [] then Ok([])
    else
      match DecodeVarint(rest, 0)
      case None => Err(UnexpectedEof)
      case Some((len, at)) =>
        if at + len > |rest| then Err(TruncatedListEntry(len, |rest| - at))
        else if !IsUtf8(rest[at..at + len]) then Err(InvalidUtf8)
        else
          var ss :- DecodeStrings(rest[at + len..]);
          Ok([rest[at..at + len]] + ss)
  }

  /** The first entry of a payload: its tag, its value and its size. */
  datatype Entry = Entry(tag: U64, value: Buffer, size: nat)

  function ParseEntry(rest: Buffer): (r: Result<Entry, Error>)
    requires rest != []
    ensures r.Ok? ==> 0 < r.value.size <= |rest|
  {
    match DecodeVarint(rest, 0)
    case None => Err(UnexpectedEof)
    case Some((tag, at)) =>
      match DecodeVarint(rest, at)
      case None => Err(UnexpectedEof)
      case Some((len, start)) =>
        if start + len > |rest| then Err(TruncatedTlv(tag % 256, len, |rest| - start))
        else Ok(Entry(tag, rest[start..start + len], start + len))
  }

  /** What one entry does to the fields collected so far. */
  function ApplyField(c: Config, tag: Tag, value: Buffer): Result<Config, Error> {
    match tag
    case Version =>
      (match DecodeVarint(value, 0)
       case None => Err(UnexpectedEof)
       case Some((v, _)) => if v > CURRENT_VERSION then Err(UnsupportedVersion(v)) else Ok(c))
    case HasIpv6 => var b :- DecodeBool(value); Ok(c.(hasIpv6 := b))
    case SkipVerification => var b :- DecodeBool(value); Ok(c.(skipVerification := b))
    case AntiDpi => var b :- DecodeBool(value); Ok(c.(antiDpi := b))
    case Certificate => Ok(c.(certificate := Some(value)))
    case UpstreamProtocol =>
      var p :- DecodeProtocol(value); Ok(c.(upstreamProtocol := p))
    case DnsUpstreams =>
      var ss :- DecodeStrings(value); Ok(c.(dnsUpstreams := ss))
    case Hostname => var s :- DecodeString(value); Ok(c.(hostname := Some(s)))
    case Address => var s :- DecodeString(value); Ok(c.(addresses := c.addresses + [s]))
    case CustomSni => var s :- DecodeString(value); Ok(c.(customSni := Some(s)))
    case Username => var s :- DecodeString(value); Ok(c.(username := Some(s)))
    case Password => var s :- DecodeString(value); Ok(c.(password := Some(s)))
    case Name => var s :- DecodeString(value); Ok(c.(name := Some(s)))
    case SubscriptionUrl =>
      var s :- DecodeString(value); Ok(c.(subscriptionUrl := Some(s)))
    case ClientRandomPrefix =>
      var s :- DecodeString(value);
      if IsMaskedHex(s) then Ok(c.(clientRandomPrefix := Some(s))) else Err(InvalidHex)
    case ClientRandomAuthKey =>
      var s :- DecodeString(value);
      if IsHex(s) then Ok(c.(clientRandomAuthKey := Some(s))) else Err(InvalidHex)
  }

  /** All the entries of a payload. A tag counts by its low eight bits, and one that
      is not known is passed over. */
  function Fields(rest: Buffer, c: Config): Result<Config, Error>
    decreases |rest|
  {
    if rest == [] then Ok(c)
    else
      var entry :- ParseEntry(rest);
      match TagOf(entry.tag % 256)
      case None => Fields(rest[entry.size..], c)
      case Some(tag) =>
        var c' :- ApplyField(c, tag, entry.value);
        Fields(rest[entry.size..], c')
  }

  function DecodePayload(payload: Buffer): Result<Config, Error> {
    var c :- Fields(payload, DEFAULTS);
    if Validate(c).Some? then Err(Validate(c).value) else Ok(c)
  }

  // -------------------------------------------------------------------- encoding

  function Tlv(tag: U64, value: Buffer): Buffer
    requires tag <= MAX_VARINT && |value| <= MAX_VARINT
  {
    EncodeVarint(tag).value + (EncodeVarint(|value|).value + value)
  }

  datatype Item = Item(tag: Tag, value: Buffer)

  function Opt(tag: Tag, s: Option<Buffer>): seq<Item> {
    if s.Some? then [Item(tag, s.value)] else []
  }

  function OptNonEmpty(tag: Tag, s: Option<Buffer>): seq<Item> {
    if s.Some? && s.value != [] then [Item(tag, s.value)] else []
  }

  function Each(tag: Tag, ss: seq<Str>): seq<Item> {
    if ss == [] then [] else [Item(tag, ss[0])] + Each(tag, ss[1..])
  }

  function EncodeStrings(ss: seq<Str>): Buffer
    requires FitAll(ss)
  {
    if ss == [] then [] else EncodeVarint(|ss[0]|).value + ss[0] + EncodeStrings(ss[1..])
  }

  predicate FitAll(ss: seq<Str>) {
    forall i | 0 <= i < |ss| :: |ss[i]| <= MAX_VARINT
  }

  function Flag(tag: Tag, written: bool, value: Buffer): seq<Item> {
    if written then [Item(tag, value)] else []
  }

  /** The entries of a configuration in the order in which they are written: the
      connection parameters, and then what differs from the defaults. */
  function ParameterItems(c: Config): seq<Item> {
    [Item(Version, [CURRENT_VERSION])]
    + Opt(Hostname, c.hostname)
    + Opt(Username, c.username)
    + Opt(Password, c.password)
    + Each(Address, c.addresses)
    + OptNonEmpty(ClientRandomPrefix, c.clientRandomPrefix)
    + OptNonEmpty(ClientRandomAuthKey, c.clientRandomAuthKey)
  }

  function WithSwitches(before: seq<Item>, c: Config): seq<Item> {
    before
    + Opt(CustomSni, c.customSni)
    + Flag(HasIpv6, !c.hasIpv6, [0])
    + Flag(SkipVerification, c.skipVerification, [1])
    + Flag(AntiDpi, c.antiDpi, [1])
  }

  function WithOptions(before: seq<Item>, c: Config): seq<Item>
    requires FitAll(c.dnsUpstreams)
  {
    before
    + Opt(Certificate, c.certificate)
    + Flag(UpstreamProtocol, c.upstreamProtocol.Http3?, [2])
    + Opt(Name, c.name)
    + Flag(DnsUpstreams, c.dnsUpstreams != [], EncodeStrings(c.dnsUpstreams))
    + Opt(SubscriptionUrl, c.subscriptionUrl)
  }

  function Items(c: Config): seq<Item>
    requires FitAll(c.dnsUpstreams)
  {
    WithOptions(WithSwitches(ParameterItems(c), c), c)
  }

  predicate Writable(items: seq<Item>) {
    forall i | 0 <= i < |items| :: |items[i].value| <= MAX_VARINT
  }

  function EncodeItems(items: seq<Item>): Buffer
    requires Writable(items)
  {
    if items == [] then []
    else Tlv(TagNumber(items[0].tag), items[0].value) + EncodeItems(items[1..])
  }

  /** Whether every length of a configuration has an encoding. */
  predicate Encodable(c: Config) {
    FitAll(c.dnsUpstreams) && Writable(Items(c))
  }

  function EncodePayload(c: Config): Buffer
    requires Encodable(c)
  {
    EncodeItems(Items(c))
  }
}
