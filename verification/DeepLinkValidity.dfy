/** Which configurations and payloads are taken, and how the others are refused. */
module DeepLinkValidity {
  import opened Bytes
  import opened Varint
  import opened DeepLink
  import opened DeepLinkRoundTrip

  // ------------------------------------------------------------------ complete configurations

  predicate Given(s: Option<Str>) {
    s.Some? && |s.value| > 0
  }

  /** An HTTPS subscription URL, or no such URL and all connection parameters. */
  predicate Complete(c: Config) {
    || (c.subscriptionUrl.Some? && HTTPS <= c.subscriptionUrl.value)
    || (c.subscriptionUrl.None? && Given(c.hostname) && |c.addresses| > 0 && Given(c.username) && Given(c.password))
  }

  lemma ValidateIff(c: Config)
    ensures Validate(c).None? <==> Complete(c)
  {
  }

  /** Every configuration that comes out of a payload is complete. */
  lemma DecodedIsComplete(payload: Buffer)
    requires DecodePayload(payload).Ok?
    ensures Complete(DecodePayload(payload).value)
  {
  }

  /** A payload whose entries are all taken is decoded exactly when they make a complete
      configuration. */
  lemma DecodedIff(payload: Buffer)
    requires Fields(payload, DEFAULTS).Ok?
    ensures DecodePayload(payload).Ok? <==> Complete(Fields(payload, DEFAULTS).value)
    ensures DecodePayload(payload).Ok? ==> DecodePayload(payload).value == Fields(payload, DEFAULTS).value
  {
  }

  // ------------------------------------------------------------------ a required field is missing

  predicate Required(tag: Tag) {
    tag == Hostname || tag == Address || tag == Username || tag == Password
  }

  function MissingError(tag: Tag): Error
    requires Required(tag)
  {
    match tag
    case Hostname => MissingHostname
    case Address => MissingAddresses
    case Username => MissingUsername
    case Password => MissingPassword
  }

  /** The items without those of one tag. */
  function Without(items: seq<Item>, tag: Tag): seq<Item> {
    if items == [] then []
    else (if items[0].tag == tag then [] else [items[0]]) + Without(items[1..], tag)
  }

  lemma {:induction false} WithoutAppend(a: seq<Item>, b: seq<Item>, tag: Tag)
    ensures Without(a + b, tag) == Without(a, tag) + Without(b, tag)
    decreases |a|
  {
    if a == [] {
      assert a + b == b;
    } else {
      assert (a + b)[1..] == a[1..] + b;
      WithoutAppend(a[1..], b, tag);
      var first := if a[0].tag == tag then [] else [a[0]];
      assert first + (Without(a[1..], tag) + Without(b, tag)) == first + Without(a[1..], tag) + Without(b, tag);
    }
  }

  lemma {:induction false} WithoutNone(items: seq<Item>, tag: Tag)
    requires forall i | 0 <= i < |items| :: items[i].tag != tag
    ensures Without(items, tag) == items
    decreases |items|
  {
    if items != [] {
      WithoutNone(items[1..], tag);
    }
  }

  lemma {:induction false} WithoutAll(items: seq<Item>, tag: Tag)
    requires forall i | 0 <= i < |items| :: items[i].tag == tag
    ensures Without(items, tag) == []
    decreases |items|
  {
    if items != [] {
      WithoutAll(items[1..], tag);
    }
  }

  lemma {:induction false} EachTag(tag: Tag, ss: seq<Str>)
    ensures forall i | 0 <= i < |Each(tag, ss)| :: Each(tag, ss)[i].tag == tag
    decreases |ss|
  {
    if ss != [] {
      EachTag(tag, ss[1..]);
    }
  }

  /** The configuration without what one required tag carries. */
  function Lacking(c: Config, tag: Tag): Config
    requires Required(tag)
  {
    match tag
    case Hostname => c.(hostname := None)
    case Address => c.(addresses := [])
    case Username => c.(username := None)
    case Password => c.(password := None)
  }

  function RequiredItems(c: Config): seq<Item> {
    Opt(Hostname, c.hostname) + Opt(Username, c.username) + Opt(Password, c.password) + Each(Address, c.addresses)
  }

  function OtherItems(c: Config): seq<Item>
    requires FitAll(c.dnsUpstreams)
  {
    OptNonEmpty(ClientRandomPrefix, c.clientRandomPrefix) + OptNonEmpty(ClientRandomAuthKey, c.clientRandomAuthKey)
    + Opt(CustomSni, c.customSni) + Flag(HasIpv6, !c.hasIpv6, [0]) + Flag(SkipVerification, c.skipVerification, [1])
    + Flag(AntiDpi, c.antiDpi, [1]) + Opt(Certificate, c.certificate)
    + Flag(UpstreamProtocol, c.upstreamProtocol.Http3?, [2]) + Opt(Name, c.name)
    + Flag(DnsUpstreams, c.dnsUpstreams != [], EncodeStrings(c.dnsUpstreams)) + Opt(SubscriptionUrl, c.subscriptionUrl)
  }

  lemma ItemsParts(c: Config)
    requires FitAll(c.dnsUpstreams)
    ensures Items(c) == [Item(Version, [CURRENT_VERSION])] + RequiredItems(c) + OtherItems(c)
  {
    hide Opt, OptNonEmpty, Each, Flag, EncodeStrings, FitAll;
  }

  lemma WithoutRequired(c: Config, tag: Tag)
    requires Required(tag)
    ensures Without(RequiredItems(c), tag) == RequiredItems(Lacking(c, tag))
  {
    hide Each, Without;
    var h, u, p, a := Opt(Hostname, c.hostname), Opt(Username, c.username), Opt(Password, c.password), Each(Address, c.addresses);
    EachTag(Address, c.addresses);
    WithoutAppend(h + u + p, a, tag);
    WithoutAppend(h + u, p, tag);
    WithoutAppend(h, u, tag);
    WithoutPart(h, Hostname, tag);
    WithoutPart(u, Username, tag);
    WithoutPart(p, Password, tag);
    WithoutPart(a, Address, tag);
    assert Each(Address, []) == [] by { NoneEach(); }
  }

  lemma NoneEach()
    ensures Each(Address, []) == []
  {
  }

  lemma WithoutPart(items: seq<Item>, own: Tag, tag: Tag)
    requires forall i | 0 <= i < |items| :: items[i].tag == own
    ensures Without(items, tag) == if own == tag then [] else items
  {
    if own == tag {
      WithoutAll(items, tag);
    } else {
      WithoutNone(items, tag);
    }
  }

  /** Leaving out the entries of a required tag writes the configuration that lacks it. */
  lemma WithoutIsItems(c: Config, tag: Tag)
    requires FitAll(c.dnsUpstreams) && Required(tag)
    ensures Without(Items(c), tag) == Items(Lacking(c, tag))
  {
    hide RequiredItems, OtherItems, Items, Without, EncodeStrings, FitAll, Lacking;
    var v, others := [Item(Version, [CURRENT_VERSION])], OtherItems(c);
    OthersSame(c, tag);
    OthersNotRequired(c);
    ItemsParts(c);
    ItemsParts(Lacking(c, tag));
    WithoutAppend(v + RequiredItems(c), others, tag);
    WithoutAppend(v, RequiredItems(c), tag);
    WithoutRequired(c, tag);
    WithoutNone(v, tag);
    assert forall i | 0 <= i < |others| :: !Required(others[i].tag);
    WithoutNone(others, tag);
  }

  predicate NoneRequired(items: seq<Item>) {
    forall i | 0 <= i < |items| :: !Required(items[i].tag)
  }

  lemma OthersSame(c: Config, tag: Tag)
    requires FitAll(c.dnsUpstreams) && Required(tag)
    ensures FitAll(Lacking(c, tag).dnsUpstreams) && OtherItems(Lacking(c, tag)) == OtherItems(c)
  {
    hide Opt, OptNonEmpty, Flag, EncodeStrings, FitAll;
  }

  lemma FirstOthersNotRequired(c: Config) returns (items: seq<Item>)
    ensures NoneRequired(items)
    ensures items == OptNonEmpty(ClientRandomPrefix, c.clientRandomPrefix) + OptNonEmpty(ClientRandomAuthKey, c.clientRandomAuthKey)
                     + Opt(CustomSni, c.customSni) + Flag(HasIpv6, !c.hasIpv6, [0]) + Flag(SkipVerification, c.skipVerification, [1])
  {
    hide NoneRequired;
    items := OptNonEmpty(ClientRandomPrefix, c.clientRandomPrefix);
    assert NoneRequired(items) by { OneNotRequired(items); }
    items := ThenOther(items, OptNonEmpty(ClientRandomAuthKey, c.clientRandomAuthKey));
    items := ThenOther(items, Opt(CustomSni, c.customSni));
    items := ThenOther(items, Flag(HasIpv6, !c.hasIpv6, [0]));
    items := ThenOther(items, Flag(SkipVerification, c.skipVerification, [1]));
  }

  lemma OthersNotRequired(c: Config)
    requires FitAll(c.dnsUpstreams)
    ensures NoneRequired(OtherItems(c))
  {
    hide EncodeStrings, FitAll, NoneRequired, OptNonEmpty;
    var items := FirstOthersNotRequired(c);
    items := ThenOther(items, Flag(AntiDpi, c.antiDpi, [1]));
    items := ThenOther(items, Opt(Certificate, c.certificate));
    items := ThenOther(items, Flag(UpstreamProtocol, c.upstreamProtocol.Http3?, [2]));
    items := ThenOther(items, Opt(Name, c.name));
    items := ThenOther(items, Flag(DnsUpstreams, c.dnsUpstreams != [], EncodeStrings(c.dnsUpstreams)));
    items := ThenOther(items, Opt(SubscriptionUrl, c.subscriptionUrl));
  }

  lemma OneNotRequired(items: seq<Item>)
    requires |items| <= 1 && (items != [] ==> !Required(items[0].tag))
    ensures NoneRequired(items)
  {
  }

  lemma ThenOther(items: seq<Item>, part: seq<Item>) returns (r: seq<Item>)
    requires NoneRequired(items) && |part| <= 1 && (part != [] ==> !Required(part[0].tag))
    ensures r == items + part && NoneRequired(r)
  {
    r := items + part;
  }

  /** Items that say nothing about required fields or the subscription URL. */
  predicate Aside(items: seq<Item>) {
    forall i | 0 <= i < |items| :: !Required(items[i].tag) && items[i].tag != SubscriptionUrl
  }

  lemma {:induction false} AsideKeeps(c: Config, items: seq<Item>)
    requires Aside(items) && ApplyItems(c, items).Ok?
    ensures var r := ApplyItems(c, items).value;
            && r.hostname == c.hostname && r.addresses == c.addresses && r.username == c.username
            && r.password == c.password && r.subscriptionUrl == c.subscriptionUrl
    decreases |items|
  {
    hide IsUtf8, IsMaskedHex, IsHex, DecodeStrings, DecodeVarint;
    if items != [] {
      AsideKeeps(ApplyField(c, items[0].tag, items[0].value).value, items[1..]);
    }
  }

  /** Take a complete configuration without a subscription URL and leave out all entries of
      one required tag. The payload decodes to exactly that field's error, whatever other
      entries follow that are taken themselves. */
  lemma MissingFieldRefused(c: Config, tag: Tag, more: seq<Item>)
    requires Complete(c) && c.subscriptionUrl.None? && HexOk(c) && FitAll(c.dnsUpstreams) && Required(tag)
    requires Aside(more) && Writable(Without(Items(c), tag) + more)
    requires ApplyItems(Normalise(Lacking(c, tag)), more).Ok?
    ensures DecodePayload(EncodeItems(Without(Items(c), tag) + more)) == Err(MissingError(tag))
  {
    hide ApplyItems, Items, Fields, EncodeItems, HexOk, FitAll, Aside, Without, Writable;
    var lacking := Lacking(c, tag);
    WithoutIsItems(c, tag);
    FieldsOfItems(Items(lacking) + more, DEFAULTS);
    ApplyItemsAppend(DEFAULTS, Items(lacking), more);
    assert HexOk(lacking) by { LackingHexOk(c, tag); }
    ItemsApplied(lacking);
    AsideKeeps(Normalise(lacking), more);
  }

  lemma LackingHexOk(c: Config, tag: Tag)
    requires HexOk(c) && Required(tag)
    ensures HexOk(Lacking(c, tag))
  {
  }

  /** A subscription URL that is not HTTPS is refused, whatever else is there. */
  lemma OtherUrlRefused(payload: Buffer)
    requires Fields(payload, DEFAULTS).Ok?
    requires var c := Fields(payload, DEFAULTS).value; c.subscriptionUrl.Some? && !(HTTPS <= c.subscriptionUrl.value)
    ensures DecodePayload(payload) == Err(InvalidSubscriptionUrl)
  {
  }

  // ------------------------------------------------------------------ the values of a tag

  /** Two digits a byte. */
  ghost predicate Spells(s: Buffer, bs: Buffer) {
    |s| == 2 * |bs| && forall i | 0 <= i < |bs| ::
      IsHexDigit(s[2 * i]) && IsHexDigit(s[2 * i + 1]) && bs[i] as int == 16 * HexDigit(s[2 * i]) + HexDigit(s[2 * i + 1])
  }

  /** Hex text is text that spells bytes. */
  lemma IsHexIff(s: Buffer)
    ensures IsHex(s) <==> exists bs :: Spells(s, bs)
  {
    if IsHex(s) {
      var bs: Buffer := seq(|s| / 2, i requires 0 <= i < |s| / 2 => 16 * HexDigit(s[2 * i]) + HexDigit(s[2 * i + 1]));
      assert Spells(s, bs);
    }
    if bs :| Spells(s, bs) {
      forall i | 0 <= i < |s| ensures IsHexDigit(s[i]) {
        assert i == 2 * (i / 2) || i == 2 * (i / 2) + 1;
        assert bs[i / 2] as int == 16 * HexDigit(s[2 * (i / 2)]) + HexDigit(s[2 * (i / 2) + 1]);
      }
    }
  }

  /** A prefix alone is hex as a whole. */
  lemma PlainHexIff(s: Buffer)
    requires 47 !in s
    ensures IsMaskedHex(s) <==> IsHex(s)
  {
    SplitWithout(s);
  }

  lemma {:induction false} SplitWithout(s: Buffer)
    requires 47 !in s
    ensures SplitOnce(s) == (s, [])
  {
    if s != [] {
      SplitWithout(s[1..]);
      assert [s[0]] + s[1..] == s;
    }
  }

  lemma {:induction false} SplitAtSlash(a: Buffer, b: Buffer)
    requires 47 !in a
    ensures SplitOnce(a + [47] + b) == (a, b)
    decreases |a|
  {
    var s := a + [47] + b;
    if a == [] {
      assert s[1..] == b;
    } else {
      assert s[1..] == a[1..] + [47] + b;
      SplitAtSlash(a[1..], b);
      assert [a[0]] + a[1..] == a;
    }
  }

  /** A prefix and a mask are hex each. */
  lemma MaskedHexIff(prefix: Buffer, mask: Buffer)
    requires 47 !in prefix
    ensures IsMaskedHex(prefix + [47] + mask) <==> IsHex(prefix) && IsHex(mask)
  {
    SplitAtSlash(prefix, mask);
  }

  /** An entry that is cut within its value tells its tag, its length and how much is there. */
  lemma CutEntryTold(tag: U64, value: Buffer, n: nat)
    requires tag <= MAX_VARINT && |value| <= MAX_VARINT && n < |value|
    ensures var header := EncodeVarint(tag).value + EncodeVarint(|value|).value;
            header + value == Tlv(tag, value) && header != []
            && ParseEntry(header + value[..n]) == Err(TruncatedTlv(tag % 256, |value|, n))
  {
    hide DecodeVarint, EncodeVarint;
    VarintRoundTrip(tag);
    VarintRoundTrip(|value|);
    var t, l := EncodeVarint(tag).value, EncodeVarint(|value|).value;
    var all := t + l + value[..n];
    assert all == [] + (t + (l + value[..n])) == t + (l + value[..n]);
    VarintReadAt([], tag, l + value[..n]);
    VarintReadAt(t, |value|, value[..n]);
  }

  predicate IsText(tag: Tag) {
    tag == Hostname || tag == Address || tag == CustomSni || tag == Username || tag == Password || tag == Name
    || tag == SubscriptionUrl
  }

  predicate IsSwitch(tag: Tag) {
    tag == HasIpv6 || tag == SkipVerification || tag == AntiDpi
  }

  /** The values that each tag takes. */
  predicate Acceptable(tag: Tag, value: Buffer) {
    && (IsText(tag) ==> IsUtf8(value))
    && (IsSwitch(tag) ==> value == [0] || value == [1])
    && (tag == UpstreamProtocol ==> value == [1] || value == [2])
    && (tag == Version ==> DecodeVarint(value, 0).Some? && DecodeVarint(value, 0).value.0 <= 2)
    && (tag == DnsUpstreams ==> DecodeStrings(value).Ok?)
    && (tag == ClientRandomPrefix ==> IsUtf8(value) && IsMaskedHex(value))
    && (tag == ClientRandomAuthKey ==> IsUtf8(value) && IsHex(value))
  }

  /** An entry is taken exactly when its value is one that its tag takes, whatever the
      fields before it. */
  lemma FieldTakenIff(c: Config, tag: Tag, value: Buffer)
    ensures ApplyField(c, tag, value).Ok? <==> Acceptable(tag, value)
  {
    hide IsUtf8, IsMaskedHex, IsHex, DecodeStrings, DecodeVarint;
  }

  /** A refused entry tells why. */
  lemma RefusalTold(c: Config, tag: Tag, value: Buffer)
    requires !Acceptable(tag, value)
    ensures var r := ApplyField(c, tag, value);
            && (IsText(tag) ==> r == Err(InvalidUtf8))
            && (IsSwitch(tag) ==> r == Err(InvalidBoolean(if value == [] then 0xFF else value[0])))
            && (tag == UpstreamProtocol ==> r == Err(InvalidProtocol(if value == [] then 0xFF else value[0])))
            && (tag == Version ==> r == if DecodeVarint(value, 0).None? then Err(UnexpectedEof)
                                        else Err(UnsupportedVersion(DecodeVarint(value, 0).value.0)))
            && (tag == ClientRandomPrefix || tag == ClientRandomAuthKey ==>
                  r == if IsUtf8(value) then Err(InvalidHex) else Err(InvalidUtf8))
  {
    hide IsUtf8, IsMaskedHex, IsHex, DecodeStrings, DecodeVarint;
  }

  /** All entries of a payload are taken one after the other, or the first that is not
      tells the error of the payload. */
  lemma {:induction false} FirstRefusalTold(taken: seq<Item>, tag: Tag, value: Buffer, rest: Buffer, c: Config)
    requires Writable(taken) && |value| <= MAX_VARINT
    requires ApplyItems(c, taken).Ok? && ApplyField(ApplyItems(c, taken).value, tag, value).Err?
    ensures Fields(EncodeItems(taken) + (Tlv(TagNumber(tag), value) + rest), c) == ApplyField(ApplyItems(c, taken).value, tag, value)
    decreases |taken|
  {
    hide ApplyField, Tlv, Fields, TagNumber;
    var end := Tlv(TagNumber(tag), value) + rest;
    if taken == [] {
      assert EncodeItems(taken) + end == end;
      FirstField(tag, value, rest, c);
    } else {
      var t, more := taken[0], EncodeItems(taken[1..]);
      assert EncodeItems(taken) + end == Tlv(TagNumber(t.tag), t.value) + (more + end);
      FirstField(t.tag, t.value, more + end, c);
      FirstRefusalTold(taken[1..], tag, value, rest, ApplyField(c, t.tag, t.value).value);
    }
  }
}
