/** Decoding a deep-link payload undoes encoding it, and unknown entries change nothing. */
module DeepLinkRoundTrip {
  import opened Bytes
  import opened Varint
  import opened DeepLink

  // --------------------------------------------------------------- single entries

  /** A written entry is parsed back whatever follows it. */
  lemma TlvParsed(tag: U64, value: Buffer, rest: Buffer)
    requires tag <= MAX_VARINT && |value| <= MAX_VARINT
    ensures Tlv(tag, value) + rest != []
    ensures ParseEntry(Tlv(tag, value) + rest) == Ok(Entry(tag, value, |Tlv(tag, value)|))
    ensures (Tlv(tag, value) + rest)[|Tlv(tag, value)|..] == rest
  {
    hide DecodeVarint, EncodeVarint;
    VarintRoundTrip(tag);
    VarintRoundTrip(|value|);
    var t, l := EncodeVarint(tag).value, EncodeVarint(|value|).value;
    var all := Tlv(tag, value) + rest;
    assert all == [] + (t + (l + (value + rest)));
    VarintReadAt([], tag, l + (value + rest));
    assert all == t + (l + (value + rest));
    VarintReadAt(t, |value|, value + rest);
    assert all[|t| + |l|..|t| + |l| + |value|] == value;
  }

  /** Entries that were read stay the same when what follows them changes. */
  lemma ParseEntryPrefix(a: Buffer, b: Buffer, b': Buffer)
    requires a + b != [] && ParseEntry(a + b).Ok? && ParseEntry(a + b).value.size <= |a|
    ensures a + b' != [] && ParseEntry(a + b') == ParseEntry(a + b)
  {
    hide DecodeVarint;
    var e := ParseEntry(a + b).value;
    DecodeVarintLocal(a, b, b', 0);
    var at := DecodeVarint(a + b, 0).value.1;
    DecodeVarintLocal(a, b, b', at);
    assert (a + b)[..e.size] == a[..e.size] == (a + b')[..e.size];
    var start := DecodeVarint(a + b, at).value.1;
    assert (a + b)[start..e.size] == (a + b)[..e.size][start..];
    assert (a + b')[start..e.size] == (a + b')[..e.size][start..];
  }

  lemma DecodeVarintLocal(a: Buffer, b: Buffer, b': Buffer, at: nat)
    requires DecodeVarint(a + b, at).Some? && DecodeVarint(a + b, at).value.1 <= |a|
    ensures DecodeVarint(a + b', at) == DecodeVarint(a + b, at)
  {
  }

  // --------------------------------------------------------------- lists of them

  function ApplyItems(c: Config, items: seq<Item>): Result<Config, Error>
    decreases |items|
  {
    if items == [] then Ok(c)
    else
      var c' :- ApplyField(c, items[0].tag, items[0].value);
      ApplyItems(c', items[1..])
  }

  /** A written entry acts before what follows it. */
  lemma FirstField(tag: Tag, value: Buffer, rest: Buffer, c: Config)
    requires |value| <= MAX_VARINT
    ensures var r := ApplyField(c, tag, value);
            Fields(Tlv(TagNumber(tag), value) + rest, c) == if r.Ok? then Fields(rest, r.value) else r
  {
    hide ApplyField, Tlv, ParseEntry;
    TlvParsed(TagNumber(tag), value, rest);
  }

  lemma NoFields(c: Config)
    ensures Fields([], c) == Ok(c)
  {
  }

  /** Written entries act one after the other. */
  lemma {:induction false} FieldsOfItems(items: seq<Item>, c: Config)
    requires Writable(items)
    ensures Fields(EncodeItems(items), c) == ApplyItems(c, items)
    decreases |items|
  {
    hide ApplyField, Tlv, Fields, TagNumber;
    if items == [] {
      NoFields(c);
    } else {
      FirstField(items[0].tag, items[0].value, EncodeItems(items[1..]), c);
      var r := ApplyField(c, items[0].tag, items[0].value);
      if r.Ok? {
        FieldsOfItems(items[1..], r.value);
      }
    }
  }

  lemma {:induction false} ApplyItemsAppend(c: Config, a: seq<Item>, b: seq<Item>)
    ensures ApplyItems(c, a + b) ==
            var r := ApplyItems(c, a); if r.Ok? then ApplyItems(r.value, b) else r
    decreases |a|
  {
    hide ApplyField;
    if a == [] {
      assert a + b == b;
    } else {
      assert (a + b)[1..] == a[1..] + b;
      var r := ApplyField(c, a[0].tag, a[0].value);
      if r.Ok? { ApplyItemsAppend(r.value, a[1..], b); }
    }
  }

  lemma ApplyOne(c: Config, tag: Tag, value: Buffer)
    ensures ApplyItems(c, [Item(tag, value)]) == ApplyField(c, tag, value)
  {
  }

  lemma {:induction false} AddressesApplied(c: Config, ss: seq<Str>)
    ensures ApplyItems(c, Each(Address, ss)) == Ok(c.(addresses := c.addresses + ss))
    decreases |ss|
  {
    if ss == [] {
      assert c.addresses + ss == c.addresses;
    } else {
      var rest := Each(Address, ss[1..]);
      ApplyItemsAppend(c, [Item(Address, ss[0])], rest);
      ApplyOne(c, Address, ss[0]);
      AddressesApplied(c.(addresses := c.addresses + [ss[0]]), ss[1..]);
      assert c.addresses + [ss[0]] + ss[1..] == c.addresses + ss;
    }
  }

  lemma {:induction false} StringsRoundTrip(ss: seq<Str>)
    requires FitAll(ss)
    ensures DecodeStrings(EncodeStrings(ss)) == Ok(ss)
    decreases |ss|
  {
    hide DecodeVarint, EncodeVarint, IsUtf8;
    if ss != [] {
      var s, rest := ss[0], EncodeStrings(ss[1..]);
      VarintRoundTrip(|s|);
      var l, all := EncodeVarint(|s|).value, EncodeStrings(ss);
      VarintReadAt([], |s|, s + rest);
      assert all == [] + (l + (s + rest));
      StringsRoundTrip(ss[1..]);
      assert all[|l|..|l| + |s|] == s && all[|l| + |s|..] == rest;
      assert [s] + ss[1..] == ss;
    }
  }

  // --------------------------------------------------------------- the theorem

  function NonEmpty(s: Option<Str>): Option<Str> {
    if Absent(s) then None else s
  }

  /** An empty prefix or key is not written, so it comes back as none. */
  function Normalise(c: Config): Config {
    c.(clientRandomPrefix := NonEmpty(c.clientRandomPrefix), clientRandomAuthKey := NonEmpty(c.clientRandomAuthKey))
  }

  predicate HexOk(c: Config) {
    && (Absent(c.clientRandomPrefix) || IsMaskedHex(c.clientRandomPrefix.value))
    && (Absent(c.clientRandomAuthKey) || IsHex(c.clientRandomAuthKey.value))
  }

  function Parameters(c: Config): Config {
    DEFAULTS.(hostname := c.hostname, username := c.username, password := c.password, addresses := c.addresses,
              clientRandomPrefix := NonEmpty(c.clientRandomPrefix),
              clientRandomAuthKey := NonEmpty(c.clientRandomAuthKey))
  }

  lemma OptApplied(c: Config, tag: Tag, s: Option<Buffer>)
    ensures ApplyItems(c, Opt(tag, s)) == if s.None? then Ok(c) else ApplyField(c, tag, s.value)
  {
  }

  lemma FlagApplied(c: Config, tag: Tag, written: bool, value: Buffer)
    ensures ApplyItems(c, Flag(tag, written, value)) == if written then ApplyField(c, tag, value) else Ok(c)
  {
  }

  /** The connection parameters without the prefix and the key. */
  lemma PlainParametersApplied(c: Config)
    ensures ApplyItems(DEFAULTS, [Item(Version, [CURRENT_VERSION])] + Opt(Hostname, c.hostname) + Opt(Username, c.username)
                                 + Opt(Password, c.password) + Each(Address, c.addresses))
         == Ok(DEFAULTS.(hostname := c.hostname, username := c.username, password := c.password, addresses := c.addresses))
  {
    hide ApplyItems, Each, IsUtf8;
    var done, acc := [Item(Version, [CURRENT_VERSION])], DEFAULTS;
    ApplyOne(DEFAULTS, Version, [CURRENT_VERSION]);
    ApplyItemsAppend(DEFAULTS, done, Opt(Hostname, c.hostname));
    OptApplied(acc, Hostname, c.hostname);
    done, acc := done + Opt(Hostname, c.hostname), acc.(hostname := c.hostname);
    ApplyItemsAppend(DEFAULTS, done, Opt(Username, c.username));
    OptApplied(acc, Username, c.username);
    done, acc := done + Opt(Username, c.username), acc.(username := c.username);
    ApplyItemsAppend(DEFAULTS, done, Opt(Password, c.password));
    OptApplied(acc, Password, c.password);
    done, acc := done + Opt(Password, c.password), acc.(password := c.password);
    ApplyItemsAppend(DEFAULTS, done, Each(Address, c.addresses));
    AddressesApplied(acc, c.addresses);
    assert acc.addresses + c.addresses == c.addresses;
  }

  lemma ParametersApplied(c: Config)
    ensures ApplyItems(DEFAULTS, ParameterItems(c)) == if HexOk(c) then Ok(Parameters(c)) else Err(InvalidHex)
  {
    hide ApplyItems, Each, IsMaskedHex, IsHex, IsUtf8;
    var p, k := NonEmpty(c.clientRandomPrefix), NonEmpty(c.clientRandomAuthKey);
    var plain := [Item(Version, [CURRENT_VERSION])] + Opt(Hostname, c.hostname) + Opt(Username, c.username)
                 + Opt(Password, c.password) + Each(Address, c.addresses);
    var acc := Parameters(c).(clientRandomPrefix := None, clientRandomAuthKey := None);
    PlainParametersApplied(c);
    ApplyItemsAppend(DEFAULTS, plain, Opt(ClientRandomPrefix, p));
    OptApplied(acc, ClientRandomPrefix, p);
    ApplyItemsAppend(DEFAULTS, plain + Opt(ClientRandomPrefix, p), Opt(ClientRandomAuthKey, k));
    OptApplied(acc.(clientRandomPrefix := p), ClientRandomAuthKey, k);
  }

  lemma SwitchesApplied(before: seq<Item>, p: Config, c: Config)
    requires ApplyItems(DEFAULTS, before) == Ok(p)
    requires p.customSni.None? && p.hasIpv6 && !p.skipVerification && !p.antiDpi
    ensures ApplyItems(DEFAULTS, WithSwitches(before, c)) ==
            Ok(p.(customSni := c.customSni, hasIpv6 := c.hasIpv6, skipVerification := c.skipVerification, antiDpi := c.antiDpi))
  {
    hide ApplyItems, IsUtf8;
    var done, acc := before, p;
    ApplyItemsAppend(DEFAULTS, done, Opt(CustomSni, c.customSni));
    OptApplied(acc, CustomSni, c.customSni);
    done, acc := done + Opt(CustomSni, c.customSni), acc.(customSni := c.customSni);
    ApplyItemsAppend(DEFAULTS, done, Flag(HasIpv6, !c.hasIpv6, [0]));
    FlagApplied(acc, HasIpv6, !c.hasIpv6, [0]);
    done, acc := done + Flag(HasIpv6, !c.hasIpv6, [0]), acc.(hasIpv6 := c.hasIpv6);
    ApplyItemsAppend(DEFAULTS, done, Flag(SkipVerification, c.skipVerification, [1]));
    FlagApplied(acc, SkipVerification, c.skipVerification, [1]);
    done, acc := done + Flag(SkipVerification, c.skipVerification, [1]), acc.(skipVerification := c.skipVerification);
    ApplyItemsAppend(DEFAULTS, done, Flag(AntiDpi, c.antiDpi, [1]));
    FlagApplied(acc, AntiDpi, c.antiDpi, [1]);
  }

  lemma FirstOptionsApplied(before: seq<Item>, p: Config, c: Config)
    requires ApplyItems(DEFAULTS, before) == Ok(p)
    requires p.certificate.None? && p.upstreamProtocol.Http2? && p.name.None?
    ensures ApplyItems(DEFAULTS, before + Opt(Certificate, c.certificate)
                                 + Flag(UpstreamProtocol, c.upstreamProtocol.Http3?, [2]) + Opt(Name, c.name))
         == Ok(p.(certificate := c.certificate, upstreamProtocol := c.upstreamProtocol, name := c.name))
  {
    hide ApplyItems, IsUtf8, DecodeStrings;
    var done, acc := before, p;
    ApplyItemsAppend(DEFAULTS, done, Opt(Certificate, c.certificate));
    OptApplied(acc, Certificate, c.certificate);
    done, acc := done + Opt(Certificate, c.certificate), acc.(certificate := c.certificate);
    var http3 := c.upstreamProtocol.Http3?;
    ApplyItemsAppend(DEFAULTS, done, Flag(UpstreamProtocol, http3, [2]));
    FlagApplied(acc, UpstreamProtocol, http3, [2]);
    done, acc := done + Flag(UpstreamProtocol, http3, [2]), acc.(upstreamProtocol := c.upstreamProtocol);
    ApplyItemsAppend(DEFAULTS, done, Opt(Name, c.name));
    OptApplied(acc, Name, c.name);
  }

  lemma OptionsApplied(before: seq<Item>, p: Config, c: Config)
    requires FitAll(c.dnsUpstreams) && ApplyItems(DEFAULTS, before) == Ok(p)
    requires p.certificate.None? && p.upstreamProtocol.Http2? && p.name.None? && p.dnsUpstreams == [] && p.subscriptionUrl.None?
    ensures ApplyItems(DEFAULTS, WithOptions(before, c)) ==
            Ok(p.(certificate := c.certificate, upstreamProtocol := c.upstreamProtocol, name := c.name,
                  dnsUpstreams := c.dnsUpstreams, subscriptionUrl := c.subscriptionUrl))
  {
    hide ApplyItems, IsUtf8, EncodeStrings, DecodeStrings, FitAll, Opt, Flag;
    FirstOptionsApplied(before, p, c);
    var done := before + Opt(Certificate, c.certificate) + Flag(UpstreamProtocol, c.upstreamProtocol.Http3?, [2]) + Opt(Name, c.name);
    var acc := p.(certificate := c.certificate, upstreamProtocol := c.upstreamProtocol, name := c.name);
    StringsRoundTrip(c.dnsUpstreams);
    var dns, strings := c.dnsUpstreams != [], EncodeStrings(c.dnsUpstreams);
    ApplyItemsAppend(DEFAULTS, done, Flag(DnsUpstreams, dns, strings));
    FlagApplied(acc, DnsUpstreams, dns, strings);
    done, acc := done + Flag(DnsUpstreams, dns, strings), acc.(dnsUpstreams := c.dnsUpstreams);
    ApplyItemsAppend(DEFAULTS, done, Opt(SubscriptionUrl, c.subscriptionUrl));
    OptApplied(acc, SubscriptionUrl, c.subscriptionUrl);
  }

  lemma ItemsApplied(c: Config)
    requires FitAll(c.dnsUpstreams)
    ensures ApplyItems(DEFAULTS, Items(c)) == if HexOk(c) then Ok(Normalise(c)) else Err(InvalidHex)
  {
    hide ApplyItems, ParameterItems, EncodeStrings, FitAll, HexOk;
    ParametersApplied(c);
    var p := Parameters(c);
    if HexOk(c) {
      SwitchesApplied(ParameterItems(c), p, c);
      OptionsApplied(WithSwitches(ParameterItems(c), c),
                     p.(customSni := c.customSni, hasIpv6 := c.hasIpv6,
                        skipVerification := c.skipVerification, antiDpi := c.antiDpi), c);
    } else {
      FailureStays(ParameterItems(c), Items(c));
    }
  }

  /** Entries behind one that fails are not looked at. */
  lemma FailureStays(a: seq<Item>, b: seq<Item>)
    requires a <= b && ApplyItems(DEFAULTS, a).Err?
    ensures ApplyItems(DEFAULTS, b) == ApplyItems(DEFAULTS, a)
  {
    ApplyItemsAppend(DEFAULTS, a, b[|a|..]);
    assert a + b[|a|..] == b;
  }

  /** A configuration that validates comes back from its payload, an empty prefix or
      key as none, exactly when its prefix, mask and key are hex. */
  lemma RoundTrip(c: Config)
    requires Validate(c).None? && Encodable(c)
    ensures DecodePayload(EncodePayload(c)) == if HexOk(c) then Ok(Normalise(c)) else Err(InvalidHex)
  {
    hide Fields, EncodeItems, ApplyItems, Items, HexOk, Writable, FitAll;
    FieldsOfItems(Items(c), DEFAULTS);
    ItemsApplied(c);
  }

  /** Any subscription URL with any prefix that is not hex makes a link that does not decode. */
  lemma NotHexRefused(prefix: Str, url: Str)
    requires prefix != [] && !IsMaskedHex(prefix) && HTTPS <= url && |prefix| <= MAX_VARINT && |url| <= MAX_VARINT
    ensures var c := DEFAULTS.(clientRandomPrefix := Some(prefix), subscriptionUrl := Some(url));
            Validate(c).None? && Encodable(c) && DecodePayload(EncodePayload(c)) == Err(InvalidHex)
  {
    hide DecodePayload, EncodePayload, IsUtf8, IsMaskedHex;
    var c := DEFAULTS.(clientRandomPrefix := Some(prefix), subscriptionUrl := Some(url));
    assert Items(c) == [Item(Version, [CURRENT_VERSION]), Item(ClientRandomPrefix, prefix), Item(SubscriptionUrl, url)];
    RoundTrip(c);
  }

  /** The prefix "z" is one. */
  lemma NotHexExample()
    ensures IsUtf8([0x7A]) && !IsMaskedHex([0x7A]) && IsUtf8(HTTPS)
  {
    hide IsUtf8;
    AsciiIsUtf8([0x7A]);
    AsciiIsUtf8(HTTPS);
    assert [0x7A as Byte][1..] == [] && SplitOnce([0x7A]).0 == [0x7A] + [];
  }

  lemma {:induction false} AsciiIsUtf8(s: Buffer)
    requires forall i | 0 <= i < |s| :: s[i] <= 0x7F
    ensures IsUtf8(s)
    decreases |s|
  {
    if s != [] {
      AsciiIsUtf8(s[1..]);
    }
  }

  // ------------------------------------------------------------- unknown entries

  /** `k` is a place between two entries of a payload. */
  ghost predicate Boundary(payload: Buffer, k: nat)
    decreases |payload|
  {
    || k == 0
    || (payload != [] && ParseEntry(payload).Ok?
        && var size := ParseEntry(payload).value.size;
           size <= k && Boundary(payload[size..], k - size))
  }

  /** An entry whose tag has no known low byte may stand at any boundary: the payload
      decodes as before, to the same fields or the same error. */
  lemma {:induction false} UnknownEntryIgnored(payload: Buffer, k: nat, tag: U64, value: Buffer, c: Config)
    requires k <= |payload| && Boundary(payload, k)
    requires tag <= MAX_VARINT && |value| <= MAX_VARINT && tag % 256 > 0x0F
    ensures Fields(payload[..k] + (Tlv(tag, value) + payload[k..]), c) == Fields(payload, c)
    decreases |payload|
  {
    hide ParseEntry, Tlv, ApplyField;
    var unknown := Tlv(tag, value);
    if k == 0 {
      TlvParsed(tag, value, payload);
      assert payload[..0] + (unknown + payload[0..]) == unknown + payload;
    } else {
      var e := ParseEntry(payload).value;
      var longer := payload[..k] + (unknown + payload[k..]);
      assert payload == payload[..k] + payload[k..];
      ParseEntryPrefix(payload[..k], payload[k..], unknown + payload[k..]);
      var rest := payload[e.size..];
      assert longer[e.size..] == rest[..k - e.size] + (unknown + rest[k - e.size..]) by {
        assert rest[..k - e.size] == payload[e.size..k] && rest[k - e.size..] == payload[k..];
        assert payload[..k][e.size..] == payload[e.size..k];
      }
      var tag' := TagOf(e.tag % 256);
      if tag'.None? {
        UnknownEntryIgnored(rest, k - e.size, tag, value, c);
      } else {
        var r := ApplyField(c, tag'.value, e.value);
        if r.Ok? { UnknownEntryIgnored(rest, k - e.size, tag, value, r.value); }
      }
    }
  }

  /** A tag beyond eight bits is taken for the tag of its low byte. */
  lemma WideTagAliases(tag: U64, value: Buffer, rest: Buffer, c: Config)
    requires tag <= MAX_VARINT && |value| <= MAX_VARINT
    ensures Fields(Tlv(tag, value) + rest, c) == Fields(Tlv(tag % 256, value) + rest, c)
  {
    hide ParseEntry, Tlv, ApplyField;
    TlvParsed(tag, value, rest);
    TlvParsed(tag % 256, value, rest);
  }
}
