/** The deep-link codec as its loops and buffers run. */
module DeepLinkCodec {
  import opened Bytes
  import opened Varint
  import opened DeepLink
  import opened DeepLinkRoundTrip
  import opened DeepLinkValidity

  /** Strings read before the rest of a list. */
  function Before(strings: seq<Str>, rest: Result<seq<Str>, Error>): Result<seq<Str>, Error> {
    if rest.Ok? then Ok(strings + rest.value) else rest
  }

  /** What the next entry of a list makes of it. */
  lemma StringsStep(strings: seq<Str>, data: Buffer, offset: nat)
    requires offset < |data|
    ensures var v, rest := DecodeVarint(data, offset), DecodeStrings(data[offset..]);
            if v.None? then rest == Err(UnexpectedEof)
            else
              var (len, at) := v.value;
              if at + len > |data| then rest == Err(TruncatedListEntry(len, |data| - at))
              else if !IsUtf8(data[at..at + len]) then rest == Err(InvalidUtf8)
              else Before(strings, rest) == Before(strings + [data[at..at + len]], DecodeStrings(data[at + len..]))
  {
    hide DecodeVarint, IsUtf8;
    DecodeVarintAt(data, offset);
    var v := DecodeVarint(data, offset);
    if v.Some? && v.value.1 + v.value.0 <= |data| {
      var (len, at) := v.value;
      SliceOfTail(data, offset, at - offset, at - offset + len);
      var more := DecodeStrings(data[at + len..]);
      if more.Ok? {
        assert strings + ([data[at..at + len]] + more.value) == strings + [data[at..at + len]] + more.value;
      }
    }
  }

  method DecodeStringArray(data: Buffer) returns (r: Result<seq<Str>, Error>)
    ensures r == DecodeStrings(data)
  {
    hide DecodeVarint, IsUtf8, DecodeStrings;
    var strings: seq<Str>, offset := [], 0;
    assert data[0..] == data;
    assert DecodeStrings(data).Ok? ==> [] + DecodeStrings(data).value == DecodeStrings(data).value;
    while offset < |data|
      invariant 0 <= offset <= |data|
      invariant DecodeStrings(data) == Before(strings, DecodeStrings(data[offset..]))
    {
      StringsStep(strings, data, offset);
      var v := DecodeVarint(data, offset);
      if v.None? { return Err(UnexpectedEof); }
      var (len, at) := v.value;
      if at + len > |data| { return Err(TruncatedListEntry(len, |data| - at)); }
      var bytes := data[at..at + len];
      if !IsUtf8(bytes) { return Err(InvalidUtf8); }
      strings := strings + [bytes];
      offset := at + len;
    }
    NoStrings();
    assert data[offset..] == [] && strings + [] == strings;
    r := Ok(strings);
  }

  lemma NoStrings()
    ensures DecodeStrings([]) == Ok([])
  {
  }

  lemma DecodeVarintAt(data: Buffer, offset: nat)
    requires offset <= |data|
    ensures var r := DecodeVarint(data[offset..], 0);
            DecodeVarint(data, offset) == if r.Some? then Some((r.value.0, offset + r.value.1)) else None
  {
  }

  class TlvParser {
    const data: Buffer
    var offset: nat

    constructor (data: Buffer)
      ensures this.data == data && offset == 0
    {
      this.data, offset := data, 0;
    }

    /** The next entry behind the offset, which moves past it; `None` at the end. */
    method NextField() returns (r: Option<Result<(Option<Tag>, Buffer), Error>>)
      requires offset <= |data|
      modifies this
      ensures old(offset) == |data| ==> r == None && offset == old(offset)
      ensures old(offset) < |data| ==>
                var e := ParseEntry(data[old(offset)..]);
                && r == Some(if e.Ok? then Ok((TagOf(e.value.tag % 256), e.value.value)) else Err(e.error))
                && (e.Ok? ==> old(offset) < offset == old(offset) + e.value.size <= |data|)
    {
      hide DecodeVarint;
      if offset >= |data| { return None; }
      ghost var start := offset;
      ghost var rest := data[start..];
      DecodeVarintAt(data, offset);
      var t := DecodeVarint(data, offset);
      if t.None? { return Some(Err(UnexpectedEof)); }
      offset := t.value.1;
      var tag := TagOf(t.value.0 % 256);
      DecodeVarintAt(data, offset);
      DecodeVarintAt(rest, offset - start);
      assert rest[offset - start..] == data[offset..];
      var l := DecodeVarint(data, offset);
      if l.None? { return Some(Err(UnexpectedEof)); }
      offset := l.value.1;
      var length := l.value.0;
      if offset + length > |data| {
        return Some(Err(TruncatedTlv(t.value.0 % 256, length, |data| - offset)));
      }
      var value := data[offset..offset + length];
      assert value == rest[offset - start..offset - start + length];
      offset := offset + length;
      r := Some(Ok((tag, value)));
    }
  }

  method DecodeTlvPayload(payload: Buffer) returns (r: Result<Config, Error>)
    ensures r == DecodePayload(payload)
    ensures r.Ok? ==> Complete(r.value)
  {
    hide ParseEntry, ApplyField;
    var parser := new TlvParser(payload);
    var config := DEFAULTS;
    assert payload[0..] == payload;
    while true
      invariant parser.data == payload && parser.offset <= |payload|
      invariant Fields(payload[parser.offset..], config) == Fields(payload, DEFAULTS)
      decreases |payload| - parser.offset
    {
      ghost var rest := payload[parser.offset..];
      var field := parser.NextField();
      if field.None? { break; }
      if field.value.Err? { return Err(field.value.error); }
      assert rest[ParseEntry(rest).value.size..] == payload[parser.offset..];
      var tag, value := field.value.value.0, field.value.value.1;
      if tag.Some? {
        var applied := ApplyField(config, tag.value, value);
        if applied.Err? { return Err(applied.error); }
        config := applied.value;
      }
    }
    assert payload[parser.offset..] == [];
    var invalid := Validate(config);
    return if invalid.Some? then Err(invalid.value) else Ok(config);
  }

  method EncodeStringArray(strings: seq<Str>) returns (r: Result<Buffer, Error>)
    ensures r.Ok? <==> FitAll(strings)
    ensures r.Ok? ==> r.value == EncodeStrings(strings)
    ensures r.Err? ==> r.error.VarintOverflow?
  {
    hide EncodeVarint;
    var buf: Buffer := [];
    for i := 0 to |strings|
      invariant FitAll(strings[..i])
      invariant buf == EncodeStrings(strings[..i])
    {
      if |strings[i]| > MAX_VARINT {
        return Err(VarintOverflow(|strings[i]|));
      }
      VarintRoundTrip(|strings[i]|);
      assert strings[..i + 1] == strings[..i] + [strings[i]];
      EncodeStringsAppend(strings[..i], strings[i]);
      buf := buf + EncodeVarint(|strings[i]|).value + strings[i];
    }
    assert strings[..|strings|] == strings;
    r := Ok(buf);
  }

  lemma {:induction false} EncodeStringsAppend(ss: seq<Str>, s: Str)
    requires FitAll(ss) && |s| <= MAX_VARINT
    ensures FitAll(ss + [s])
    ensures EncodeStrings(ss + [s]) == EncodeStrings(ss) + EncodeVarint(|s|).value + s
    decreases |ss|
  {
    hide EncodeVarint;
    if ss == [] {
      assert (ss + [s])[1..] == [];
    } else {
      assert (ss + [s])[1..] == ss[1..] + [s];
      EncodeStringsAppend(ss[1..], s);
      VarintRoundTrip(|ss[0]|);
      VarintRoundTrip(|s|);
      var x, y, z := EncodeVarint(|ss[0]|).value + ss[0], EncodeStrings(ss[1..]), EncodeVarint(|s|).value;
      assert x + (y + z + s) == x + y + z + s;
    }
  }

  /** The payload under construction: what was written so far. */
  class PayloadWriter {
    var payload: Buffer
    ghost var items: seq<Item>
    var overflow: Option<nat>

    /** Either all the items are in the payload or one of them did not fit. */
    ghost predicate Valid()
      reads this
    {
      if overflow.None? then Writable(items) && payload == EncodeItems(items) else !Writable(items)
    }

    constructor ()
      ensures Valid() && items == [] && overflow.None?
    {
      payload, items, overflow := [], [], None;
    }

    /** Appends an entry, unless an entry before it has failed. */
    method Append(tag: Tag, value: Buffer)
      requires Valid()
      modifies this
      ensures Valid() && items == old(items) + [Item(tag, value)]
    {
      ghost var item := Item(tag, value);
      if overflow.None? {
        if |value| > MAX_VARINT {
          overflow := Some(|value|);
          assert (items + [item])[|items|] == item;
        } else {
          EncodeItemsAppend(items, item);
          payload := payload + Tlv(TagNumber(tag), value);
        }
      } else {
        assert forall i | 0 <= i < |items| :: (items + [item])[i] == items[i];
      }
      items := items + [item];
    }

    method AppendOpt(tag: Tag, value: Option<Buffer>)
      requires Valid()
      modifies this
      ensures Valid() && items == old(items) + Opt(tag, value)
    {
      if value.Some? { Append(tag, value.value); }
    }

    method AppendFlag(tag: Tag, written: bool, value: Buffer)
      requires Valid()
      modifies this
      ensures Valid() && items == old(items) + Flag(tag, written, value)
    {
      if written { Append(tag, value); }
    }

    method AppendEach(tag: Tag, values: seq<Str>)
      requires Valid()
      modifies this
      ensures Valid() && items == old(items) + Each(tag, values)
    {
      EachNone(tag);
      for i := 0 to |values|
        invariant Valid() && items == old(items) + Each(tag, values[..i])
      {
        Append(tag, values[i]);
        assert values[..i + 1] == values[..i] + [values[i]];
        EachAppend(tag, values[..i], values[i]);
      }
      assert values[..|values|] == values;
    }
  }

  lemma {:induction false} EncodeItemsAppend(items: seq<Item>, item: Item)
    requires Writable(items) && |item.value| <= MAX_VARINT
    ensures Writable(items + [item])
    ensures EncodeItems(items + [item]) == EncodeItems(items) + Tlv(TagNumber(item.tag), item.value)
    decreases |items|
  {
    hide Tlv;
    if items == [] {
      assert (items + [item])[1..] == [];
    } else {
      assert (items + [item])[1..] == items[1..] + [item];
      EncodeItemsAppend(items[1..], item);
    }
  }

  method WriteParameters(w: PayloadWriter, c: Config)
    requires w.Valid() && w.items == []
    modifies w
    ensures w.Valid() && w.items == ParameterItems(c)
  {
    hide Writable, EncodeItems, Each;
    w.Append(Version, [CURRENT_VERSION]);
    assert w.items == [Item(Version, [CURRENT_VERSION])];
    w.AppendOpt(Hostname, c.hostname);
    w.AppendOpt(Username, c.username);
    w.AppendOpt(Password, c.password);
    w.AppendEach(Address, c.addresses);
    w.AppendOpt(ClientRandomPrefix, if Absent(c.clientRandomPrefix) then None else c.clientRandomPrefix);
    w.AppendOpt(ClientRandomAuthKey, if Absent(c.clientRandomAuthKey) then None else c.clientRandomAuthKey);
  }

  lemma EachNone(tag: Tag)
    ensures Each(tag, []) == []
  {
  }

  lemma {:induction false} EachAppend(tag: Tag, ss: seq<Str>, s: Str)
    ensures Each(tag, ss + [s]) == Each(tag, ss) + [Item(tag, s)]
    decreases |ss|
  {
    if ss == [] {
      assert (ss + [s])[1..] == [];
    } else {
      assert (ss + [s])[1..] == ss[1..] + [s];
      EachAppend(tag, ss[1..], s);
    }
  }

  method WriteOptions(w: PayloadWriter, c: Config, dnsUpstreams: Buffer)
    requires w.Valid() && FitAll(c.dnsUpstreams) && dnsUpstreams == EncodeStrings(c.dnsUpstreams)
    modifies w
    ensures w.Valid() && w.items == WithOptions(WithSwitches(old(w.items), c), c)
  {
    hide Writable, EncodeItems, EncodeStrings, FitAll, Opt, Flag;
    w.AppendOpt(CustomSni, c.customSni);
    w.AppendFlag(HasIpv6, !c.hasIpv6, [0]);
    w.AppendFlag(SkipVerification, c.skipVerification, [1]);
    w.AppendFlag(AntiDpi, c.antiDpi, [1]);
    w.AppendOpt(Certificate, c.certificate);
    w.AppendFlag(UpstreamProtocol, c.upstreamProtocol != Http2, [2]);
    w.AppendOpt(Name, c.name);
    w.AppendFlag(DnsUpstreams, c.dnsUpstreams != [], dnsUpstreams);
    w.AppendOpt(SubscriptionUrl, c.subscriptionUrl);
  }

  /** Fails for an invalid configuration and for one whose lengths do not fit, and
      writes all the entries of any other. */
  method EncodeTlvPayload(c: Config) returns (r: Result<Buffer, Error>)
    ensures r.Ok? <==> Complete(c) && Encodable(c)
    ensures r.Ok? ==> r.value == EncodePayload(c)
    ensures Validate(c).Some? ==> r == Err(Validate(c).value)
    ensures Complete(c) && !Encodable(c) ==> r.Err? && r.error.VarintOverflow?
  {
    ValidateIff(c);
    hide ParameterItems, WithOptions, WithSwitches, EncodeItems, Writable, FitAll, EncodeStrings;
    var invalid := Validate(c);
    if invalid.Some? { return Err(invalid.value); }
    var dnsUpstreams := EncodeStringArray(c.dnsUpstreams);
    if dnsUpstreams.Err? { return Err(dnsUpstreams.error); }
    var w := new PayloadWriter();
    WriteParameters(w, c);
    WriteOptions(w, c, dnsUpstreams.value);
    return if w.overflow.Some? then Err(VarintOverflow(w.overflow.value)) else Ok(w.payload);
  }
}
