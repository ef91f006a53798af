/** Variable-length integers (section 16 of RFC 9000). */
module Varint {
  import opened Bytes

  const MAX_VARINT := 0x3FFF_FFFF_FFFF_FFFF

  type U64 = x: int | 0 <= x < U64_END

  function PutU64(v: U64): (r: Buffer)
    ensures |r| == 8 && GetU64(r, 0) == v
  {
    PutU32(v / 0x1_0000_0000) + PutU32(v % 0x1_0000_0000)
  }

  function GetU64(b: Buffer, at: nat): U64
    requires at + 8 <= |b|
  {
    GetU32(b, at) * 0x1_0000_0000 + GetU32(b, at + 4)
  }

  /** The shortest form, with its length in the two high bits of the first byte. */
  function EncodeVarint(v: U64): Option<Buffer> {
    if v <= 0x3F then Some([v])
    else if v <= 0x3FFF then Some(PutU16(v + 0x4000))
    else if v <= 0x3FFF_FFFF then Some(PutU32(v + 0x8000_0000))
    else if v <= MAX_VARINT then Some(PutU64(v + 0xC000_0000_0000_0000))
    else None
  }

  /** The value at an offset and the offset behind it; `None` is the end of data. */
  function DecodeVarint(data: Buffer, offset: nat): (r: Option<(U64, nat)>)
    ensures r.Some? ==> offset < r.value.1 <= |data| && r.value.0 <= MAX_VARINT
  {
    if offset >= |data| then None
    else
      var prefix := data[offset] / 64;
      if prefix == 0 then Some((data[offset] % 64, offset + 1))
      else if prefix == 1 then
        if offset + 2 > |data| then None else Some((GetU16(data, offset) % 0x4000, offset + 2))
      else if prefix == 2 then
        if offset + 4 > |data| then None else Some((GetU32(data, offset) % 0x4000_0000, offset + 4))
      else
        if offset + 8 > |data| then None
        else Some((GetU64(data, offset) % 0x4000_0000_0000_0000, offset + 8))
  }

  /** Where an integer starts does not matter to its value. */
  lemma DecodeVarintShift(pre: Buffer, data: Buffer)
    ensures var r := DecodeVarint(data, 0);
            DecodeVarint(pre + data, |pre|) == if r.Some? then Some((r.value.0, |pre| + r.value.1)) else None
  {
  }

  /** Bytes behind an integer do not matter to it. */
  lemma DecodeVarintPrefix(data: Buffer, post: Buffer)
    requires DecodeVarint(data, 0).Some?
    ensures DecodeVarint(data + post, 0) == DecodeVarint(data, 0)
  {
  }

  lemma FourBytes(v: U64)
    requires v <= 0x3FFF_FFFF
    ensures DecodeVarint(PutU32(v + 0x8000_0000), 0) == Some((v, 4))
  {
  }

  lemma EightBytes(v: U64)
    requires v <= MAX_VARINT
    ensures DecodeVarint(PutU64(v + 0xC000_0000_0000_0000), 0) == Some((v, 8))
  {
    hide PutU64, GetU32, GetU16, GetU64;
    var w := v + 0xC000_0000_0000_0000;
    FirstOfU64(w);
    assert 192 <= w / 0x100_0000_0000_0000 < 256;
    assert w % 0x4000_0000_0000_0000 == v;
  }

  /** Decoding undoes encoding. */
  lemma VarintRoundTrip(v: U64)
    requires v <= MAX_VARINT
    ensures var e := EncodeVarint(v); e.Some? && DecodeVarint(e.value, 0) == Some((v, |e.value|))
  {
    hide PutU32, PutU64, GetU32, GetU64;
    if 0x3FFF < v <= 0x3FFF_FFFF {
      FourBytes(v);
    } else if v > 0x3FFF_FFFF {
      EightBytes(v);
    }
  }

  /** No form of a number is shorter than the one it is encoded in. */
  lemma ShortestForm(data: Buffer)
    requires DecodeVarint(data, 0).Some?
    ensures var (v, end) := DecodeVarint(data, 0).value;
            EncodeVarint(v).Some? && |EncodeVarint(v).value| <= end
  {
  }

  lemma FirstOfU64(v: U64)
    ensures PutU64(v)[0] == v / 0x100_0000_0000_0000
  {
  }

  /** An integer in the middle of a buffer. */
  lemma VarintReadAt(pre: Buffer, v: U64, post: Buffer)
    requires v <= MAX_VARINT
    ensures var e := EncodeVarint(v).value;
            DecodeVarint(pre + (e + post), |pre|) == Some((v, |pre| + |e|))
  {
    hide DecodeVarint, EncodeVarint;
    VarintRoundTrip(v);
    var e := EncodeVarint(v).value;
    DecodeVarintPrefix(e, post);
    DecodeVarintShift(pre, e + post);
  }
}
