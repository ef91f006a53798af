/** The subscription URL that carries a client's credentials (text as UTF-8 bytes). */
module SubscriptionUrl {
  import opened Bytes

  const AT: Byte := 0x40
  const COLON: Byte := 0x3A
  const PERCENT: Byte := 0x25
  const SCHEME: Buffer := [0x68, 0x74, 0x74, 0x70, 0x73, 0x3A, 0x2F, 0x2F]  // https://

  // ------------------------------------------------------------------ the code

  predicate IsUnreserved(b: Byte) {
    || 0x30 <= b <= 0x39 || 0x41 <= b <= 0x5A || 0x61 <= b <= 0x7A
    || b == 0x2D || b == 0x2E || b == 0x5F || b == 0x7E
  }

  function UpperHex(n: int): Byte
    requires 0 <= n < 16
  {
    if n < 10 then 0x30 + n else 0x37 + n
  }

  function EncodeByte(b: Byte): Buffer {
    if IsUnreserved(b) then [b] else [PERCENT, UpperHex(b / 16), UpperHex(b % 16)]
  }

  function Encode(s: Buffer): Buffer {
    if s == [] then [] else EncodeByte(s[0]) + Encode(s[1..])
  }

  lemma EncodeStep(out: Buffer, s: Buffer, i: nat)
    requires i < |s|
    ensures out + Encode(s[i..]) == out + EncodeByte(s[i]) + Encode(s[i + 1..])
  {
  }

  method PercentEncodeUserinfo(s: Buffer) returns (out: Buffer)
    ensures out == Encode(s)
  {
    hide Encode;
    out := [];
    assert s[0..] == s && [] + Encode(s) == Encode(s);
    for i := 0 to |s|
      invariant out + Encode(s[i..]) == Encode(s)
    {
      EncodeStep(out, s, i);
      if IsUnreserved(s[i]) {
        out := out + [s[i]];
      } else {
        out := out + [PERCENT, UpperHex(s[i] / 16), UpperHex(s[i] % 16)];
      }
    }
    EncodeNothing();
    assert s[|s|..] == [] && out + [] == out;
  }

  lemma EncodeNothing()
    ensures Encode([]) == []
  {
  }

  /** A slash, a question mark or a number sign. */
  predicate EndsAuthority(b: Byte) {
    b == 0x2F || b == 0x3F || b == 0x23
  }

  function SplitAuthority(url: Buffer): (r: (Buffer, Buffer))
    ensures url == r.0 + r.1
    ensures forall i | 0 <= i < |r.0| :: !EndsAuthority(r.0[i])
    ensures r.1 != [] ==> EndsAuthority(r.1[0])
  {
    if url == [] || EndsAuthority(url[0]) then ([], url)
    else
      var (authority, tail) := SplitAuthority(url[1..]);
      ([url[0]] + authority, tail)
  }

  /** The two sides of the last occurrence. */
  function SplitLast(s: Buffer, b: Byte): (r: Option<(Buffer, Buffer)>)
    ensures r.Some? ==> s == r.value.0 + [b] + r.value.1 && b !in r.value.1
    ensures r.None? ==> b !in s
  {
    if s == [] then None
    else if s[|s| - 1] == b then Some((s[..|s| - 1], []))
    else
      var r := SplitLast(s[..|s| - 1], b);
      if r.None? then None else
        assert r.value.0 + [b] + (r.value.1 + [s[|s| - 1]]) == (r.value.0 + [b] + r.value.1) + [s[|s| - 1]];
        Some((r.value.0, r.value.1 + [s[|s| - 1]]))
  }

  function StripScheme(url: Buffer): Buffer {
    if SCHEME <= url then url[|SCHEME|..] else url
  }

  function Host(base: Buffer): (host: Buffer)
    ensures AT !in host && forall i | 0 <= i < |host| :: !EndsAuthority(host[i])
  {
    var authority := SplitAuthority(StripScheme(base)).0;
    var split := SplitLast(authority, AT);
    if split.Some? then
      assert forall i | 0 <= i < |split.value.1| :: split.value.1[i] == authority[|split.value.0| + 1 + i];
      split.value.1
    else authority
  }

  function Tail(base: Buffer): (tail: Buffer)
    ensures tail != [] ==> EndsAuthority(tail[0])
  {
    SplitAuthority(StripScheme(base)).1
  }

  function Userinfo(username: Buffer, password: Buffer): Buffer {
    Encode(username) + [COLON] + Encode(password)
  }

  function Build(base: Buffer, username: Buffer, password: Buffer): Buffer {
    SCHEME + Userinfo(username, password) + [AT] + (Host(base) + Tail(base))
  }

  method BuildSubscriptionUrl(base: Buffer, username: Buffer, password: Buffer) returns (url: Buffer)
    ensures url == Build(base, username, password)
  {
    var rest := if SCHEME <= base then base[|SCHEME|..] else base;
    var (authority, tail) := SplitAuthority(rest);
    var split := SplitLast(authority, AT);
    if split.Some? {
      authority := split.value.1;
    }
    var hostPath := authority + tail;
    var user := PercentEncodeUserinfo(username);
    var pass := PercentEncodeUserinfo(password);
    url := SCHEME + (user + [COLON] + pass) + [AT] + hostPath;
  }

  // ------------------------------------------------------------------ reading a URL

  /** Percent decoding (section 2.1 of RFC 3986). */
  function Decode(s: Buffer): Option<Buffer> {
    if s == [] then Some([])
    else if s[0] != PERCENT then
      var rest := Decode(s[1..]);
      if rest.None? then None else Some([s[0]] + rest.value)
    else if |s| < 3 || !IsHexDigit(s[1]) || !IsHexDigit(s[2]) then None
    else
      var rest := Decode(s[3..]);
      if rest.None? then None else Some([HexDigit(s[1]) * 16 + HexDigit(s[2])] + rest.value)
  }

  /** The two sides of the first occurrence. */
  function SplitFirst(s: Buffer, b: Byte): Option<(Buffer, Buffer)> {
    if s == [] then None
    else if s[0] == b then Some(([], s[1..]))
    else
      var r := SplitFirst(s[1..], b);
      if r.None? then None else Some(([s[0]] + r.value.0, r.value.1))
  }

  datatype Parsed = Parsed(username: Buffer, password: Buffer, host: Buffer, tail: Buffer)

  /** A URL with credentials: the authority, its last at sign, the first colon. */
  function Parse(url: Buffer): Option<Parsed> {
    if !(SCHEME <= url) then None
    else
      var (authority, tail) := SplitAuthority(url[|SCHEME|..]);
      var at := SplitLast(authority, AT);
      if at.None? then None
      else
        var colon := SplitFirst(at.value.0, COLON);
        if colon.None? then None
        else
          var username, password := Decode(colon.value.0), Decode(colon.value.1);
          if username.None? || password.None? then None
          else Some(Parsed(username.value, password.value, at.value.1, tail))
  }

  // ------------------------------------------------------------------ properties

  lemma EncodeByteRead(b: Byte, rest: Buffer)
    requires Decode(rest).Some?
    ensures Decode(EncodeByte(b) + rest) == Some([b] + Decode(rest).value)
  {
  }

  /** No byte of an encoded text has a meaning in a URL's authority. */
  predicate Plain(s: Buffer) {
    forall i | 0 <= i < |s| :: IsUnreserved(s[i]) || s[i] == PERCENT
  }

  lemma {:induction false} EncodeReadBack(s: Buffer)
    ensures Decode(Encode(s)) == Some(s)
    ensures Plain(Encode(s))
  {
    hide Decode;
    if s == [] {
      DecodeNothing();
    } else {
      EncodeReadBack(s[1..]);
      EncodeByteRead(s[0], Encode(s[1..]));
      assert [s[0]] + s[1..] == s;
      assert Plain(EncodeByte(s[0]));
    }
  }

  lemma DecodeNothing()
    ensures Decode([]) == Some([])
  {
  }

  lemma {:induction false} AuthorityOf(authority: Buffer, tail: Buffer)
    requires forall i | 0 <= i < |authority| :: !EndsAuthority(authority[i])
    requires tail != [] ==> EndsAuthority(tail[0])
    ensures SplitAuthority(authority + tail) == (authority, tail)
    decreases |authority|
  {
    if authority == [] {
      assert authority + tail == tail;
    } else {
      AuthorityOf(authority[1..], tail);
      assert (authority + tail)[1..] == authority[1..] + tail;
      assert [authority[0]] + authority[1..] == authority;
    }
  }

  lemma {:induction false} LastOf(before: Buffer, b: Byte, after: Buffer)
    requires b !in after
    ensures SplitLast(before + [b] + after, b) == Some((before, after))
    decreases |after|
  {
    var s := before + [b] + after;
    if after == [] {
      assert s == before + [b] && s[..|s| - 1] == before;
    } else {
      var n := |after| - 1;
      assert after[n] in after && after[n] != b;
      assert s[|s| - 1] == after[n] && s[..|s| - 1] == before + [b] + after[..n];
      LastOf(before, b, after[..n]);
      assert after[..n] + [after[n]] == after;
    }
  }

  lemma {:induction false} FirstOf(before: Buffer, b: Byte, after: Buffer)
    requires b !in before
    ensures SplitFirst(before + [b] + after, b) == Some((before, after))
    decreases |before|
  {
    var s := before + [b] + after;
    if before == [] {
      assert s[1..] == after;
    } else {
      assert before[0] in before;
      assert s[1..] == before[1..] + [b] + after;
      FirstOf(before[1..], b, after);
      assert [before[0]] + before[1..] == before;
    }
  }

  /** The parts of a built URL. */
  lemma BuiltParts(base: Buffer, username: Buffer, password: Buffer)
    ensures var url := Build(base, username, password);
            var authority := Userinfo(username, password) + [AT] + Host(base);
            && SCHEME <= url
            && SplitAuthority(url[|SCHEME|..]) == (authority, Tail(base))
            && SplitLast(authority, AT) == Some((Userinfo(username, password), Host(base)))
  {
    hide Encode, SplitAuthority, SplitLast, Host, Tail;
    var url := Build(base, username, password);
    var userinfo := Userinfo(username, password);
    var authority := userinfo + [AT] + Host(base);
    EncodeReadBack(username);
    EncodeReadBack(password);
    assert url[|SCHEME|..] == authority + Tail(base);
    assert forall i | 0 <= i < |authority| :: !EndsAuthority(authority[i]) by {
      assert forall i | 0 <= i < |userinfo| :: IsUnreserved(userinfo[i]) || userinfo[i] == PERCENT || userinfo[i] == COLON;
    }
    AuthorityOf(authority, Tail(base));
    LastOf(userinfo, AT, Host(base));
  }

  /** Reading a built URL gives back the credentials and the base's host and tail. */
  lemma ParsesBack(base: Buffer, username: Buffer, password: Buffer)
    ensures Parse(Build(base, username, password)) == Some(Parsed(username, password, Host(base), Tail(base)))
  {
    hide Encode, Decode, SplitAuthority, SplitLast, SplitFirst, Host, Tail, Build;
    BuiltParts(base, username, password);
    EncodeReadBack(username);
    EncodeReadBack(password);
    assert COLON !in Encode(username);
    FirstOf(Encode(username), COLON, Encode(password));
  }

  /** Putting new credentials into a built URL is building from the original base. */
  lemma RebuildReplaces(base: Buffer, username: Buffer, password: Buffer, username': Buffer, password': Buffer)
    ensures Build(Build(base, username, password), username', password') == Build(base, username', password')
  {
    hide Encode, SplitAuthority, SplitLast, Userinfo;
    BuiltParts(base, username, password);
    HostTailOf(Build(base, username, password), Userinfo(username, password), Host(base), Tail(base));
  }

  lemma HostTailOf(url: Buffer, userinfo: Buffer, host: Buffer, tail: Buffer)
    requires SCHEME <= url
    requires SplitAuthority(url[|SCHEME|..]) == (userinfo + [AT] + host, tail)
    requires SplitLast(userinfo + [AT] + host, AT) == Some((userinfo, host))
    ensures Host(url) == host && Tail(url) == tail
  {
  }

  // ------------------------------------------------------------------ characters

  /** The unreserved characters of section 2.3 of RFC 3986. */
  predicate StandsForItself(b: Byte) {
    || 'A' as int <= b <= 'Z' as int || 'a' as int <= b <= 'z' as int || '0' as int <= b <= '9' as int
    || b == '-' as int || b == '.' as int || b == '_' as int || b == '~' as int
  }

  /** Text is left as it is exactly when all of it is unreserved, and grows otherwise. */
  lemma {:induction false} EncodeKeepsIff(s: Buffer)
    ensures Encode(s) == s <==> forall i | 0 <= i < |s| :: StandsForItself(s[i])
    ensures |s| <= |Encode(s)| && (|Encode(s)| == |s| ==> Encode(s) == s)
  {
    if s != [] {
      EncodeKeepsIff(s[1..]);
      assert s == [s[0]] + s[1..];
      if Encode(s) == s {
        assert |EncodeByte(s[0])| == 1;
        assert Encode(s)[1..] == Encode(s[1..]);
        forall i | 0 <= i < |s| ensures StandsForItself(s[i]) {
          if i > 0 { assert s[1..][i - 1] == s[i]; }
        }
      }
    }
  }

  /** A character that ends the authority (section 3.2 of RFC 3986). */
  predicate IsEnd(b: Byte) {
    b == '/' as int || b == '?' as int || b == '#' as int
  }

  predicate NoEnd(s: Buffer) {
    forall i | 0 <= i < |s| :: !IsEnd(s[i])
  }

  /** A base is its host and tail, behind a scheme and credentials or without. */
  lemma BaseParts(userinfo: Option<Buffer>, host: Buffer, tail: Buffer)
    requires NoEnd(host) && '@' as int !in host && (tail != [] ==> IsEnd(tail[0]))
    requires userinfo.Some? ==> NoEnd(userinfo.value)
    ensures var rest := (if userinfo.Some? then userinfo.value + [AT] else []) + host + tail;
            && Host(SCHEME + rest) == host && Tail(SCHEME + rest) == tail
            && (!(SCHEME <= rest) ==> Host(rest) == host && Tail(rest) == tail)
  {
    hide SplitAuthority, SplitLast;
    var authority := (if userinfo.Some? then userinfo.value + [AT] else []) + host;
    var rest := authority + tail;
    assert (SCHEME + rest)[|SCHEME|..] == rest;
    AuthorityOf(authority, tail);
    if userinfo.Some? {
      LastOf(userinfo.value, AT, host);
    } else {
      assert authority == host;
    }
  }
}
