/** The filter rules of the endpoint, first match wins. */
module Rules {
  import opened Bytes

  type Octets = seq<bv8>
  type Ip = nat

  datatype Action = Allow | Deny

  datatype Rule = Rule(cidr: Option<string>, prefix: Option<string>, authKey: Option<string>, action: Action)

  datatype Connection = Connection(ip: Ip, random: Option<Octets>, sni: Option<string>)

  /** The two checks that are not modelled: a CIDR range holds an address (`None` for a
      range that does not parse), and an auth key explains a client random. */
  datatype Checks = Checks(contains: (string, Ip) -> Option<bool>, explains: (Octets, Octets, string) -> bool)

  // ------------------------------------------------------------------ hexadecimal

  function HexDigit(n: bv8): char {
    match n
    case 0 => '0' case 1 => '1' case 2 => '2' case 3 => '3'
    case 4 => '4' case 5 => '5' case 6 => '6' case 7 => '7'
    case 8 => '8' case 9 => '9' case 10 => 'a' case 11 => 'b'
    case 12 => 'c' case 13 => 'd' case 14 => 'e' case _ => 'f'
  }

  function HexValue(c: char): Option<bv8> {
    match c
    case '0' => Some(0) case '1' => Some(1) case '2' => Some(2) case '3' => Some(3)
    case '4' => Some(4) case '5' => Some(5) case '6' => Some(6) case '7' => Some(7)
    case '8' => Some(8) case '9' => Some(9)
    case 'a' => Some(10) case 'b' => Some(11) case 'c' => Some(12)
    case 'd' => Some(13) case 'e' => Some(14) case 'f' => Some(15)
    case 'A' => Some(10) case 'B' => Some(11) case 'C' => Some(12)
    case 'D' => Some(13) case 'E' => Some(14) case 'F' => Some(15)
    case _ => None
  }

  function HexEncode(bs: Octets): (s: string)
    ensures |s| == 2 * |bs|
  {
    if bs == [] then "" else [HexDigit(bs[0] >> 4), HexDigit(bs[0] & 0xF)] + HexEncode(bs[1..])
  }

  function HexDecode(s: string): Option<Octets> {
    if s == "" then Some([])
    else if |s| == 1 then None
    else
      var high, low, rest := HexValue(s[0]), HexValue(s[1]), HexDecode(s[2..]);
      if high.None? || low.None? || rest.None? then None
      else Some([(high.value << 4) | low.value] + rest.value)
  }

  lemma HexDigitRead(n: bv8)
    requires n < 16
    ensures HexValue(HexDigit(n)) == Some(n) && HexDigit(n) != '/'
  {
  }

  lemma HexPairRead(b: bv8, rest: string)
    requires HexDecode(rest).Some?
    ensures HexDecode([HexDigit(b >> 4), HexDigit(b & 0xF)] + rest) == Some([b] + HexDecode(rest).value)
  {
    hide HexDigit, HexValue;
    Nibbles(b);
    HexDigitRead(b >> 4);
    HexDigitRead(b & 0xF);
    assert ([HexDigit(b >> 4), HexDigit(b & 0xF)] + rest)[2..] == rest;
  }

  lemma {:induction false} HexRoundTrip(bs: Octets)
    ensures HexDecode(HexEncode(bs)) == Some(bs)
    ensures '/' !in HexEncode(bs)
  {
    hide HexDigit, HexDecode;
    if bs == [] {
      HexNothing();
    } else {
      HexRoundTrip(bs[1..]);
      Nibbles(bs[0]);
      HexDigitRead(bs[0] >> 4);
      HexDigitRead(bs[0] & 0xF);
      HexPairRead(bs[0], HexEncode(bs[1..]));
      assert [bs[0]] + bs[1..] == bs;
    }
  }

  lemma HexNothing()
    ensures HexDecode("") == Some([])
  {
  }

  lemma Nibbles(b: bv8)
    ensures b >> 4 < 16 && b & 0xF < 16 && ((b >> 4) << 4) | (b & 0xF) == b
  {
  }

  // ------------------------------------------------------------------ matching

  /** The position of the first slash. */
  function FindSlash(s: string): (r: Option<nat>)
    ensures r.Some? ==> r.value < |s| && s[r.value] == '/' && '/' !in s[..r.value]
    ensures r.None? ==> '/' !in s
  {
    if s == "" then None
    else if s[0] == '/' then Some(0)
    else
      var rest := FindSlash(s[1..]);
      if rest.None? then None else
        assert s[..rest.value + 1] == [s[0]] + s[1..][..rest.value];
        Some(rest.value + 1)
  }

  /** The compared lengths: what prefix, mask and client random all have. */
  function Compared(random: Octets, prefix: Octets, mask: Octets): nat {
    Min(Min(|mask|, |prefix|), |random|)
  }

  predicate MaskedMatch(random: Octets, prefix: Octets, mask: Octets) {
    && Compared(random, prefix, mask) > 0
    && forall i | 0 <= i < Compared(random, prefix, mask) :: random[i] & mask[i] == prefix[i] & mask[i]
  }

  predicate PrefixMatches(text: string, random: Octets) {
    var slash := FindSlash(text);
    if slash.Some? then
      var prefix, mask := HexDecode(text[..slash.value]), HexDecode(text[slash.value + 1..]);
      prefix.Some? && mask.Some? && MaskedMatch(random, prefix.value, mask.value)
    else
      var prefix := HexDecode(text);
      prefix.Some? && prefix.value <= random
  }

  predicate Matches(checks: Checks, rule: Rule, conn: Connection) {
    && (rule.cidr.Some? ==> checks.contains(rule.cidr.value, conn.ip) == Some(true))
    && if rule.authKey.Some? then
         var key := HexDecode(rule.authKey.value);
         conn.random.Some? && conn.sni.Some? && key.Some? && checks.explains(key.value, conn.random.value, conn.sni.value)
       else
         rule.prefix.Some? ==> conn.random.Some? && PrefixMatches(rule.prefix.value, conn.random.value)
  }

  /** The byte loop of a masked comparison. */
  method CompareMasked(random: Octets, prefix: Octets, mask: Octets) returns (r: bool)
    ensures r == MaskedMatch(random, prefix, mask)
  {
    var maskLen := Min(Min(|mask|, |prefix|), |random|);
    r := maskLen > 0;
    for i := 0 to maskLen
      invariant r == (maskLen > 0)
      invariant forall j | 0 <= j < i :: random[j] & mask[j] == prefix[j] & mask[j]
    {
      if random[i] & mask[i] != prefix[i] & mask[i] {
        r := false;
        break;
      }
    }
  }

  method RuleMatches(checks: Checks, rule: Rule, conn: Connection) returns (r: bool)
    ensures r == Matches(checks, rule, conn)
  {
    var matches := true;
    if rule.cidr.Some? {
      var held := checks.contains(rule.cidr.value, conn.ip);
      if held.None? { return false; }
      matches := matches && held.value;
    }
    if rule.authKey.Some? {
      var key := HexDecode(rule.authKey.value);
      if conn.random.Some? && conn.sni.Some? && key.Some? {
        var valid := checks.explains(key.value, conn.random.value, conn.sni.value);
        matches := matches && valid;
      } else {
        matches := false;
      }
    } else if rule.prefix.Some? {
      if conn.random.None? { return false; }
      var text, random := rule.prefix.value, conn.random.value;
      var slash := FindSlash(text);
      if slash.Some? {
        var prefix, mask := HexDecode(text[..slash.value]), HexDecode(text[slash.value + 1..]);
        if prefix.None? || mask.None? { return false; }
        var masked := CompareMasked(random, prefix.value, mask.value);
        matches := matches && masked;
      } else {
        var prefix := HexDecode(text);
        if prefix.None? { return false; }
        matches := matches && prefix.value <= random;
      }
    }
    return matches;
  }

  // ------------------------------------------------------------------ evaluation

  predicate HasPrefixRule(rules: seq<Rule>) {
    exists i | 0 <= i < |rules| :: rules[i].prefix.Some?
  }

  predicate HasAuthKeyRule(rules: seq<Rule>) {
    exists i | 0 <= i < |rules| :: rules[i].authKey.Some?
  }

  predicate SniMissing(conn: Connection) {
    conn.sni.None? || conn.sni.value == ""
  }

  /** Connections that no rule is asked about. */
  predicate Guarded(rules: seq<Rule>, conn: Connection) {
    || (conn.random.None? && (HasPrefixRule(rules) || HasAuthKeyRule(rules)))
    || (SniMissing(conn) && HasAuthKeyRule(rules))
  }

  function FirstMatch(checks: Checks, rules: seq<Rule>, conn: Connection): Action {
    if rules == [] then Allow
    else if Matches(checks, rules[0], conn) then rules[0].action
    else FirstMatch(checks, rules[1..], conn)
  }

  function Evaluation(checks: Checks, rules: seq<Rule>, conn: Connection): Action {
    if Guarded(rules, conn) then Deny else FirstMatch(checks, rules, conn)
  }

  method Evaluate(checks: Checks, rules: seq<Rule>, conn: Connection) returns (r: Action)
    ensures r == Evaluation(checks, rules, conn)
  {
    hide Matches;
    var hasPrefixRule := exists i | 0 <= i < |rules| :: rules[i].prefix.Some?;
    var hasAuthKeyRule := exists i | 0 <= i < |rules| :: rules[i].authKey.Some?;
    if (conn.random.None? && (hasPrefixRule || hasAuthKeyRule)) || (SniMissing(conn) && hasAuthKeyRule) {
      return Deny;
    }
    assert rules[0..] == rules;
    for i := 0 to |rules|
      invariant FirstMatch(checks, rules[i..], conn) == FirstMatch(checks, rules, conn)
    {
      assert rules[i..][0] == rules[i] && rules[i..][1..] == rules[i + 1..];
      var matches := RuleMatches(checks, rules[i], conn);
      if matches { return rules[i].action; }
    }
    return Allow;
  }
}
