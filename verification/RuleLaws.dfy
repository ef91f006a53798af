/** What each kind of rule decides, wherever it stands in the list. */
module RuleLaws {
  import opened Bytes
  import opened RandomPrefix
  import opened Rules

  // ------------------------------------------------------------------ hexadecimal

  predicate Denotes(c: char, n: bv8)
    requires n < 16
  {
    c == "0123456789abcdef"[n as nat] || c == "0123456789ABCDEF"[n as nat]
  }

  /** A text spells bytes: two digits for each, the high one first, in either case. */
  predicate Spells(s: string, bs: Octets) {
    |s| == 2 * |bs| && forall i | 0 <= i < |bs| :: SpellsByte(s[2 * i], s[2 * i + 1], bs[i])
  }

  predicate SpellsByte(high: char, low: char, b: bv8) {
    Nibbles(b);
    Denotes(high, b >> 4) && Denotes(low, b & 0xF)
  }

  lemma DigitIff(c: char, n: bv8)
    requires n < 16
    ensures HexValue(c) == Some(n) <==> Denotes(c, n)
  {
    DigitsListed(n);
  }

  lemma DigitsListed(n: bv8)
    requires n < 16
    ensures
      || n == 0 || n == 1 || n == 2 || n == 3 || n == 4 || n == 5 || n == 6 || n == 7
      || n == 8 || n == 9 || n == 10 || n == 11 || n == 12 || n == 13 || n == 14 || n == 15
  {
  }

  lemma DigitBelow(c: char)
    ensures HexValue(c).Some? ==> HexValue(c).value < 16
  {
  }

  lemma NibblesOf(high: bv8, low: bv8)
    requires high < 16 && low < 16
    ensures ((high << 4) | low) >> 4 == high && ((high << 4) | low) & 0xF == low
  {
  }

  lemma ByteIff(high: char, low: char, b: bv8)
    ensures SpellsByte(high, low, b) <==>
            HexValue(high).Some? && HexValue(low).Some? && (HexValue(high).value << 4) | HexValue(low).value == b
  {
    hide HexValue, Denotes;
    Nibbles(b);
    DigitIff(high, b >> 4);
    DigitIff(low, b & 0xF);
    DigitBelow(high);
    DigitBelow(low);
    if HexValue(high).Some? && HexValue(low).Some? {
      NibblesOf(HexValue(high).value, HexValue(low).value);
    }
  }

  lemma SpellsRest(s: string, bs: Octets)
    requires |s| >= 2 && bs != []
    ensures Spells(s, bs) <==> SpellsByte(s[0], s[1], bs[0]) && Spells(s[2..], bs[1..])
  {
    hide SpellsByte;
    if Spells(s, bs) {
      assert SpellsByte(s[2 * 0], s[2 * 0 + 1], bs[0]);
      forall i | 0 <= i < |bs| - 1 ensures SpellsByte(s[2..][2 * i], s[2..][2 * i + 1], bs[1..][i]) {
        assert SpellsByte(s[2 * (i + 1)], s[2 * (i + 1) + 1], bs[i + 1]);
      }
    } else if SpellsByte(s[0], s[1], bs[0]) && Spells(s[2..], bs[1..]) {
      forall i | 0 <= i < |bs| ensures SpellsByte(s[2 * i], s[2 * i + 1], bs[i]) {
        if i > 0 {
          assert SpellsByte(s[2..][2 * (i - 1)], s[2..][2 * (i - 1) + 1], bs[1..][i - 1]);
        }
      }
    }
  }

  /** The hexadecimal texts are exactly the spellings of bytes. */
  lemma {:induction false} HexReadIff(s: string, bs: Octets)
    ensures HexDecode(s) == Some(bs) <==> Spells(s, bs)
    decreases |s|
  {
    hide HexValue, SpellsByte;
    if |s| >= 2 {
      var rest := HexDecode(s[2..]);
      if bs == [] {
      } else {
        SpellsRest(s, bs);
        HexReadIff(s[2..], bs[1..]);
        ByteIff(s[0], s[1], bs[0]);
        if rest.Some? {
          HexStep(s, rest.value, bs);
        }
      }
    }
  }

  lemma HexStep(s: string, rest: Octets, bs: Octets)
    requires |s| >= 2 && bs != [] && HexDecode(s[2..]) == Some(rest)
    ensures HexDecode(s) == Some(bs) <==>
            && rest == bs[1..] && HexValue(s[0]).Some? && HexValue(s[1]).Some?
            && (HexValue(s[0]).value << 4) | HexValue(s[1]).value == bs[0]
  {
    hide HexValue;
    if HexValue(s[0]).Some? && HexValue(s[1]).Some? {
      var first := (HexValue(s[0]).value << 4) | HexValue(s[1]).value;
      assert HexDecode(s) == Some([first] + rest);
      assert ([first] + rest)[0] == first && ([first] + rest)[1..] == rest;
      assert bs == [bs[0]] + bs[1..];
    }
  }

  ghost predicate IsSpelling(s: string) {
    exists bs :: Spells(s, bs)
  }

  lemma NoSpelling(s: string)
    requires !IsSpelling(s)
    ensures HexDecode(s).None?
  {
    if HexDecode(s).Some? {
      HexReadIff(s, HexDecode(s).value);
    }
  }

  // ------------------------------------------------------------------ the list

  /** The connection brings what a rule asks about. */
  predicate Brings(conn: Connection, rule: Rule) {
    && (rule.prefix.Some? ==> conn.random.Some?)
    && (rule.authKey.Some? ==> conn.random.Some? && conn.sni.Some? && conn.sni.value != "")
  }

  predicate Answerable(rules: seq<Rule>, conn: Connection) {
    forall i | 0 <= i < |rules| :: Brings(conn, rules[i])
  }

  predicate Silent(checks: Checks, rules: seq<Rule>, conn: Connection) {
    forall i | 0 <= i < |rules| :: !Matches(checks, rules[i], conn)
  }

  lemma GuardedIff(rules: seq<Rule>, conn: Connection)
    ensures Guarded(rules, conn) <==> !Answerable(rules, conn)
  {
    if HasPrefixRule(rules) {
      var i :| 0 <= i < |rules| && rules[i].prefix.Some?;
    }
    if HasAuthKeyRule(rules) {
      var i :| 0 <= i < |rules| && rules[i].authKey.Some?;
    }
  }

  /** A connection without what some rule asks about is denied, whatever the rules say. */
  lemma UnanswerableDenied(checks: Checks, rules: seq<Rule>, conn: Connection)
    requires !Answerable(rules, conn)
    ensures Evaluation(checks, rules, conn) == Deny
  {
    GuardedIff(rules, conn);
  }

  lemma {:induction false} SilentAllows(checks: Checks, rules: seq<Rule>, conn: Connection)
    requires Silent(checks, rules, conn)
    ensures FirstMatch(checks, rules, conn) == Allow
  {
    hide Matches;
    if rules != [] {
      SilentAllows(checks, rules[1..], conn);
    }
  }

  /** A list in which no rule applies allows. */
  lemma NoneAppliesAllows(checks: Checks, rules: seq<Rule>, conn: Connection)
    requires Answerable(rules, conn) && Silent(checks, rules, conn)
    ensures Evaluation(checks, rules, conn) == Allow
  {
    GuardedIff(rules, conn);
    SilentAllows(checks, rules, conn);
  }

  lemma {:induction false} FirstMatchAt(checks: Checks, before: seq<Rule>, rule: Rule, after: seq<Rule>, conn: Connection)
    ensures FirstMatch(checks, before + [rule] + after, conn) ==
            if Silent(checks, before, conn) && Matches(checks, rule, conn) then rule.action
            else FirstMatch(checks, before + after, conn)
    decreases |before|
  {
    hide Matches;
    var all := before + [rule] + after;
    if before == [] {
      assert all[0] == rule && all[1..] == after && before + after == after;
    } else {
      assert all[0] == before[0] && all[1..] == before[1..] + [rule] + after;
      assert (before + after)[0] == before[0] && (before + after)[1..] == before[1..] + after;
      FirstMatchAt(checks, before[1..], rule, after, conn);
      if !Matches(checks, before[0], conn) {
        assert Silent(checks, before, conn) <==> Silent(checks, before[1..], conn);
      }
    }
  }

  lemma AnswerableWithout(before: seq<Rule>, rule: Rule, after: seq<Rule>, conn: Connection)
    ensures Answerable(before + [rule] + after, conn) <==> Answerable(before + after, conn) && Brings(conn, rule)
  {
    hide Brings;
    var all, less := before + [rule] + after, before + after;
    if Answerable(all, conn) {
      assert all[|before|] == rule;
      forall i | 0 <= i < |less| ensures Brings(conn, less[i]) {
        assert less[i] == all[if i < |before| then i else i + 1];
      }
    } else if Answerable(less, conn) && Brings(conn, rule) {
      forall i | 0 <= i < |all| ensures Brings(conn, all[i]) {
        assert all[i] == if i < |before| then less[i] else if i == |before| then rule else less[i - 1];
      }
    }
  }

  /** A rule acts on its own: behind rules that do not apply it decides when it applies, and
      otherwise the list answers as if it were not there. */
  lemma RuleActsAlone(checks: Checks, before: seq<Rule>, rule: Rule, after: seq<Rule>, conn: Connection)
    requires Answerable(before + [rule] + after, conn)
    ensures Evaluation(checks, before + [rule] + after, conn) ==
            if Silent(checks, before, conn) && Matches(checks, rule, conn) then rule.action
            else Evaluation(checks, before + after, conn)
  {
    hide Matches, FirstMatch, Answerable, Guarded;
    GuardedIff(before + [rule] + after, conn);
    AnswerableWithout(before, rule, after, conn);
    GuardedIff(before + after, conn);
    FirstMatchAt(checks, before, rule, after, conn);
  }

  // ------------------------------------------------------------------ address ranges

  /** A rule whose range does not hold the address, or does not parse, can be deleted. */
  lemma OutOfRangeDeletable(checks: Checks, before: seq<Rule>, rule: Rule, after: seq<Rule>, conn: Connection)
    requires Answerable(before + [rule] + after, conn)
    requires rule.cidr.Some? && checks.contains(rule.cidr.value, conn.ip) != Some(true)
    ensures Evaluation(checks, before + [rule] + after, conn) == Evaluation(checks, before + after, conn)
  {
    hide Evaluation, Answerable;
    RuleActsAlone(checks, before, rule, after, conn);
  }

  /** A rule whose range holds the address acts as the rule without its range. */
  lemma InRangeAsWithout(checks: Checks, before: seq<Rule>, rule: Rule, after: seq<Rule>, conn: Connection)
    requires rule.cidr.Some? && checks.contains(rule.cidr.value, conn.ip) == Some(true)
    ensures Evaluation(checks, before + [rule] + after, conn) ==
            Evaluation(checks, before + [rule.(cidr := None)] + after, conn)
  {
    hide Evaluation;
    var free := rule.(cidr := None);
    AnswerableWithout(before, rule, after, conn);
    AnswerableWithout(before, free, after, conn);
    hide Answerable;
    if Answerable(before + [rule] + after, conn) {
      RuleActsAlone(checks, before, rule, after, conn);
      RuleActsAlone(checks, before, free, after, conn);
    } else {
      UnanswerableDenied(checks, before + [rule] + after, conn);
      UnanswerableDenied(checks, before + [free] + after, conn);
    }
  }

  /** A rule with a range alone, behind rules that do not apply, decides exactly the
      addresses in its range. */
  lemma RangeDecides(checks: Checks, before: seq<Rule>, cidr: string, action: Action, after: seq<Rule>, conn: Connection)
    requires Answerable(before + after, conn) && Silent(checks, before, conn)
    ensures Evaluation(checks, before + [Rule(Some(cidr), None, None, action)] + after, conn) ==
            if checks.contains(cidr, conn.ip) == Some(true) then action else Evaluation(checks, before + after, conn)
  {
    hide Evaluation;
    var rule := Rule(Some(cidr), None, None, action);
    AnswerableWithout(before, rule, after, conn);
    RuleActsAlone(checks, before, rule, after, conn);
  }

  /** A rule without conditions decides every connection that reaches it. */
  lemma BareRuleDecides(checks: Checks, before: seq<Rule>, action: Action, after: seq<Rule>, conn: Connection)
    requires Answerable(before + after, conn) && Silent(checks, before, conn)
    ensures Evaluation(checks, before + [Rule(None, None, None, action)] + after, conn) == action
  {
    hide Evaluation;
    var rule := Rule(None, None, None, action);
    AnswerableWithout(before, rule, after, conn);
    RuleActsAlone(checks, before, rule, after, conn);
  }

  // ------------------------------------------------------------------ client randoms

  function PrefixRule(text: string, action: Action): Rule {
    Rule(None, Some(text), None, action)
  }

  lemma PrefixRuleActs(checks: Checks, before: seq<Rule>, text: string, action: Action, after: seq<Rule>, conn: Connection)
    requires Answerable(before + after, conn) && conn.random.Some?
    ensures Evaluation(checks, before + [PrefixRule(text, action)] + after, conn) ==
            if Silent(checks, before, conn) && PrefixMatches(text, conn.random.value) then action
            else Evaluation(checks, before + after, conn)
  {
    hide Evaluation, PrefixMatches;
    var rule := PrefixRule(text, action);
    AnswerableWithout(before, rule, after, conn);
    RuleActsAlone(checks, before, rule, after, conn);
  }

  /** A rule with a plain hexadecimal prefix decides exactly the client randoms that begin
      with its bytes. */
  lemma PlainPrefixDecides(checks: Checks, before: seq<Rule>, text: string, bs: Octets, action: Action, after: seq<Rule>, conn: Connection)
    requires Answerable(before + after, conn) && conn.random.Some? && Silent(checks, before, conn) && Spells(text, bs)
    ensures Evaluation(checks, before + [PrefixRule(text, action)] + after, conn) ==
            if bs <= conn.random.value then action else Evaluation(checks, before + after, conn)
  {
    hide Evaluation, HexDecode, Answerable, Silent;
    PrefixRuleActs(checks, before, text, action, after, conn);
    HexReadIff(text, bs);
    SpellingHasNoSlash(text, bs);
  }

  lemma SpellingHasNoSlash(text: string, bs: Octets)
    requires Spells(text, bs)
    ensures '/' !in text
  {
    forall i | 0 <= i < |text| ensures text[i] != '/' {
      assert SpellsByte(text[2 * (i / 2)], text[2 * (i / 2) + 1], bs[i / 2]);
      Nibbles(bs[i / 2]);
      NoSlashDigit(text[2 * (i / 2)], bs[i / 2] >> 4);
      NoSlashDigit(text[2 * (i / 2) + 1], bs[i / 2] & 0xF);
      assert i == 2 * (i / 2) || i == 2 * (i / 2) + 1;
    }
  }

  lemma NoSlashDigit(c: char, n: bv8)
    requires n < 16 && Denotes(c, n)
    ensures c != '/'
  {
    DigitsListed(n);
  }

  lemma SlashFound(p: string, m: string)
    requires '/' !in p
    ensures var text := p + "/" + m;
            FindSlash(text) == Some(|p|) && text[..|p|] == p && text[|p| + 1..] == m
  {
    var text := p + "/" + m;
    assert text[|p|] == '/';
    assert forall n | |p| < n <= |text| :: text[..n][|p|] == '/';
  }

  /** The random shares every masked bit with the prefix, over the length all three have,
      which is not zero. */
  ghost predicate SharesMasked(random: Octets, prefix: Octets, mask: Octets) {
    && random != [] && prefix != [] && mask != []
    && forall i, bit | 0 <= i < |random| && i < |prefix| && i < |mask| && 0 <= bit < 8 ::
         Shares(random[i], prefix[i], mask[i], bit)
  }

  lemma AnyMaskMatchIff(random: Octets, prefix: Octets, mask: Octets)
    ensures MaskedMatch(random, prefix, mask) <==> SharesMasked(random, prefix, mask)
  {
    hide Shares;
    forall i | 0 <= i < |random| && i < |prefix| && i < |mask|
      ensures random[i] & mask[i] == prefix[i] & mask[i] <==>
              forall bit | 0 <= bit < 8 :: Shares(random[i], prefix[i], mask[i], bit)
    {
      MaskedEqualIff(random[i], prefix[i], mask[i]);
    }
  }

  /** A rule with a mask decides exactly the client randoms that share every masked bit. */
  lemma MaskedPrefixDecides(checks: Checks, before: seq<Rule>, p: string, m: string, prefix: Octets, mask: Octets, action: Action,
    after: seq<Rule>, conn: Connection)
    requires Answerable(before + after, conn) && conn.random.Some? && Silent(checks, before, conn)
    requires Spells(p, prefix) && Spells(m, mask)
    ensures Evaluation(checks, before + [PrefixRule(p + "/" + m, action)] + after, conn) ==
            if SharesMasked(conn.random.value, prefix, mask) then action else Evaluation(checks, before + after, conn)
  {
    hide Evaluation, HexDecode, Answerable, Silent, MaskedMatch, SharesMasked;
    PrefixRuleActs(checks, before, p + "/" + m, action, after, conn);
    HexReadIff(p, prefix);
    HexReadIff(m, mask);
    SpellingHasNoSlash(p, prefix);
    SlashFound(p, m);
    AnyMaskMatchIff(conn.random.value, prefix, mask);
  }

  /** A rule whose prefix is neither bytes nor bytes and a mask can be deleted. */
  lemma MalformedPrefixDeletable(checks: Checks, before: seq<Rule>, text: string, action: Action, after: seq<Rule>, conn: Connection)
    requires Answerable(before + after, conn) && conn.random.Some?
    requires !IsSpelling(text)
    requires forall n | 0 <= n < |text| && text[n] == '/' :: !IsSpelling(text[..n]) || !IsSpelling(text[n + 1..])
    ensures Evaluation(checks, before + [PrefixRule(text, action)] + after, conn) == Evaluation(checks, before + after, conn)
  {
    hide Evaluation, HexDecode, Answerable, Silent, MaskedMatch, IsSpelling;
    PrefixRuleActs(checks, before, text, action, after, conn);
    var slash := FindSlash(text);
    if slash.None? {
      NoSpelling(text);
    } else if !IsSpelling(text[..slash.value]) {
      NoSpelling(text[..slash.value]);
    } else {
      NoSpelling(text[slash.value + 1..]);
    }
  }

  // ------------------------------------------------------------------ auth keys

  function KeyRule(prefix: Option<string>, key: string, action: Action): Rule {
    Rule(None, prefix, Some(key), action)
  }

  lemma KeyRuleActs(checks: Checks, before: seq<Rule>, rule: Rule, after: seq<Rule>, conn: Connection)
    requires Answerable(before + [rule] + after, conn) && rule.cidr.None? && rule.authKey.Some?
    ensures conn.random.Some? && conn.sni.Some?
    ensures Evaluation(checks, before + [rule] + after, conn) ==
            if && Silent(checks, before, conn) && HexDecode(rule.authKey.value).Some?
               && checks.explains(HexDecode(rule.authKey.value).value, conn.random.value, conn.sni.value) then rule.action
            else Evaluation(checks, before + after, conn)
  {
    hide Evaluation, HexDecode;
    AnswerableWithout(before, rule, after, conn);
    RuleActsAlone(checks, before, rule, after, conn);
  }

  /** A rule with an auth key decides exactly the connections that its key explains, with a
      prefix beside it or without. */
  lemma KeyDecides(checks: Checks, before: seq<Rule>, prefix: Option<string>, text: string, key: Octets, action: Action,
    after: seq<Rule>, conn: Connection)
    requires Answerable(before + [KeyRule(prefix, text, action)] + after, conn) && Silent(checks, before, conn) && Spells(text, key)
    ensures conn.random.Some? && conn.sni.Some?
    ensures Evaluation(checks, before + [KeyRule(prefix, text, action)] + after, conn) ==
            if checks.explains(key, conn.random.value, conn.sni.value) then action else Evaluation(checks, before + after, conn)
  {
    hide Evaluation, HexDecode, Answerable, Silent;
    KeyRuleActs(checks, before, KeyRule(prefix, text, action), after, conn);
    HexReadIff(text, key);
  }

  /** A rule whose auth key is not hexadecimal can be deleted. */
  lemma MalformedKeyDeletable(checks: Checks, before: seq<Rule>, prefix: Option<string>, text: string, action: Action,
    after: seq<Rule>, conn: Connection)
    requires Answerable(before + [KeyRule(prefix, text, action)] + after, conn) && !IsSpelling(text)
    ensures Evaluation(checks, before + [KeyRule(prefix, text, action)] + after, conn) == Evaluation(checks, before + after, conn)
  {
    hide Evaluation, HexDecode, Answerable, Silent, IsSpelling;
    KeyRuleActs(checks, before, KeyRule(prefix, text, action), after, conn);
    NoSpelling(text);
  }
}
