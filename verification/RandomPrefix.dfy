/** Generating a client-random rule and putting it in front of the rule list. */
module RandomPrefix {
  import opened Bytes
  import opened Rules

  datatype Error =
    | EmptyMask
    | InvalidLength(length: nat)
    | InvalidPercent(percent: nat)
    | MaskTooLong(length: nat)

  datatype Generated = Generated(value: Octets, mask: Octets)

  /** A value has no bit outside its mask. */
  predicate Respects(value: Octets, mask: Octets) {
    |value| == |mask| && forall i | 0 <= i < |mask| :: value[i] & mask[i] == value[i]
  }

  /** What every generated prefix is. */
  predicate WellFormed(g: Generated) {
    1 <= |g.mask| <= 32 && Respects(g.value, g.mask)
  }

  // ------------------------------------------------------------------ bits

  function BitMask(bit: nat): bv8
    requires bit < 8
  {
    match bit
    case 0 => 1 case 1 => 2 case 2 => 4 case 3 => 8
    case 4 => 16 case 5 => 32 case 6 => 64 case _ => 128
  }

  predicate Bit(b: bv8, bit: nat)
    requires bit < 8
  {
    b & BitMask(bit) != 0
  }

  lemma SetBit(b: bv8, bit: nat, other: nat)
    requires bit < 8 && other < 8
    ensures Bit(b | BitMask(bit), other) <==> Bit(b, other) || other == bit
  {
  }

  /** One bit of the mask is clear or shared. */
  predicate Shares(x: bv8, y: bv8, m: bv8, bit: nat)
    requires bit < 8
  {
    Bit(m, bit) ==> (Bit(x, bit) <==> Bit(y, bit))
  }

  /** Two bytes are equal under a mask exactly when they share every bit of the mask. */
  lemma MaskedEqualIff(x: bv8, y: bv8, m: bv8)
    ensures x & m == y & m <==> forall bit | 0 <= bit < 8 :: Shares(x, y, m, bit)
  {
    hide Shares;
    forall bit | 0 <= bit < 8 ensures x & m == y & m ==> Shares(x, y, m, bit) {
      BitOfEqual(x, y, m, bit);
    }
    EqualByBits(x, y, m);
  }

  lemma BitOfEqual(x: bv8, y: bv8, m: bv8, bit: nat)
    requires bit < 8
    ensures x & m == y & m ==> Shares(x, y, m, bit)
  {
  }

  lemma EqualByBits(x: bv8, y: bv8, m: bv8)
    ensures
      && Shares(x, y, m, 0) && Shares(x, y, m, 1) && Shares(x, y, m, 2) && Shares(x, y, m, 3)
      && Shares(x, y, m, 4) && Shares(x, y, m, 5) && Shares(x, y, m, 6) && Shares(x, y, m, 7)
      ==> x & m == y & m
  {
  }

  // ------------------------------------------------------------------ generation

  /** The first bits of byte `i` are set where the draw for them is below the percentage. */
  predicate Drawn(b: bv8, draws: seq<nat>, i: nat, percent: nat, bits: nat)
    requires 8 * i + 8 <= |draws|
  {
    forall bit | 0 <= bit < 8 :: Bit(b, bit) <==> bit < bits && draws[8 * i + bit] < percent
  }

  lemma NoneDrawn(draws: seq<nat>, i: nat, percent: nat)
    requires 8 * i + 8 <= |draws|
    ensures Drawn(0, draws, i, percent, 0)
  {
  }

  lemma DrawBit(b: bv8, draws: seq<nat>, i: nat, percent: nat, bit: nat)
    requires 8 * i + 8 <= |draws| && bit < 8 && Drawn(b, draws, i, percent, bit)
    ensures draws[8 * i + bit] < percent ==> Drawn(b | BitMask(bit), draws, i, percent, bit + 1)
    ensures draws[8 * i + bit] >= percent ==> Drawn(b, draws, i, percent, bit + 1)
  {
    hide Bit, BitMask;
    var next := b | BitMask(bit);
    if draws[8 * i + bit] < percent {
      forall k | 0 <= k < 8 ensures Bit(next, k) <==> k < bit + 1 && draws[8 * i + k] < percent {
        SetBit(b, bit, k);
        assert Bit(b, k) <==> k < bit && draws[8 * i + k] < percent;
      }
    }
  }

  /** The draws of the random generator, one below 100 for each bit. */
  method GenerateMask(length: nat, percent: nat, draws: seq<nat>) returns (mask: array<bv8>)
    requires |draws| == 8 * length
    ensures fresh(mask) && mask.Length == length
    ensures forall i | 0 <= i < length :: Drawn(mask[i], draws, i, percent, 8)
  {
    hide Drawn, BitMask;
    mask := new bv8[length](_ => 0);
    for i := 0 to length
      invariant forall j | 0 <= j < i :: Drawn(mask[j], draws, j, percent, 8)
      invariant forall j | i <= j < length :: mask[j] == 0
    {
      NoneDrawn(draws, i, percent);
      for bit := 0 to 8
        invariant forall j | 0 <= j < i :: Drawn(mask[j], draws, j, percent, 8)
        invariant forall j | i < j < length :: mask[j] == 0
        invariant Drawn(mask[i], draws, i, percent, bit)
      {
        DrawBit(mask[i], draws, i, percent, bit);
        if draws[8 * i + bit] < percent {
          mask[i] := mask[i] | BitMask(bit);
        }
      }
    }
  }

  method GenerateValue(mask: array<bv8>, noise: Octets) returns (value: array<bv8>)
    requires |noise| == mask.Length
    ensures fresh(value) && Respects(value[..], mask[..])
    ensures forall i | 0 <= i < mask.Length :: value[i] == noise[i] & mask[i]
  {
    value := new bv8[mask.Length](_ => 0);
    for i := 0 to mask.Length
      invariant forall j | 0 <= j < i :: value[j] == noise[j] & mask[j]
    {
      value[i] := noise[i] & mask[i];
    }
  }

  method Generate(length: nat, percent: nat, draws: seq<nat>, noise: Octets) returns (r: Result<Generated, Error>)
    requires |draws| == 8 * length && |noise| == length
    ensures r.Ok? <==> 1 <= length <= 32 && 1 <= percent <= 100
    ensures r.Ok? ==> WellFormed(r.value) && |r.value.mask| == length
    ensures r.Ok? ==> forall i | 0 <= i < length :: Drawn(r.value.mask[i], draws, i, percent, 8)
    ensures r.Ok? ==> (IsEmpty(r.value.mask) <==> forall k | 0 <= k < |draws| :: draws[k] >= percent)
    ensures r.Err? ==> r.error == if 1 <= length <= 32 then InvalidPercent(percent) else InvalidLength(length)
  {
    if !(1 <= length <= 32) { return Err(InvalidLength(length)); }
    if !(1 <= percent <= 100) { return Err(InvalidPercent(percent)); }
    var mask := GenerateMask(length, percent, draws);
    var value := GenerateValue(mask, noise);
    MaskEmptyIff(mask[..], percent, draws);
    return Ok(Generated(value[..], mask[..]));
  }

  method GenerateWithMask(mask: Octets, noise: Octets) returns (r: Result<Generated, Error>)
    requires |noise| == |mask|
    ensures r.Ok? <==> 1 <= |mask| <= 32
    ensures r.Ok? ==> WellFormed(r.value) && r.value.mask == mask
    ensures r.Err? ==> r.error == if mask == [] then EmptyMask else MaskTooLong(|mask|)
  {
    if mask == [] { return Err(EmptyMask); }
    if |mask| > 32 { return Err(MaskTooLong(|mask|)); }
    var copy := new bv8[|mask|](i requires 0 <= i < |mask| => mask[i]);
    assert copy[..] == mask;
    var value := GenerateValue(copy, noise);
    return Ok(Generated(value[..], mask));
  }

  // ------------------------------------------------------------------ the rule

  function MaskedHex(g: Generated): string {
    HexEncode(g.value) + "/" + HexEncode(g.mask)
  }

  function AllowRule(text: string): Rule {
    Rule(None, Some(text), None, Allow)
  }

  /** The new rule is pushed on the emptied list, then the old ones. */
  method AppendAllowRule(rules: seq<Rule>, text: string) returns (r: seq<Rule>)
    ensures r == [AllowRule(text)] + rules
  {
    var tail := rules;
    r := [];
    r := r + [AllowRule(text)];
    for i := 0 to |tail|
      invariant r == [AllowRule(text)] + tail[..i]
    {
      r := r + [tail[i]];
    }
  }

  /** A client random shares with the value every bit of the mask, on the bytes it has. */
  predicate Agrees(random: Octets, g: Generated)
    requires |g.value| == |g.mask|
  {
    && random != []
    && forall i, bit | 0 <= i < Min(|g.mask|, |random|) && 0 <= bit < 8 :: Shares(random[i], g.value[i], g.mask[i], bit)
  }

  /** The printed rule is read back, and matches the client randoms that agree. */
  lemma MaskedHexMatches(g: Generated, random: Octets)
    requires WellFormed(g)
    ensures PrefixMatches(MaskedHex(g), random) <==> Agrees(random, g)
  {
    hide HexEncode, HexDecode, FindSlash;
    var text, n := MaskedHex(g), |HexEncode(g.value)|;
    HexRoundTrip(g.value);
    HexRoundTrip(g.mask);
    assert text[n] == '/' && text[..n] == HexEncode(g.value) && text[n + 1..] == HexEncode(g.mask);
    SlashAt(text, n);
    MaskedMatchIff(g, random);
  }

  lemma SlashAt(text: string, n: nat)
    requires n < |text| && text[n] == '/' && '/' !in text[..n]
    ensures FindSlash(text) == Some(n)
  {
  }

  lemma MaskedMatchIff(g: Generated, random: Octets)
    requires WellFormed(g)
    ensures MaskedMatch(random, g.value, g.mask) <==> Agrees(random, g)
  {
    hide Shares;
    var n := Min(|g.mask|, |random|);
    forall i | 0 <= i < n
      ensures random[i] & g.mask[i] == g.value[i] & g.mask[i]
         <==> forall bit | 0 <= bit < 8 :: Shares(random[i], g.value[i], g.mask[i], bit)
    {
      MaskedEqualIff(random[i], g.value[i], g.mask[i]);
    }
  }

  lemma GuardedAfter(rules: seq<Rule>, text: string, conn: Connection)
    ensures Guarded([AllowRule(text)] + rules, conn)
       <==> conn.random.None? || (SniMissing(conn) && HasAuthKeyRule(rules))
  {
    var all := [AllowRule(text)] + rules;
    assert all[0].prefix.Some?;
    assert forall i | 0 <= i < |rules| :: all[i + 1] == rules[i];
    assert forall i | 0 < i < |all| :: all[i] == rules[i - 1];
  }

  /** Adding a generated rule allows the connections that agree with it, unless the
      missing-SNI guard denies them, leaves every other connection with a client random
      as it was, and denies every connection without one. */
  lemma InsertionExtends(checks: Checks, rules: seq<Rule>, g: Generated, conn: Connection)
    requires WellFormed(g)
    ensures var rules' := [AllowRule(MaskedHex(g))] + rules;
            Evaluation(checks, rules', conn)
            == if conn.random.None? then Deny
               else if !Agrees(conn.random.value, g) then Evaluation(checks, rules, conn)
               else if SniMissing(conn) && HasAuthKeyRule(rules) then Deny
               else Allow
  {
    hide PrefixMatches, MaskedHex, Agrees, HasAuthKeyRule, HasPrefixRule, Guarded;
    var text := MaskedHex(g);
    var rules' := [AllowRule(text)] + rules;
    GuardedAfter(rules, text, conn);
    assert rules'[0] == AllowRule(text) && rules'[1..] == rules;
    if conn.random.Some? {
      MaskedHexMatches(g, conn.random.value);
      assert Matches(checks, rules'[0], conn) <==> Agrees(conn.random.value, g);
      assert Guarded(rules, conn) <==> SniMissing(conn) && HasAuthKeyRule(rules) by { GuardedWithRandom(rules, conn); }
    }
  }

  lemma GuardedWithRandom(rules: seq<Rule>, conn: Connection)
    requires conn.random.Some?
    ensures Guarded(rules, conn) <==> SniMissing(conn) && HasAuthKeyRule(rules)
  {
  }

  predicate IsEmpty(mask: Octets) {
    forall i | 0 <= i < |mask| :: mask[i] == 0
  }

  /** Every client random agrees exactly when the mask is empty. */
  lemma AllAgreeIffEmptyMask(g: Generated)
    requires WellFormed(g)
    ensures (forall random: Octets | random != [] :: Agrees(random, g)) <==> IsEmpty(g.mask)
  {
    if IsEmpty(g.mask) {
      forall random: Octets | random != [] ensures Agrees(random, g) {
        MaskedMatchIff(g, random);
      }
    } else {
      var i :| 0 <= i < |g.mask| && g.mask[i] != 0;
      var random := g.value[i := g.value[i] ^ g.mask[i]];
      Flipped(g.value[i], g.mask[i]);
      MaskedMatchIff(g, random);
    }
  }

  lemma Flipped(v: bv8, m: bv8)
    requires m != 0
    ensures (v ^ m) & m != v & m
  {
  }

  /** A draw below the percentage leaves its bit in the byte, and every bit has one. */
  lemma DrawSeen(b: bv8, draws: seq<nat>, i: nat, percent: nat, bit: nat)
    requires 8 * i + 8 <= |draws| && bit < 8 && Drawn(b, draws, i, percent, 8)
    ensures Bit(b, bit) <==> draws[8 * i + bit] < percent
    ensures draws[8 * i + bit] < percent ==> b != 0
  {
    hide Bit;
    ZeroHasNoBit(bit);
  }

  lemma ZeroHasNoBit(bit: nat)
    requires bit < 8
    ensures !Bit(0, bit)
  {
  }

  lemma SomeBit(b: bv8) returns (bit: nat)
    requires b != 0
    ensures bit < 8 && Bit(b, bit)
  {
    bit := if b & 1 != 0 then 0 else if b & 2 != 0 then 1 else if b & 4 != 0 then 2 else if b & 8 != 0 then 3
           else if b & 16 != 0 then 4 else if b & 32 != 0 then 5 else if b & 64 != 0 then 6 else 7;
  }

  /** A generated mask is empty exactly when no draw is below the percentage. */
  lemma MaskEmptyIff(mask: Octets, percent: nat, draws: seq<nat>)
    requires |draws| == 8 * |mask| && forall i | 0 <= i < |mask| :: Drawn(mask[i], draws, i, percent, 8)
    ensures IsEmpty(mask) <==> forall k | 0 <= k < |draws| :: draws[k] >= percent
  {
    hide Drawn;
    forall k | 0 <= k < |draws| && draws[k] < percent ensures mask[k / 8] != 0 {
      DrawSeen(mask[k / 8], draws, k / 8, percent, k % 8);
    }
    if !IsEmpty(mask) {
      var i :| 0 <= i < |mask| && mask[i] != 0;
      var bit := SomeBit(mask[i]);
      DrawSeen(mask[i], draws, i, percent, bit);
    }
  }
}
