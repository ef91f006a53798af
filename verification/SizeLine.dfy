/** Which lines are taken for the size of a chunk, and for which size. */
module SizeLine {
  import opened Bytes
  import opened ReverseProxy
  import Utf8

  const PLUS: Byte := 43

  // ------------------------------------------------------------------ numbers

  function Digit(n: nat): Byte
    requires n < 16
  {
    "0123456789abcdef"[n] as int
  }

  /** A number in lower case, without leading zeros. */
  function Hex(n: nat): (s: Buffer)
    ensures s != []
  {
    if n < 16 then [Digit(n)] else Hex(n / 16) + [Digit(n % 16)]
  }

  function Lower(b: Byte): Byte {
    if 'A' as int <= b <= 'F' as int then b + ('a' as int - 'A' as int) else b
  }

  function LowerCase(s: Buffer): (r: Buffer)
    ensures |r| == |s|
  {
    seq(|s|, i requires 0 <= i < |s| => Lower(s[i]))
  }

  function Zeros(k: nat): Buffer {
    seq(k, _ => '0' as int)
  }

  /** Digits of a number in either case, behind any zeros. */
  ghost predicate Spell(digits: Buffer, n: nat) {
    exists k: nat :: LowerCase(digits) == Zeros(k) + Hex(n)
  }

  lemma DigitRead(b: Byte)
    requires IsHexDigit(b)
    ensures HexDigit(b) < 16 && Lower(b) == Digit(HexDigit(b))
  {
  }

  lemma DigitListed(n: nat)
    requires n < 16
    ensures IsHexDigit(Digit(n)) && HexDigit(Digit(n)) == n
    ensures '0' as int <= Digit(n) <= '9' as int || 'a' as int <= Digit(n) <= 'f' as int
  {
    assert n == 0 || n == 1 || n == 2 || n == 3 || n == 4 || n == 5 || n == 6 || n == 7
           || n == 8 || n == 9 || n == 10 || n == 11 || n == 12 || n == 13 || n == 14 || n == 15;
  }

  lemma ValueStep(s: Buffer, d: nat)
    requires AllHex(s) && d < 16
    ensures AllHex(s + [Digit(d)]) && HexValue(s + [Digit(d)]) == HexValue(s) * 16 + d
  {
    hide IsHexDigit, HexDigit, Digit;
    DigitListed(d);
    assert (s + [Digit(d)])[..|s|] == s;
  }

  lemma {:induction false} HexIsHex(n: nat)
    ensures AllHex(Hex(n)) && HexValue(Hex(n)) == n
    decreases n
  {
    hide AllHex, HexValue, Digit;
    if n >= 16 {
      HexIsHex(n / 16);
      ValueStep(Hex(n / 16), n % 16);
    } else {
      NoDigits();
      ValueStep([], n);
      assert [] + [Digit(n)] == [Digit(n)];
    }
  }

  lemma NoDigits()
    ensures AllHex([]) && HexValue([]) == 0
  {
  }

  lemma {:induction false} ZerosBefore(k: nat, s: Buffer)
    requires AllHex(s)
    ensures AllHex(Zeros(k) + s) && HexValue(Zeros(k) + s) == HexValue(s)
    decreases |s|, k
  {
    var all := Zeros(k) + s;
    if s != [] {
      assert all[..|all| - 1] == Zeros(k) + s[..|s| - 1];
      ZerosBefore(k, s[..|s| - 1]);
    } else if k > 0 {
      assert all[..|all| - 1] == Zeros(k - 1) + s;
      ZerosBefore(k - 1, s);
    }
  }

  lemma {:induction false} CaseIgnored(s: Buffer)
    ensures AllHex(s) <==> AllHex(LowerCase(s))
    ensures AllHex(s) ==> HexValue(LowerCase(s)) == HexValue(s)
    decreases |s|
  {
    assert forall i | 0 <= i < |s| :: LowerCase(s)[i] == Lower(s[i]);
    if s != [] {
      CaseIgnored(s[..|s| - 1]);
      assert LowerCase(s)[..|s| - 1] == LowerCase(s[..|s| - 1]);
    }
  }

  lemma HexExtend(v: nat, d: nat)
    requires d < 16 && v > 0
    ensures Hex(v * 16 + d) == Hex(v) + [Digit(d)]
  {
  }

  lemma {:induction false} ValueSpelled(s: Buffer)
    requires s != [] && AllHex(s)
    ensures Spell(s, HexValue(s))
    decreases |s|
  {
    hide IsHexDigit, HexDigit, Digit, Lower, Hex;
    var front, last := s[..|s| - 1], s[|s| - 1];
    var d := HexDigit(last);
    DigitRead(last);
    assert LowerCase(s) == LowerCase(front) + [Digit(d)];
    if front == [] {
      assert Hex(d) == [Digit(d)] by { SmallHex(d); }
      assert LowerCase(s) == Zeros(0) + Hex(d);
    } else {
      ValueSpelled(front);
      var v := HexValue(front);
      var k: nat :| LowerCase(front) == Zeros(k) + Hex(v);
      if v == 0 {
        SmallHex(d);
        SmallHex(0);
        assert Digit(0) == '0' as int by { ZeroDigit(); }
        assert LowerCase(s) == Zeros(k + 1) + Hex(d);
      } else {
        HexExtend(v, d);
        assert LowerCase(s) == Zeros(k) + Hex(v * 16 + d);
      }
    }
  }

  lemma SmallHex(d: nat)
    requires d < 16
    ensures Hex(d) == [Digit(d)]
  {
  }

  lemma ZeroDigit()
    ensures Digit(0) == '0' as int
  {
  }

  /** Digits are read as a number exactly when they spell it. */
  lemma ValueIff(s: Buffer, n: nat)
    ensures s != [] && AllHex(s) && HexValue(s) == n <==> Spell(s, n)
  {
    hide HexValue;
    if s != [] && AllHex(s) && HexValue(s) == n {
      ValueSpelled(s);
    }
    if Spell(s, n) {
      var k: nat :| LowerCase(s) == Zeros(k) + Hex(n);
      HexIsHex(n);
      ZerosBefore(k, Hex(n));
      CaseIgnored(s);
    }
  }

  // ------------------------------------------------------------------ white space

  /** The code points with the White_Space property. */
  predicate IsSpace(v: nat) {
    || 0x9 <= v <= 0xD || v == 0x20 || v == 0x85 || v == 0xA0 || v == 0x1680
    || 0x2000 <= v <= 0x200A || v == 0x2028 || v == 0x2029 || v == 0x202F || v == 0x205F || v == 0x3000
  }

  function Space(v: nat): Buffer
    requires IsSpace(v)
  {
    Utf8.Encoded(v)
  }

  predicate Spaces(vs: seq<nat>) {
    forall i | 0 <= i < |vs| :: IsSpace(vs[i])
  }

  function Blank(vs: seq<nat>): Buffer
    requires Spaces(vs)
  {
    if vs == [] then [] else Space(vs[0]) + Blank(vs[1..])
  }

  lemma SpaceEncoded(v: nat)
    requires IsSpace(v)
    ensures IsWhiteSpace(Space(v)) && |Space(v)| <= 3 && SEMICOLON !in Space(v)
  {
  }

  lemma SpaceDecoded(s: Buffer) returns (v: nat)
    requires IsWhiteSpace(s)
    ensures IsSpace(v) && Space(v) == s
  {
    if |s| == 1 {
      v := s[0];
    } else if |s| == 2 {
      v := if s[1] == 0x85 then 0x85 else 0xA0;
    } else if s[0] == 0xE1 {
      v := 0x1680;
    } else if s[0] == 0xE3 {
      v := 0x3000;
    } else {
      v := 0x2000 + (s[1] as int - 0x80) * 64 + (s[2] as int - 0x80);
    }
  }

  lemma LeadingRead(w: Buffer, rest: Buffer)
    requires IsWhiteSpace(w)
    ensures LeadingSpace(w + rest) == |w|
  {
    var s := w + rest;
    assert s[..|w|] == w;
    assert forall n | 1 <= n < |w| :: s[..n][0] == w[0];
  }

  lemma TrailingRead(w: Buffer, rest: Buffer)
    requires IsWhiteSpace(w)
    ensures TrailingSpace(rest + w) == |w|
  {
    var s := rest + w;
    assert s[|s| - |w|..] == w;
    assert |w| > 1 ==> s[|s| - 1..] == [w[|w| - 1]];
    assert |w| > 2 ==> s[|s| - 2..] == [w[|w| - 2], w[|w| - 1]];
  }

  lemma NoneLeads(s: Buffer)
    requires s != [] && (IsHexDigit(s[0]) || s[0] == PLUS)
    ensures LeadingSpace(s) == 0
  {
  }

  lemma NoneTrails(s: Buffer)
    requires s != [] && IsHexDigit(s[|s| - 1])
    ensures TrailingSpace(s) == 0
  {
  }

  lemma SpaceFound(s: Buffer)
    ensures LeadingSpace(s) > 0 ==> IsWhiteSpace(s[..LeadingSpace(s)])
    ensures TrailingSpace(s) > 0 ==> IsWhiteSpace(s[|s| - TrailingSpace(s)..])
  {
  }

  lemma TrimLeading(s: Buffer)
    requires LeadingSpace(s) > 0
    ensures Trim(s) == Trim(s[LeadingSpace(s)..])
  {
  }

  lemma TrimTrailing(s: Buffer)
    requires LeadingSpace(s) == 0
    ensures Trim(s) == if TrailingSpace(s) > 0 then Trim(s[..|s| - TrailingSpace(s)]) else s
  {
  }

  lemma {:induction false} BlankAppend(vs: seq<nat>, v: nat)
    requires Spaces(vs) && IsSpace(v)
    ensures Spaces(vs + [v]) && Blank(vs + [v]) == Blank(vs) + Space(v)
    decreases |vs|
  {
    hide IsSpace, Space;
    var all := vs + [v];
    assert Spaces(all);
    if vs == [] {
      assert all[1..] == [];
      assert Space(v) + Blank([]) == Space(v);
    } else {
      assert all[1..] == vs[1..] + [v];
      BlankAppend(vs[1..], v);
    }
  }

  /** The size as it stands: an optional plus sign and digits. */
  predicate IsCore(core: Buffer) {
    core != [] && (IsHexDigit(core[0]) || core[0] == PLUS) && IsHexDigit(core[|core| - 1])
  }

  lemma {:induction false} TrimAfter(core: Buffer, after: seq<nat>)
    requires IsCore(core) && Spaces(after)
    ensures Trim(core + Blank(after)) == core
    decreases |after|
  {
    hide IsSpace, Space, IsHexDigit, LeadingSpace, TrailingSpace, Trim, IsWhiteSpace;
    var s := core + Blank(after);
    NoneLeads(s);
    TrimTrailing(s);
    if after == [] {
      assert s == core;
      NoneTrails(s);
    } else {
      var front, last := after[..|after| - 1], after[|after| - 1];
      BlankAppend(front, last);
      assert front + [last] == after;
      var w := Space(last);
      SpaceEncoded(last);
      assert s == core + Blank(front) + w;
      TrailingRead(w, core + Blank(front));
      assert s[..|s| - |w|] == core + Blank(front);
      TrimAfter(core, front);
    }
  }

  lemma {:induction false} TrimAround(before: seq<nat>, core: Buffer, after: seq<nat>)
    requires IsCore(core) && Spaces(before) && Spaces(after)
    ensures Trim(Blank(before) + core + Blank(after)) == core
    decreases |before|
  {
    hide IsSpace, Space, IsHexDigit, LeadingSpace, Trim, IsWhiteSpace;
    var s := Blank(before) + core + Blank(after);
    if before == [] {
      assert s == core + Blank(after);
      TrimAfter(core, after);
    } else {
      var w, rest := Space(before[0]), Blank(before[1..]) + core + Blank(after);
      SpaceEncoded(before[0]);
      assert s == w + rest;
      LeadingRead(w, rest);
      TrimLeading(s);
      assert s[|w|..] == rest;
      TrimAround(before[1..], core, after);
    }
  }

  lemma PutBefore(v: nat, s: Buffer, before: seq<nat>, core: Buffer, after: seq<nat>)
    requires IsSpace(v) && Spaces(before) && Spaces(after) && s == Blank(before) + core + Blank(after)
    ensures Spaces([v] + before) && Space(v) + s == Blank([v] + before) + core + Blank(after)
  {
    hide IsSpace, Space;
    assert ([v] + before)[1..] == before;
    var a, b := Blank(before), Blank(after);
    assert Space(v) + (a + core + b) == (Space(v) + a) + core + b;
  }

  lemma PutBehind(v: nat, s: Buffer, before: seq<nat>, core: Buffer, after: seq<nat>)
    requires IsSpace(v) && Spaces(before) && Spaces(after) && s == Blank(before) + core + Blank(after)
    ensures Spaces(after + [v]) && s + Space(v) == Blank(before) + core + Blank(after + [v])
  {
    hide IsSpace, Space, Blank;
    BlankAppend(after, v);
  }

  lemma {:induction false} TrimParts(s: Buffer) returns (before: seq<nat>, after: seq<nat>)
    ensures Spaces(before) && Spaces(after) && s == Blank(before) + Trim(s) + Blank(after)
    decreases |s|
  {
    hide IsSpace, Space, Trim, IsWhiteSpace, LeadingSpace, TrailingSpace, Blank, Spaces;
    var n, m := LeadingSpace(s), TrailingSpace(s);
    SpaceFound(s);
    if n > 0 {
      TrimLeading(s);
      var v := SpaceDecoded(s[..n]);
      before, after := TrimParts(s[n..]);
      assert s == s[..n] + s[n..];
      PutBefore(v, s[n..], before, Trim(s), after);
      before := [v] + before;
    } else if m > 0 {
      TrimTrailing(s);
      var v := SpaceDecoded(s[|s| - m..]);
      before, after := TrimParts(s[..|s| - m]);
      assert s == s[..|s| - m] + s[|s| - m..];
      PutBehind(v, s[..|s| - m], before, Trim(s), after);
      after := after + [v];
    } else {
      TrimTrailing(s);
      before, after := [], [];
      NoBlank();
      assert s == [] + s + [];
    }
  }

  lemma NoBlank()
    ensures Spaces([]) && Blank([]) == []
  {
  }

  // ------------------------------------------------------------------ the line

  /** White space, a plus sign or none, digits, white space, and an extension or none. */
  ghost predicate IsLine(line: Buffer, before: seq<nat>, plus: bool, digits: Buffer, after: seq<nat>, ext: Buffer, n: nat) {
    && Spaces(before) && Spaces(after)
    && line == Blank(before) + ((if plus then [PLUS] else []) + digits) + Blank(after) + ext
    && Spell(digits, n)
    && (ext == [] || ext[0] == ';' as int)
  }

  ghost predicate SaysSize(line: Buffer, n: nat) {
    exists before, plus, digits, after, ext :: IsLine(line, before, plus, digits, after, ext, n)
  }

  lemma {:induction false} UpToParts(b: Buffer, c: Byte) returns (rest: Buffer)
    ensures b == UpTo(b, c) + rest && (rest == [] || rest[0] == c)
    decreases |b|
  {
    if b == [] || b[0] == c {
      rest := b;
    } else {
      rest := UpToParts(b[1..], c);
      assert b == [b[0]] + b[1..];
    }
  }

  lemma {:induction false} UpToOf(a: Buffer, rest: Buffer, c: Byte)
    requires c !in a && (rest == [] || rest[0] == c)
    ensures UpTo(a + rest, c) == a
    decreases |a|
  {
    if a == [] {
      assert a + rest == rest;
    } else {
      assert (a + rest)[1..] == a[1..] + rest;
      UpToOf(a[1..], rest, c);
    }
  }

  lemma {:induction false} BlankHasNoSemicolon(vs: seq<nat>)
    requires Spaces(vs)
    ensures SEMICOLON !in Blank(vs)
    decreases |vs|
  {
    hide IsSpace, Space;
    if vs != [] {
      SpaceEncoded(vs[0]);
      BlankHasNoSemicolon(vs[1..]);
    }
  }

  lemma NumberOfCore(s: Buffer, n: nat) returns (plus: bool, digits: Buffer)
    requires FromStrRadix16(s) == Some(n)
    ensures n < 0x1_0000_0000_0000_0000 && s == (if plus then [PLUS] else []) + digits && Spell(digits, n)
  {
    hide HexValue, IsHexDigit, Spell;
    plus := |s| > 1 && s[0] == PLUS;
    digits := if plus then s[1..] else s;
    ValueIff(digits, n);
    assert s == (if plus then [PLUS] else []) + digits;
  }

  lemma CoreOfNumber(plus: bool, digits: Buffer, n: nat)
    requires Spell(digits, n)
    ensures var s := (if plus then [PLUS] else []) + digits;
            && IsCore(s) && SEMICOLON !in s
            && FromStrRadix16(s) == if n < 0x1_0000_0000_0000_0000 then Some(n) else None
  {
    hide HexValue;
    ValueIff(digits, n);
    var s := (if plus then [PLUS] else []) + digits;
    assert IsHexDigit(digits[0]) && IsHexDigit(digits[|digits| - 1]);
    assert plus ==> s[1..] == digits;
    assert !plus ==> s == digits;
  }

  /** A line gives a size if and only if it is UTF-8 and is that size below 2^64 in
      hexadecimal, with white space around it, a plus sign before it and an extension
      behind it or without. */
  lemma SizeIff(line: Buffer, n: nat)
    ensures ChunkSize(line) == Some(n) <==> IsUtf8(line) && n < 0x1_0000_0000_0000_0000 && SaysSize(line, n)
  {
    hide IsUtf8, Trim, UpTo, FromStrRadix16, Spell, IsSpace, IsCore;
    if ChunkSize(line) == Some(n) {
      var ext := UpToParts(line, SEMICOLON);
      var before, after := TrimParts(UpTo(line, SEMICOLON));
      var plus, digits := NumberOfCore(Trim(UpTo(line, SEMICOLON)), n);
      assert IsLine(line, before, plus, digits, after, ext, n);
    }
    if IsUtf8(line) && n < 0x1_0000_0000_0000_0000 && SaysSize(line, n) {
      var before, plus, digits, after, ext :| IsLine(line, before, plus, digits, after, ext, n);
      var core := (if plus then [PLUS] else []) + digits;
      CoreOfNumber(plus, digits, n);
      BlankHasNoSemicolon(before);
      BlankHasNoSemicolon(after);
      UpToOf(Blank(before) + core + Blank(after), ext, SEMICOLON);
      TrimAround(before, core, after);
    }
  }
}
