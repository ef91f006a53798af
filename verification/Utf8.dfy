/** UTF-8 by its encoder: the byte strings that are taken are the encodings of scalar values. */
module Utf8 {
  import opened Bytes

  /** A Unicode scalar value: a code point that is not a surrogate. */
  predicate IsScalar(v: nat) {
    v < 0xD800 || 0xE000 <= v < 0x11_0000
  }

  /** The encoding of section 3 of RFC 3629. */
  function Encoded(v: nat): (s: Buffer)
    requires IsScalar(v)
    ensures 1 <= |s| <= 4
  {
    if v < 0x80 then [v]
    else if v < 0x800 then [0xC0 + v / 64, 0x80 + v % 64]
    else if v < 0x1_0000 then [0xE0 + v / 4096, 0x80 + v / 64 % 64, 0x80 + v % 64]
    else [0xF0 + v / 0x4_0000, 0x80 + v / 4096 % 64, 0x80 + v / 64 % 64, 0x80 + v % 64]
  }

  predicate AllScalars(vs: seq<nat>) {
    forall i | 0 <= i < |vs| :: IsScalar(vs[i])
  }

  function Text(vs: seq<nat>): Buffer
    requires AllScalars(vs)
  {
    if vs == [] then [] else Encoded(vs[0]) + Text(vs[1..])
  }

  lemma ScalarRead(v: nat, rest: Buffer)
    requires IsScalar(v)
    ensures ScalarLength(Encoded(v) + rest) == |Encoded(v)|
  {
    var s := Encoded(v) + rest;
    if 0x800 <= v < 0x1_0000 {
      assert s[0] == 0xE0 + v / 4096 && s[1] == 0x80 + v / 64 % 64;
    } else if v >= 0x1_0000 {
      assert s[0] == 0xF0 + v / 0x4_0000 && s[1] == 0x80 + v / 4096 % 64;
    }
  }

  lemma ScalarAt(s: Buffer) returns (v: nat)
    requires s != [] && ScalarLength(s) > 0
    ensures IsScalar(v) && Encoded(v) == s[..ScalarLength(s)]
  {
    var n := ScalarLength(s);
    if n == 1 {
      v := s[0];
    } else if n == 2 {
      v := TwoBytes(s[0], s[1]);
    } else if n == 3 {
      v := ThreeBytes(s[0], s[1], s[2]);
    } else {
      v := FourBytes(s[0], s[1], s[2], s[3]);
    }
  }

  lemma TwoBytes(a: Byte, b: Byte) returns (v: nat)
    requires 0xC2 <= a <= 0xDF && 0x80 <= b <= 0xBF
    ensures IsScalar(v) && Encoded(v) == [a, b]
  {
    v := (a as int - 0xC0) * 64 + (b as int - 0x80);
  }

  lemma ThreeBytes(a: Byte, b: Byte, c: Byte) returns (v: nat)
    requires 0xE0 <= a <= 0xEF && 0x80 <= b <= 0xBF && 0x80 <= c <= 0xBF
    requires (a == 0xE0 ==> b >= 0xA0) && (a == 0xED ==> b <= 0x9F)
    ensures IsScalar(v) && Encoded(v) == [a, b, c]
  {
    v := (a as int - 0xE0) * 4096 + (b as int - 0x80) * 64 + (c as int - 0x80);
    assert v / 64 == (a as int - 0xE0) * 64 + (b as int - 0x80);
  }

  lemma FourBytes(a: Byte, b: Byte, c: Byte, d: Byte) returns (v: nat)
    requires 0xF0 <= a <= 0xF4 && 0x80 <= b <= 0xBF && 0x80 <= c <= 0xBF && 0x80 <= d <= 0xBF
    requires (a == 0xF0 ==> b >= 0x90) && (a == 0xF4 ==> b <= 0x8F)
    ensures IsScalar(v) && Encoded(v) == [a, b, c, d]
  {
    v := (a as int - 0xF0) * 0x4_0000 + (b as int - 0x80) * 4096 + (c as int - 0x80) * 64 + (d as int - 0x80);
    assert v / 64 == (a as int - 0xF0) * 4096 + (b as int - 0x80) * 64 + (c as int - 0x80);
    assert v / 4096 == (a as int - 0xF0) * 64 + (b as int - 0x80);
  }

  lemma {:induction false} TextIsUtf8(vs: seq<nat>)
    requires AllScalars(vs)
    ensures IsUtf8(Text(vs))
    decreases |vs|
  {
    hide ScalarLength, Encoded;
    if vs != [] {
      var rest := Text(vs[1..]);
      ScalarRead(vs[0], rest);
      TextIsUtf8(vs[1..]);
      assert (Encoded(vs[0]) + rest)[|Encoded(vs[0])|..] == rest;
    }
  }

  lemma {:induction false} ScalarsOf(s: Buffer) returns (vs: seq<nat>)
    requires IsUtf8(s)
    ensures AllScalars(vs) && Text(vs) == s
    decreases |s|
  {
    hide ScalarLength, Encoded;
    if s == [] {
      vs := [];
    } else {
      var n := ScalarLength(s);
      var v := ScalarAt(s);
      var more := ScalarsOf(s[n..]);
      vs := [v] + more;
      assert vs[1..] == more && s[..n] + s[n..] == s;
    }
  }

  ghost predicate IsText(s: Buffer) {
    exists vs :: AllScalars(vs) && Text(vs) == s
  }

  /** Exactly the encodings of scalar values are taken for text. */
  lemma Utf8Iff(s: Buffer)
    ensures IsUtf8(s) <==> IsText(s)
  {
    if IsUtf8(s) {
      var vs := ScalarsOf(s);
    }
    if IsText(s) {
      var vs :| AllScalars(vs) && Text(vs) == s;
      TextIsUtf8(vs);
    }
  }

  lemma BigEndianStep(bs: Buffer, b: Byte)
    ensures BigEndian(bs + [b]) == BigEndian(bs) * 256 + b
  {
    assert (bs + [b])[..|bs|] == bs;
  }

  /** Integers are read with the most significant byte first. */
  lemma ReadBigEndian(b: Buffer, at: nat)
    requires at + 4 <= |b|
    ensures GetU16(b, at) == BigEndian(b[at..at + 2]) && GetU32(b, at) == BigEndian(b[at..at + 4])
  {
    hide BigEndian;
    assert b[at..at] == [] && BigEndian([]) == 0 by { NothingSpelled(); }
    BigEndianStep(b[at..at], b[at]);
    BigEndianStep(b[at..at + 1], b[at + 1]);
    BigEndianStep(b[at..at + 2], b[at + 2]);
    BigEndianStep(b[at..at + 3], b[at + 3]);
    assert b[at..at] + [b[at]] == b[at..at + 1];
    assert b[at..at + 1] + [b[at + 1]] == b[at..at + 2];
    assert b[at..at + 2] + [b[at + 2]] == b[at..at + 3];
    assert b[at..at + 3] + [b[at + 3]] == b[at..at + 4];
  }

  lemma NothingSpelled()
    ensures BigEndian([]) == 0
  {
  }
}
