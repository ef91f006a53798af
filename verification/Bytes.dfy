/** Bytes, buffers and the small result types shared by the other modules. */
module Bytes {

  type Byte = x: int | 0 <= x < 256

  type Buffer = seq<Byte>

  type U16 = x: int | 0 <= x < 0x1_0000

  /** One more than the largest 64-bit number. */
  const U64_END := 0x1_0000_0000_0000_0000

  datatype Option<+T> = None | Some(value: T)

  datatype Result<+T, +E> = Ok(value: T) | Err(error: E) {
    predicate IsFailure() {
      Err?
    }

    function PropagateFailure<U>(): Result<U, E>
      requires Err?
    {
      Err(error)
    }

    function Extract(): T
      requires Ok?
    {
      value
    }
  }

  function Min(a: int, b: int): (m: int)
    ensures m <= a && m <= b && (m == a || m == b)
  {
    if a <= b then a else b
  }

  predicate IsHexDigit(b: Byte) {
    0x30 <= b <= 0x39 || 0x41 <= b <= 0x46 || 0x61 <= b <= 0x66
  }

  function HexDigit(b: Byte): (n: nat)
    requires IsHexDigit(b)
    ensures n < 16
  {
    if b <= 0x39 then b - 0x30 else if b <= 0x46 then b - 0x37 else b - 0x57
  }

  /** All the parts of a split, in order. */
  function Concat(parts: seq<Buffer>): Buffer {
    if parts == [] then [] else parts[0] + Concat(parts[1..])
  }

  lemma SliceOfTail(b: Buffer, from: nat, i: nat, j: nat)
    requires from <= |b| && i <= j <= |b| - from
    ensures b[from..][i..j] == b[from + i..from + j] && b[from..][j..] == b[from + j..]
  {
  }

  /** The number that a byte string spells, most significant byte first. */
  function BigEndian(bs: Buffer): nat {
    if bs == [] then 0 else BigEndian(bs[..|bs| - 1]) * 256 + bs[|bs| - 1]
  }

  function PutU16(v: U16): (r: Buffer)
    ensures |r| == 2 && GetU16(r, 0) == v
  {
    [v / 256, v % 256]
  }

  function GetU16(b: Buffer, at: nat): (v: U16)
    requires at + 2 <= |b|
  {
    b[at] as int * 256 + b[at + 1]
  }

  function PutU32(v: nat): (r: Buffer)
    requires v < 0x1_0000_0000
    ensures |r| == 4 && GetU32(r, 0) == v
  {
    PutU16(v / 0x1_0000) + PutU16(v % 0x1_0000)
  }

  function GetU32(b: Buffer, at: nat): (v: nat)
    requires at + 4 <= |b|
    ensures v < 0x1_0000_0000
  {
    GetU16(b, at) as int * 0x1_0000 + GetU16(b, at + 2)
  }

  /** A continuation byte of UTF-8. */
  predicate IsTail(b: Byte) {
    0x80 <= b <= 0xBF
  }

  /** The number of bytes of the scalar value that `s` begins with, or 0 when it
      begins with none (section 4 of RFC 3629). */
  function ScalarLength(s: Buffer): (n: nat)
    requires s != []
    ensures n <= |s|
  {
    if s[0] <= 0x7F then 1
    else if 0xC2 <= s[0] <= 0xDF && |s| >= 2 && IsTail(s[1]) then 2
    else if |s| >= 3 && IsTail(s[1]) && IsTail(s[2]) && 0xE0 <= s[0] <= 0xEF
            && (s[0] == 0xE0 ==> s[1] >= 0xA0) && (s[0] == 0xED ==> s[1] <= 0x9F) then 3
    else if |s| >= 4 && IsTail(s[1]) && IsTail(s[2]) && IsTail(s[3]) && 0xF0 <= s[0] <= 0xF4
            && (s[0] == 0xF0 ==> s[1] >= 0x90) && (s[0] == 0xF4 ==> s[1] <= 0x8F) then 4
    else 0
  }

  /** What `std::str::from_utf8` accepts. */
  predicate IsUtf8(s: Buffer)
    decreases |s|
  {
    s == [] || (ScalarLength(s) > 0 && IsUtf8(s[ScalarLength(s)..]))
  }
}
