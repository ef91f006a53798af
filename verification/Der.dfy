/** Splitting concatenated DER certificates (length octets of section 8.1.3 of X.690). */
module Der {
  import opened Bytes

  const SEQUENCE: Byte := 0x30

  /** The length declared at an offset, whatever its size, and where the header ends. */
  function Declared(data: Buffer, offset: nat): (r: Option<(nat, nat)>)
    ensures r.Some? ==> offset < r.value.1 <= |data|
  {
    if offset >= |data| then None
    else if data[offset] < 0x80 then Some((data[offset], offset + 1))
    else
      var n := data[offset] - 0x80;
      if n == 0 || offset + 1 + n > |data| then None
      else Some((BigEndian(data[offset + 1..offset + 1 + n]), offset + 1 + n))
  }

  /** A length below 128 in one octet, or the number of octets and those, any of them leading
      zeros. One octet 0x80 declares none. */
  predicate IsLength(octets: Buffer, n: nat) {
    || (octets == [n] && n < 128)
    || (2 <= |octets| <= 128 && octets[0] == 128 + (|octets| - 1) && BigEndian(octets[1..]) == n)
  }

  /** The length declared at an offset is told by the octets there. */
  lemma DeclaredIff(data: Buffer, at: nat, n: nat, end: nat)
    ensures Declared(data, at) == Some((n, end)) <==> at < end <= |data| && IsLength(data[at..end], n)
  {
    if at < end <= |data| {
      var octets := data[at..end];
      assert octets[0] == data[at] && octets[1..] == data[at + 1..end];
      assert end == at + 1 ==> octets == [data[at]];
    }
  }

  /** Shifting in a byte, with the bits beyond 64 lost, keeps the value modulo 2^64. */
  lemma ShiftIn(value: nat, b: Byte)
    ensures value % U64_END * 256 % U64_END + b == (value * 256 + b) % U64_END
  {
    var low, high := value % U64_END, value / U64_END;
    var kept, lost := low % 0x100_0000_0000_0000, low / 0x100_0000_0000_0000;
    assert low * 256 == lost * U64_END + kept * 256;
    assert low * 256 % U64_END == kept * 256 by { ModOf(lost, kept * 256); }
    assert value * 256 + b == (high * 256 + lost) * U64_END + (kept * 256 + b);
    ModOf(high * 256 + lost, kept * 256 + b);
  }

  lemma ModOf(q: nat, r: nat)
    requires r < U64_END
    ensures (q * U64_END + r) % U64_END == r
  {
  }

  /** The length as the code computes it: the declared one modulo 2^64. */
  method ReadAsn1Length(data: Buffer, offset: nat) returns (r: Option<(nat, nat)>)
    ensures var d := Declared(data, offset);
            r == if d.Some? then Some((d.value.0 % U64_END, d.value.1)) else None
  {
    if offset >= |data| { return None; }
    var first := data[offset];
    if first < 0x80 { return Some((first, offset + 1)); }
    var numBytes := first - 0x80;
    if numBytes == 0 || offset + 1 + numBytes > |data| { return None; }
    var length: nat := 0;
    ghost var octets := data[offset + 1..offset + 1 + numBytes];
    for i := 0 to numBytes
      invariant length == BigEndian(octets[..i]) % U64_END
    {
      ShiftIn(BigEndian(octets[..i]), octets[i]);
      assert octets[..i + 1][..i] == octets[..i];
      length := length * 256 % U64_END + data[offset + 1 + i];
    }
    assert octets[..numBytes] == octets;
    return Some((length, offset + 1 + numBytes));
  }

  /** The size of the certificate that a buffer starts with. */
  function FirstSize(rest: Buffer): (n: Option<nat>)
    ensures n.Some? ==> 2 <= n.value <= |rest|
  {
    if rest == [] || rest[0] != SEQUENCE then None
    else
      var d := Declared(rest, 1);
      if d.None? || d.value.1 + d.value.0 % U64_END > |rest| then None
      else Some(d.value.1 + d.value.0 % U64_END)
  }

  function Split(rest: Buffer): Option<seq<Buffer>>
    decreases |rest|
  {
    if rest == [] then Some([])
    else
      var n := FirstSize(rest);
      if n.None? then None
      else
        var more := Split(rest[n.value..]);
        if more.None? then None else Some([rest[..n.value]] + more.value)
  }

  lemma DeclaredShift(pre: Buffer, data: Buffer, at: nat)
    ensures var d := Declared(data, at);
            Declared(pre + data, |pre| + at) == if d.Some? then Some((d.value.0, |pre| + d.value.1)) else None
  {
    var all := pre + data;
    assert forall i | 0 <= i < |data| :: all[|pre| + i] == data[i];
    if at < |data| && data[at] > 0x80 {
      var n := data[at] - 0x80;
      if at + 1 + n <= |data| {
        assert all[|pre| + at + 1..|pre| + at + 1 + n] == data[at + 1..at + 1 + n];
      }
    }
  }

  /** The end of the certificate at an offset; an end beyond 64 bits is beyond the data. */
  method CertificateEnd(data: Buffer, offset: nat) returns (end: Option<nat>)
    requires offset < |data| < U64_END
    ensures var n := FirstSize(data[offset..]);
            end == if n.Some? then Some(offset + n.value) else None
  {
    hide Declared;
    ghost var rest := data[offset..];
    assert rest[0] == data[offset];
    if data[offset] != SEQUENCE { return None; }
    assert data == data[..offset] + rest;
    DeclaredShift(data[..offset], rest, 1);
    var length := ReadAsn1Length(data, offset + 1);
    if length.None? { return None; }
    var certEnd := length.value.1 + length.value.0;
    if certEnd >= U64_END || certEnd > |data| { return None; }
    end := Some(certEnd);
  }

  lemma SplitStep(certs: seq<Buffer>, rest: Buffer)
    requires rest != [] && FirstSize(rest).Some?
    ensures var n := FirstSize(rest).value;
            Prepend(certs, Split(rest)) == Prepend(certs + [rest[..n]], Split(rest[n..]))
  {
    hide FirstSize;
    var n := FirstSize(rest).value;
    var more := Split(rest[n..]);
    if more.Some? {
      assert certs + ([rest[..n]] + more.value) == certs + [rest[..n]] + more.value;
    }
  }

  function Prepend(certs: seq<Buffer>, more: Option<seq<Buffer>>): Option<seq<Buffer>> {
    if more.Some? then Some(certs + more.value) else None
  }

  method SplitDerCerts(data: Buffer) returns (r: Option<seq<Buffer>>)
    requires |data| < U64_END
    ensures r == Split(data)
  {
    hide FirstSize;
    var certs: seq<Buffer>, offset := [], 0;
    assert data[0..] == data && (Split(data).Some? ==> [] + Split(data).value == Split(data).value);
    while offset < |data|
      invariant 0 <= offset <= |data|
      invariant Split(data) == Prepend(certs, Split(data[offset..]))
    {
      ghost var rest := data[offset..];
      var end := CertificateEnd(data, offset);
      if end.None? { return None; }
      SplitStep(certs, rest);
      assert data[offset..end.value] == rest[..end.value - offset] && data[end.value..] == rest[end.value - offset..];
      certs := certs + [data[offset..end.value]];
      offset := end.value;
    }
    assert data[offset..] == [] && certs + [] == certs;
    r := Some(certs);
  }

  // ------------------------------------------------------------------ properties

  /** A SEQUENCE whose length octets say exactly how much follows them. */
  predicate WellFormed(blob: Buffer) {
    && |blob| >= 2 && blob[0] == SEQUENCE
    && Declared(blob, 1).Some?
    && Declared(blob, 1).value.1 + Declared(blob, 1).value.0 == |blob|
  }

  /** A successful split is a partition of the input into parts that start like
      certificates and split to themselves. */
  lemma {:induction false} SplitPartitions(data: Buffer)
    requires Split(data).Some?
    ensures Concat(Split(data).value) == data
    ensures forall i | 0 <= i < |Split(data).value| ::
              Split(data).value[i] != [] && Split(data).value[i][0] == SEQUENCE
              && FirstSize(Split(data).value[i]) == Some(|Split(data).value[i]|)
    decreases |data|
  {
    if data != [] {
      var n := FirstSize(data).value;
      SplitPartitions(data[n..]);
      assert data == data[..n] + data[n..];
      FirstSizeLocal(data[..n], data[n..], []);
      assert data[..n] + [] == data[..n];
    }
  }

  /** What follows the first certificate does not matter to its size. */
  lemma FirstSizeLocal(a: Buffer, b: Buffer, b': Buffer)
    requires FirstSize(a + b) == Some(|a|)
    ensures FirstSize(a + b') == Some(|a|)
  {
    DeclaredLocal(a, b, b');
  }

  lemma DeclaredLocal(a: Buffer, b: Buffer, b': Buffer)
    requires Declared(a + b, 1).Some? && Declared(a + b, 1).value.1 <= |a|
    ensures Declared(a + b', 1) == Declared(a + b, 1)
  {
    assert forall i | 0 <= i < |a| :: (a + b)[i] == a[i] == (a + b')[i];
    if a[1] > 0x80 {
      var n := a[1] - 0x80;
      assert (a + b)[2..2 + n] == a[2..2 + n] == (a + b')[2..2 + n];
    }
  }

  lemma WellFormedFirst(blob: Buffer, rest: Buffer)
    requires WellFormed(blob) && |blob| < U64_END
    ensures FirstSize(blob + rest) == Some(|blob|)
  {
    hide Declared;
    assert blob + [] == blob;
    DeclaredLocal(blob, [], rest);
  }

  /** Any list of well-formed blobs is split back into exactly those blobs. */
  lemma {:induction false} SplitUndoesConcat(blobs: seq<Buffer>)
    requires forall i | 0 <= i < |blobs| :: WellFormed(blobs[i]) && |blobs[i]| < U64_END
    ensures Split(Concat(blobs)) == Some(blobs)
    decreases |blobs|
  {
    hide FirstSize, WellFormed;
    if blobs != [] {
      var rest := Concat(blobs[1..]);
      WellFormedFirst(blobs[0], rest);
      SplitUndoesConcat(blobs[1..]);
      FirstSizePositive(blobs[0] + rest);
      assert (blobs[0] + rest)[..|blobs[0]|] == blobs[0] && (blobs[0] + rest)[|blobs[0]|..] == rest;
      assert [blobs[0]] + blobs[1..] == blobs;
    }
  }

  lemma FirstSizePositive(rest: Buffer)
    ensures FirstSize(rest).Some? ==> rest != []
  {
  }

  /** A part of a split is well-formed exactly when the length it declares fits 64 bits. */
  lemma PartsTruthfulIff(data: Buffer, i: nat)
    requires Split(data).Some? && i < |Split(data).value|
    ensures var part := Split(data).value[i];
            Declared(part, 1).Some? && (WellFormed(part) <==> Declared(part, 1).value.0 < U64_END)
  {
    hide Declared, Split, Concat;
    SplitPartitions(data);
    var part := Split(data).value[i];
    assert FirstSize(part) == Some(|part|);
    var d := Declared(part, 1).value;
    if d.0 < U64_END {
      assert d.0 % U64_END == d.0;
    } else {
      assert d.0 % U64_END < d.0;
    }
  }

  lemma {:induction false} BigEndianZeros(zeros: nat)
    ensures BigEndian([1] + seq(zeros, _ => 0 as Byte)) == Pow256(zeros)
  {
    var all: Buffer := [1] + seq(zeros, _ => 0 as Byte);
    if zeros == 0 {
      assert all[..0] == [];
    } else {
      BigEndianZeros(zeros - 1);
      assert all[..zeros] == [1] + seq(zeros - 1, _ => 0 as Byte);
    }
  }

  function Pow256(n: nat): nat {
    if n == 0 then 1 else 256 * Pow256(n - 1)
  }

  /** Eleven bytes that declare 2^64 bytes of content are taken for a whole certificate. */
  lemma OversizedLengthAccepted()
    ensures var blob: Buffer := [0x30, 0x89, 1, 0, 0, 0, 0, 0, 0, 0, 0];
            Split(blob) == Some([blob]) && !WellFormed(blob)
  {
    hide Split, BigEndian;
    var blob: Buffer := [0x30, 0x89, 1, 0, 0, 0, 0, 0, 0, 0, 0];
    BigEndianZeros(8);
    assert blob[2..11] == [1] + seq(8, _ => 0 as Byte);
    assert Pow256(8) == U64_END;
    assert Declared(blob, 1) == Some((U64_END, 11));
    assert FirstSize(blob) == Some(11);
    SplitOne(blob);
  }

  lemma SplitOne(blob: Buffer)
    requires FirstSize(blob) == Some(|blob|)
    ensures Split(blob) == Some([blob])
  {
    hide FirstSize;
    FirstSizePositive(blob);
    assert blob[..|blob|] == blob && blob[|blob|..] == [];
    assert [blob] + [] == [blob];
  }
}
