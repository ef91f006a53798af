/** The Internet checksum as the endpoint computes it, against section 1 of RFC 1071. */
module Checksum {
  import opened Bytes

  const U32_END := 0x1_0000_0000
  const MAX_SUMMABLE := 0x2_0000

  // ------------------------------------------------------------------ reference

  /** The sum of the 16-bit words of a byte string, an odd last byte padded with zero. */
  function WordSum(bs: Buffer): nat {
    if bs == [] then 0
    else if |bs| == 1 then bs[0] as int * 256
    else bs[0] as int * 256 + bs[1] + WordSum(bs[2..])
  }

  /** One's complement addition: a carry comes back in at the low end. */
  function OnesAdd(a: U16, b: U16): U16 {
    if a as int + b < 0x1_0000 then a + b else a + b - 0xFFFF
  }

  function OnesSum(bs: Buffer): U16 {
    if bs == [] then 0
    else if |bs| == 1 then bs[0] as int * 256
    else OnesAdd(bs[0] as int * 256 + bs[1], OnesSum(bs[2..]))
  }

  /** A receiver accepts a message whose one's complement sum is all ones. */
  predicate Verifies(bs: Buffer) {
    OnesSum(bs) == 0xFFFF
  }

  // ------------------------------------------------------------------ the code

  /** The result for a 32-bit sum: one fold, whatever it carries being cut off. */
  function FoldOnce(sum: nat): (r: U16) {
    0xFFFF - (sum / 0x1_0000 + sum) % U32_END % 0x1_0000
  }

  /** Addition on 32-bit words, as built without overflow checks. */
  function WrappingAdd(a: nat, b: nat): (r: nat)
    ensures r < U32_END
    ensures a + b < U32_END ==> r == a + b
  {
    (a + b) % U32_END
  }

  /** What the words from an index on still add; nothing past the end. */
  function SumFrom(bs: Buffer, i: nat): nat {
    if i <= |bs| then WordSum(bs[i..]) else 0
  }

  lemma SumFromStep(bs: Buffer, i: nat)
    requires i < |bs|
    ensures var low := if i + 1 < |bs| then bs[i + 1] as int else 0;
            SumFrom(bs, i) == bs[i] as int * 256 + low + SumFrom(bs, i + 2)
  {
  }

  /** A 32-bit word that stands for a sum. */
  predicate StandsFor(word: nat, sum: nat) {
    word < U32_END && word == sum % U32_END
  }

  lemma AddWord(word: nat, sum: nat, b: nat)
    requires StandsFor(word, sum)
    ensures StandsFor(WrappingAdd(word, b), sum + b)
  {
  }

  method Rfc1071Checksum(bytes: Buffer) returns (r: U16)
    ensures r == FoldOnce(WordSum(bytes) % U32_END)
    ensures |bytes| <= MAX_SUMMABLE ==> r == FoldOnce(WordSum(bytes))
  {
    hide WrappingAdd, SumFrom, StandsFor, WordSum, FoldOnce;
    var sum: nat, i := 0, 0;
    var isEven := |bytes| % 2 == 0;
    ghost var added: nat := 0;
    assert SumFrom(bytes, 0) == WordSum(bytes) && StandsFor(0, 0) by { Start(bytes); }
    while i < |bytes|
      invariant 0 <= i <= |bytes| + 1 && i % 2 == 0
      invariant StandsFor(sum, added)
      invariant added + SumFrom(bytes, i) == WordSum(bytes)
    {
      SumFromStep(bytes, i);
      AddWord(sum, added, bytes[i] as int * 256);
      sum, added := WrappingAdd(sum, bytes[i] as int * 256), added + bytes[i] as int * 256;
      if isEven || i + 1 < |bytes| - 1 {
        AddWord(sum, added, bytes[i + 1]);
        sum, added := WrappingAdd(sum, bytes[i + 1]), added + bytes[i + 1];
      }
      i := i + 2;
    }
    End(bytes, i, sum);
    r := FoldOnce(sum);
  }

  lemma Start(bs: Buffer)
    ensures SumFrom(bs, 0) == WordSum(bs) && StandsFor(0, 0)
  {
  }

  lemma End(bs: Buffer, i: nat, sum: nat)
    requires |bs| <= i && StandsFor(sum, WordSum(bs) - SumFrom(bs, i))
    ensures sum == WordSum(bs) % U32_END
    ensures |bs| <= MAX_SUMMABLE ==> WordSum(bs) % U32_END == WordSum(bs)
  {
    WordSumBound(bs);
  }

  // ------------------------------------------------------------------ the accumulator

  lemma {:induction false} WordSumBound(bs: Buffer)
    ensures WordSum(bs) <= 0xFFFF * ((|bs| + 1) / 2)
    decreases |bs|
  {
    if |bs| >= 2 {
      WordSumBound(bs[2..]);
    }
  }

  lemma {:induction false} WordSumOnes(n: nat)
    ensures WordSum(seq(n, _ => 0xFF as Byte)) == 0xFFFF * (n / 2) + 0xFF00 * (n % 2)
  {
    var bs := seq(n, _ => 0xFF as Byte);
    if n >= 2 {
      WordSumOnes(n - 2);
      assert bs[2..] == seq(n - 2, _ => 0xFF as Byte);
    }
  }

  /** Neither the running sum nor the fold leaves 32 bits for any byte string of the
      length, exactly when the length is at most 2^17. */
  lemma FitsIff(n: nat)
    ensures n <= MAX_SUMMABLE
            <==> forall bs: Buffer | |bs| == n :: WordSum(bs) / 0x1_0000 + WordSum(bs) < U32_END
  {
    if n <= MAX_SUMMABLE {
      forall bs: Buffer | |bs| == n ensures WordSum(bs) / 0x1_0000 + WordSum(bs) < U32_END {
        WordSumBound(bs);
      }
    } else {
      var bs := seq(n, _ => 0xFF as Byte);
      WordSumOnes(n);
      assert |bs| == n && WordSum(bs) >= 0xFFFF_FF00;
    }
  }

  // ------------------------------------------------------------------ validity

  lemma OnesAddMod(a: U16, b: U16, sum: nat)
    requires b as int % 0xFFFF == sum % 0xFFFF
    ensures OnesAdd(a, b) as int % 0xFFFF == (a as int + sum) % 0xFFFF
  {
    var q, r := sum / 0xFFFF, sum % 0xFFFF;
    ModShift16(a as int + r, q);
    assert a as int + sum == a as int + r + q * 0xFFFF;
    if b == 0xFFFF {
      ModShift16(a as int, 1);
    }
    if a as int + b >= 0x1_0000 {
      ModShift16(a as int + b - 0xFFFF, 1);
    }
  }

  lemma ModShift16(x: nat, q: nat)
    ensures (x + q * 0xFFFF) % 0xFFFF == x % 0xFFFF
  {
  }

  /** The one's complement sum is the word sum modulo 2^16 - 1, zero only for zero. */
  lemma {:induction false} OnesSumIsWordSum(bs: Buffer)
    ensures OnesSum(bs) as int % 0xFFFF == WordSum(bs) % 0xFFFF
    ensures OnesSum(bs) == 0 <==> WordSum(bs) == 0
    decreases |bs|
  {
    if |bs| >= 2 {
      OnesSumIsWordSum(bs[2..]);
      OnesAddMod(bs[0] as int * 256 + bs[1], OnesSum(bs[2..]), WordSum(bs[2..]));
    }
  }

  lemma VerifiesIff(bs: Buffer)
    ensures Verifies(bs) <==> WordSum(bs) % 0xFFFF == 0 && WordSum(bs) > 0
  {
    OnesSumIsWordSum(bs);
  }

  lemma {:induction false} WordSumAppend(a: Buffer, b: Buffer)
    requires |a| % 2 == 0
    ensures WordSum(a + b) == WordSum(a) + WordSum(b)
    decreases |a|
  {
    if a == [] {
      assert a + b == b;
    } else {
      assert (a + b)[2..] == a[2..] + b;
      WordSumAppend(a[2..], b);
    }
  }

  /** The first fold of a 32-bit sum fits 16 bits. */
  predicate FoldsOnce(sum: nat) {
    sum / 0x1_0000 + sum % 0x1_0000 < 0x1_0000
  }

  /** Adding the checksum to the sum gives a positive multiple of 2^16 - 1 exactly when
      one fold is enough, and one more than a multiple otherwise. */
  lemma FoldOnceCompletes(sum: nat)
    requires sum / 0x1_0000 + sum < U32_END
    ensures (sum + FoldOnce(sum)) % 0xFFFF == if FoldsOnce(sum) then 0 else 1
    ensures sum + FoldOnce(sum) > 0
  {
    var hi, lo := sum / 0x1_0000, sum % 0x1_0000;
    var total := hi + sum;
    assert total == hi * 0x1_0000 + (hi + lo);
    if hi + lo < 0x1_0000 {
      assert total % 0x1_0000 == hi + lo;
      assert sum + FoldOnce(sum) == (hi + 1) * 0xFFFF;
    } else {
      assert total == (hi + 1) * 0x1_0000 + (hi + lo - 0x1_0000);
      assert total % 0x1_0000 == hi + lo - 0x1_0000;
      assert sum + FoldOnce(sum) == (hi + 2) * 0xFFFF + 1;
    }
  }

  /** A message whose bytes 2 and 3 are the checksum field. */
  function WithChecksum(packet: Buffer, sum: U16): Buffer
    requires |packet| >= 4
  {
    packet[..2] + PutU16(sum) + packet[4..]
  }

  lemma WordSumWithChecksum(packet: Buffer, sum: U16)
    requires |packet| >= 4 && packet[2] == packet[3] == 0
    ensures WordSum(WithChecksum(packet, sum)) == WordSum(packet) + sum
  {
  }

  /** A message sent with the computed checksum, behind bytes that the receiver sums as
      well: one missed carry is missing from the sum. */
  lemma SentBehindVerifiesIff(before: Buffer, packet: Buffer)
    requires |before| % 2 == 0 && 4 <= |packet| <= MAX_SUMMABLE && packet[2] == packet[3] == 0
    ensures Verifies(before + WithChecksum(packet, FoldOnce(WordSum(packet))))
       <==> (WordSum(before) + if FoldsOnce(WordSum(packet)) then 0 else 1) % 0xFFFF == 0
  {
    hide WordSum, FoldOnce, WithChecksum, Verifies, FoldsOnce;
    FitsIff(|packet|);
    var sum := WordSum(packet);
    assert sum / 0x1_0000 + sum < U32_END;
    var sent := WithChecksum(packet, FoldOnce(sum));
    WordSumAppend(before, sent);
    VerifiesIff(before + sent);
    WordSumWithChecksum(packet, FoldOnce(sum));
    FoldOnceCompletes(sum);
    ModAdd(WordSum(before), sum + FoldOnce(sum), if FoldsOnce(sum) then 0 else 1);
  }

  lemma ModAdd(a: nat, b: nat, r: nat)
    requires b % 0xFFFF == r < 0xFFFF
    ensures (a + b) % 0xFFFF == (a + r) % 0xFFFF
  {
    assert a + b == a + r + b / 0xFFFF * 0xFFFF;
    ModShift16(a + r, b / 0xFFFF);
  }

  /** A message on its own passes a receiver's test exactly when the first fold of its
      word sum fits 16 bits. */
  lemma SentVerifiesIff(packet: Buffer)
    requires 4 <= |packet| <= MAX_SUMMABLE && packet[2] == packet[3] == 0
    ensures Verifies(WithChecksum(packet, FoldOnce(WordSum(packet)))) <==> FoldsOnce(WordSum(packet))
  {
    hide FoldOnce, WithChecksum, Verifies, FoldsOnce;
    SentBehindVerifiesIff([], packet);
    var sent := WithChecksum(packet, FoldOnce(WordSum(packet)));
    assert [] + sent == sent;
  }
}
