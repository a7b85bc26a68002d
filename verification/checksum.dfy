/**
 The internet checksum of ping.py's `checksum` (section 4.1 of RFC 1071):
 a one's-complement sum of 16-bit words, complemented and byte-swapped so that
 writing it as a big-endian `H` field puts it in wire order.

 The words are read low octet first (ping.py line 22), the running sum is
 kept to 32 bits (line 24), folded twice (lines 30-31), complemented and
 masked to 16 bits (line 32) and byte-swapped (line 34).
 */
module Checksum {
  import opened Base

  /** `& 0xffffffff` keeps the accumulator below this bound. */
  const Mask32: int := 0x1_0000_0000

  /** Largest IPv4 datagram: its total-length field has 16 bits. */
  const MaxDatagram: int := 0xffff

  /** The 16-bit word at offset `i`, low octet first. */
  function Word(p: seq<Byte>, i: nat): nat
    requires i + 1 < |p|
  {
    (p[i + 1] as int) * 0x100 + p[i]
  }

  /** Sum of the first `k` whole words of `p`, before any masking. */
  function PairSum(p: seq<Byte>, k: nat): nat
    requires 2 * k <= |p|
  {
    if k == 0 then 0 else PairSum(p, k - 1) + Word(p, 2 * (k - 1))
  }

  /** Every whole word of `p`, plus a trailing odd octet as its unsigned value. */
  function WordSum(p: seq<Byte>): nat
  {
    PairSum(p, |p| / 2) + (if |p| % 2 == 1 then p[|p| - 1] else 0)
  }

  /** Lines 30-31: add the high half into the low half, then once more. */
  function Fold(s: nat): nat
  {
    var s1 := s / TwoTo16 + s % TwoTo16;
    s1 + s1 / TwoTo16
  }

  /** The 16-bit one's-complement sum that `Fold` leaves in the low half. */
  function Folded(s: nat): (f: int)
    requires s < Mask32
    ensures 0 <= f <= 0xffff
    ensures f % 0xffff == s % 0xffff
    ensures f == 0 <==> s == 0
  {
    FoldFacts(s);
    Fold(s) % TwoTo16
  }

  /** Line 34: exchange the two octets of a 16-bit value. */
  function Swap16(a: int): (r: int)
    requires FitsU16(a)
    ensures FitsU16(r)
    ensures r / 0x100 == a % 0x100 && r % 0x100 == a / 0x100
  {
    a / 0x100 + a % 0x100 * 0x100
  }

  /** Lines 30-35 applied to the masked accumulator. */
  function Finish(acc: nat): (r: int)
    requires acc < Mask32
    ensures FitsU16(r)
    ensures r == 0 <==> acc % 0xffff == 0 && acc != 0
  {
    // `~x & 0xffff` is 0xffff minus the low 16 bits of x
    var a := 0xffff - Folded(acc);
    assert a == 0 <==> acc % 0xffff == 0 && acc != 0;
    Swap16(a)
  }

  /**
   The value `checksum` is meant to return: the sum of all words (a trailing
   odd octet added as its unsigned value), kept to 32 bits, then finished.
   It is zero exactly when that sum is a non-zero multiple of 0xffff, that is,
   when its one's-complement fold is all ones.
   */
  function InternetChecksum(p: seq<Byte>): (r: int)
    ensures FitsU16(r)
    ensures r == 0 <==> WordSum(p) % Mask32 % 0xffff == 0 && WordSum(p) % Mask32 != 0
  {
    Finish(WordSum(p) % Mask32)
  }

  /** `checksum` step by step, with the intended integer division for `countTo`. */
  method ComputeChecksum(packet: seq<Byte>) returns (answer: int)
    ensures FitsU16(answer)
    ensures answer == InternetChecksum(packet)
  {
    var cSum := 0;
    var countTo := |packet| / 2 * 2;
    var count := 0;
    ghost var words := 0;
    while count < countTo
      invariant count == 2 * words <= countTo
      invariant cSum == PairSum(packet, words) % Mask32
    {
      var thisVal := (packet[count + 1] as int) * 0x100 + packet[count];
      PairSumStep(packet, words);
      cSum := cSum + thisVal;
      cSum := cSum % Mask32;
      count := count + 2;
      words := words + 1;
    }
    if countTo < |packet| {
      cSum := cSum + packet[|packet| - 1];
      cSum := cSum % Mask32;
    }
    WordSumMasked(packet, words);
    ghost var acc := cSum;
    assert acc == WordSum(packet) % Mask32;
    cSum := cSum / TwoTo16 + cSum % TwoTo16;
    cSum := cSum + cSum / TwoTo16;
    answer := 0xffff - cSum % TwoTo16;
    answer := answer / 0x100 + answer % 0x100 * 0x100;
    FinishSteps(acc);
    assert answer == Finish(acc);
  }

  /** One more word, added under the 32-bit mask. */
  lemma PairSumStep(p: seq<Byte>, k: nat)
    requires 2 * k + 2 <= |p|
    ensures PairSum(p, k + 1) % Mask32 == (PairSum(p, k) % Mask32 + Word(p, 2 * k)) % Mask32
  {
    ModAdd32(PairSum(p, k), Word(p, 2 * k));
  }

  /** After all whole words, the trailing octet if any completes the masked word sum. */
  lemma WordSumMasked(p: seq<Byte>, k: nat)
    requires 2 * k == |p| / 2 * 2
    ensures WordSum(p) % Mask32 ==
      if |p| % 2 == 1 then (PairSum(p, k) % Mask32 + p[|p| - 1]) % Mask32 else PairSum(p, k) % Mask32
  {
    assert k == |p| / 2;
    ModAdd32(PairSum(p, k), if |p| % 2 == 1 then p[|p| - 1] else 0);
  }

  /** Lines 30-34 applied to the masked sum `acc` compute `Finish(acc)`. */
  lemma FinishSteps(acc: nat)
    requires acc < Mask32
    ensures
      var c1 := acc / TwoTo16 + acc % TwoTo16;
      var c2 := c1 + c1 / TwoTo16;
      var a := 0xffff - c2 % TwoTo16;
      a / 0x100 + a % 0x100 * 0x100 == Finish(acc)
  {
    assert Fold(acc) % TwoTo16 == Folded(acc);
  }

  /** Bytes 2-3 of `p` replaced by `c` written as a big-endian `H` field (line 59). */
  function WithChecksumField(p: seq<Byte>, c: int): (q: seq<Byte>)
    requires 4 <= |p| && FitsU16(c)
    ensures |q| == |p|
    ensures q[2] == c / 0x100 && q[3] == c % 0x100
    ensures forall i :: 0 <= i < |p| && i != 2 && i != 3 ==> q[i] == p[i]
  {
    p[..2] + U16ToBE(c) + p[4..]
  }

  /**
   Section 4.1 of RFC 1071, verification side: a message whose checksum field
   was zero while the checksum was computed, and then holds that checksum in
   network order, sums to a checksum of zero. Any length of at least four
   octets up to an IPv4 datagram; an odd trailing octet is fine.
   */
  lemma ChecksumSelfCheck(p: seq<Byte>)
    requires 4 <= |p| <= MaxDatagram
    requires p[2] == 0 && p[3] == 0
    ensures InternetChecksum(WithChecksumField(p, InternetChecksum(p))) == 0
  {
    var s := WordSum(p);
    WordSumBound(p);
    // the complemented sum; line 34 swaps it, the `H` field swaps it back
    var a := 0xffff - Folded(s);
    var c := InternetChecksum(p);
    ChecksumIsSwappedComplement(p);
    Swap16Twice(a);
    ChecksumFieldAdds(p, c);
    ComplementVerifies(s);
  }

  /** The checksum is the octet-swapped complement of the folded sum. */
  lemma ChecksumIsSwappedComplement(p: seq<Byte>)
    requires WordSum(p) < Mask32
    ensures InternetChecksum(p) == Swap16(0xffff - Folded(WordSum(p)))
  {
    BelowMask(WordSum(p));
  }

  /** A sum with the complement of its own fold added has a checksum of zero. */
  lemma ComplementVerifies(s: nat)
    requires s + 0xffff < Mask32
    ensures Finish((s + (0xffff - Folded(s))) % Mask32) == 0
  {
    var t := s + (0xffff - Folded(s));
    ComplementCancels(s);
    BelowMask(t);
  }

  /** The 32-bit mask leaves a smaller value unchanged. */
  lemma BelowMask(t: int)
    requires 0 <= t < Mask32
    ensures t % Mask32 == t
  {
  }

  /** Adding the complement of its fold turns a sum into a non-zero multiple of 0xffff. */
  lemma ComplementCancels(s: nat)
    requires s + 0xffff < Mask32
    ensures var t := s + (0xffff - Folded(s)); 0 < t < Mask32 && t % 0xffff == 0
  {
    var f := Folded(s);
    var a := 0xffff - f;
    ModAddFfff(s, a);
    ModAddFfff(f, a);
    assert (f + a) % 0xffff == 0;
  }

  /** Swapping the octets twice gives the value back. */
  lemma Swap16Twice(a: int)
    requires FitsU16(a)
    ensures Swap16(Swap16(a)) == a
  {
  }

  /**
   With a zero checksum field, writing `c` big-endian into it adds `c`'s
   octet-swapped value to the word sum, since words are read low octet first.
   */
  lemma ChecksumFieldAdds(p: seq<Byte>, c: int)
    requires 4 <= |p| && FitsU16(c)
    requires p[2] == 0 && p[3] == 0
    ensures WordSum(WithChecksumField(p, c)) == WordSum(p) + Swap16(c)
  {
    var q := WithChecksumField(p, c);
    assert Word(q, 2) == Swap16(c);
    assert Word(p, 2) == 0;
    PairSumField(p, q, |p| / 2);
  }

  /** PairSum of two sequences that differ only at octets 2 and 3. */
  lemma {:induction false} PairSumField(p: seq<Byte>, q: seq<Byte>, k: nat)
    requires |p| == |q| && 2 <= k && 2 * k <= |p|
    requires forall i :: 0 <= i < |p| && i != 2 && i != 3 ==> q[i] == p[i]
    ensures PairSum(q, k) == PairSum(p, k) - Word(p, 2) + Word(q, 2)
  {
    if k == 2 {
      assert q[0] == p[0] && q[1] == p[1];
      assert PairSum(q, 1) == Word(q, 0) == Word(p, 0) == PairSum(p, 1);
    } else {
      PairSumField(p, q, k - 1);
      assert Word(q, 2 * (k - 1)) == Word(p, 2 * (k - 1));
    }
  }

  /** No word exceeds 0xffff, so k words sum to at most k * 0xffff. */
  lemma {:induction false} PairSumBound(p: seq<Byte>, k: nat)
    requires 2 * k <= |p|
    ensures PairSum(p, k) <= k * 0xffff
  {
    if k > 0 {
      PairSumBound(p, k - 1);
    }
  }

  /** Within an IPv4 datagram the sum stays far below 2^32 - 0xffff. */
  lemma WordSumBound(p: seq<Byte>)
    requires |p| <= MaxDatagram
    ensures WordSum(p) + 0xffff < Mask32
  {
    PairSumBound(p, |p| / 2);
  }

  /** Adding under the 32-bit mask commutes with masking first. */
  lemma ModAdd32(a: int, b: int)
    ensures (a % Mask32 + b) % Mask32 == (a + b) % Mask32
  {
  }

  /** Adding modulo 0xffff commutes with reducing first. */
  lemma ModAddFfff(a: int, b: int)
    ensures (a % 0xffff + b) % 0xffff == (a + b) % 0xffff
  {
  }

  /**
   The two folds of lines 30-31 leave, in the low 16 bits, a value congruent
   to `s` modulo 0xffff that is zero only when `s` is: 2^16 is 1 modulo 0xffff,
   so adding the high half into the low half keeps the residue, and the second
   fold is the end-around carry.
   */
  lemma FoldFacts(s: nat)
    requires s < Mask32
    ensures 0 <= Fold(s) % TwoTo16 <= 0xffff
    ensures Fold(s) % TwoTo16 % 0xffff == s % 0xffff
    ensures Fold(s) % TwoTo16 == 0 <==> s == 0
  {
    var h := s / TwoTo16;
    var l := s % TwoTo16;
    var s1 := h + l;
    assert h < TwoTo16;
    assert s == 0xffff * h + s1;
    if s1 < TwoTo16 {
      assert Fold(s) == s1;
    } else {
      assert s1 / TwoTo16 == 1;
      assert Fold(s) % TwoTo16 == s1 - 0xffff;
    }
  }

  /**
   `checksum` exactly as line 19 reads under Python 3: `/` is true division,
   so `countTo` equals `len(packet)`, the trailing-octet branch of line 26 is
   never taken, and the loop reads `packet[count + 1]` past the end of an
   odd-length packet. `None` stands for that IndexError.
   */
  function AsWrittenLoop(p: seq<Byte>, count: nat, acc: nat): (r: Option<nat>)
    requires acc < Mask32
    ensures r.Some? ==> r.value < Mask32
    decreases |p| - count
  {
    if count >= |p| then Some(acc)
    else if count + 1 >= |p| then None
    else AsWrittenLoop(p, count + 2, (acc + Word(p, count)) % Mask32)
  }

  /** `checksum` as written: it returns only on even lengths, and then a 16-bit value. */
  function ChecksumAsWritten(p: seq<Byte>): (r: Option<int>)
    ensures r.Some? <==> |p| % 2 == 0
    ensures r.Some? ==> FitsU16(r.value)
  {
    var r := match AsWrittenLoop(p, 0, 0)
      case None => None
      case Some(acc) => Some(Finish(acc));
    if |p| % 2 == 0 then (EvenAsWritten(p); r) else (AsWrittenLoopOdd(p, 0, 0); r)
  }

  /** As written, `checksum` agrees with the intended one on even lengths and fails on odd ones. */
  lemma ChecksumAsWrittenOnlyEven(p: seq<Byte>)
    ensures ChecksumAsWritten(p) == if |p| % 2 == 0 then Some(InternetChecksum(p)) else None
  {
    if |p| % 2 == 0 {
      EvenAsWritten(p);
    } else {
      AsWrittenLoopOdd(p, 0, 0);
    }
  }

  /** On an even-length message the loop as written accumulates the masked word sum. */
  lemma EvenAsWritten(p: seq<Byte>)
    requires |p| % 2 == 0
    ensures AsWrittenLoop(p, 0, 0) == Some(WordSum(p) % Mask32)
  {
    AsWrittenLoopFrom(p, 0);
    assert PairSum(p, 0) % Mask32 == 0;
    assert WordSum(p) == PairSum(p, |p| / 2);
  }

  /** From any even offset of an odd-length message, the loop as written fails. */
  lemma {:induction false} AsWrittenLoopOdd(p: seq<Byte>, count: nat, acc: nat)
    requires |p| % 2 == 1 && count % 2 == 0 && count <= |p| && acc < Mask32
    ensures AsWrittenLoop(p, count, acc).None?
    decreases |p| - count
  {
    if count + 1 < |p| {
      AsWrittenLoopOdd(p, count + 2, (acc + Word(p, count)) % Mask32);
    }
  }

  /** From any word boundary of an even-length message, the loop as written sums the remaining words. */
  lemma {:induction false} AsWrittenLoopFrom(p: seq<Byte>, j: nat)
    requires |p| % 2 == 0 && 2 * j <= |p|
    ensures AsWrittenLoop(p, 2 * j, PairSum(p, j) % Mask32) == Some(PairSum(p, |p| / 2) % Mask32)
    decreases |p| - 2 * j
  {
    if 2 * j < |p| {
      PairSumStep(p, j);
      AsWrittenLoopFrom(p, j + 1);
    }
  }
}
