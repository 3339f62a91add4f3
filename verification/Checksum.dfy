// The Internet checksum of TCP segments (section 3.1 of RFC 793): ones' complement of the folded sum of the
// big-endian 16-bit words of a pseudo-header and the segment.
module Checksum {
  import opened SeqArith

  const PROTO_TCP: nat := 6
  const CHECKSUM_OFFSET: nat := 16

  /** A big-endian 16-bit word. */
  function Word(hi: byte, lo: byte): u16 { (hi as int) * 256 + lo }

  /** Sum of the big-endian words; an odd last byte is the high half of a word. */
  function WordSum(b: seq<byte>): nat {
    if b == [] then 0
    else if |b| == 1 then Word(b[0], 0)
    else Word(b[0], b[1]) + WordSum(b[2..])
  }

  /** The representative of n modulo 65535 in 1 .. 65535, and 0 for 0 alone. */
  function Folded(n: nat): u16 { if n == 0 then 0 else (n - 1) % 65535 + 1 }

  function Total(src: seq<byte>, dst: seq<byte>, segment: seq<byte>): nat {
    WordSum(src) + WordSum(dst) + PROTO_TCP + |segment| + WordSum(segment)
  }

  /** What tcp_checksum computes on a segment of a legal length. */
  function Sum(src: seq<byte>, dst: seq<byte>, segment: seq<byte>): u16 {
    65535 - Folded(Total(src, dst, segment))
  }

  lemma {:induction false} WordSumBound(b: seq<byte>)
    ensures WordSum(b) <= 65535 * ((|b| + 1) / 2)
  {
    if |b| > 1 {
      WordSumBound(b[2..]);
    }
  }

  lemma {:induction false} WordSumStep(b: seq<byte>, i: nat)
    requires i % 2 == 0 && i < |b|
    ensures i + 1 < |b| ==> WordSum(b[..i + 2]) == WordSum(b[..i]) + Word(b[i], b[i + 1])
    ensures i + 1 == |b| ==> WordSum(b) == WordSum(b[..i]) + Word(b[i], 0)
    decreases i
  {
    if i == 0 {
      assert i + 1 < |b| ==> b[..2][2..] == [];
    } else {
      var t := b[2..];
      WordSumStep(t, i - 2);
      assert b[..i][2..] == t[..i - 2];
      assert i + 1 < |b| ==> b[..i + 2][2..] == t[..i];
    }
  }

  /** The word loop of tcp_checksum_add, in 32-bit arithmetic that cannot overflow here. */
  method Add(start: u32, b: seq<byte>) returns (sum: u32)
    requires start + WordSum(b) < MOD
    ensures sum == start + WordSum(b)
  {
    sum := start;
    var i := 0;
    while i + 1 < |b|
      invariant 0 <= i <= |b| && i % 2 == 0
      invariant sum == start + WordSum(b[..i])
    {
      WordSumStep(b, i);
      PrefixSum(b, i + 2);
      sum := Add32(sum, Word(b[i], b[i + 1]));
      i := i + 2;
    }
    if i < |b| {
      WordSumStep(b, i);
      sum := Add32(sum, Word(b[i], 0));
    } else {
      assert b[..i] == b;
    }
  }

  lemma {:induction false} PrefixSum(b: seq<byte>, i: nat)
    requires i % 2 == 0 && i <= |b|
    ensures WordSum(b[..i]) <= WordSum(b)
  {
    if i > 0 {
      PrefixSum(b[2..], i - 2);
      assert b[..i][2..] == b[2..][..i - 2];
    }
  }

  /** The folding loop of tcp_checksum_finish. */
  method Finish(total: u32) returns (c: u16)
    ensures c == 65535 - Folded(total)
  {
    var sum: u32 := total;
    while sum / 65536 != 0
      invariant Folded(sum) == Folded(total)
      decreases sum
    {
      FoldStep(sum);
      sum := sum % 65536 + sum / 65536;
    }
    c := 65535 - sum;
  }

  lemma FoldStep(n: nat)
    requires n >= 65536
    ensures Folded(n % 65536 + n / 65536) == Folded(n) && n % 65536 + n / 65536 < n
  {
    var hi, lo := n / 65536, n % 65536;
    assert n == 65535 * hi + (hi + lo);
    ModPlus(hi + lo - 1, hi);
  }

  lemma {:induction false} ModPlus(x: nat, k: nat)
    ensures (x + 65535 * k) % 65535 == x % 65535
  {
    if k > 0 {
      ModPlus(x, k - 1);
      assert x + 65535 * k == (x + 65535 * (k - 1)) + 65535;
    }
  }

  lemma {:induction false} WordSumConcat(a: seq<byte>, b: seq<byte>)
    requires |a| % 2 == 0
    ensures WordSum(a + b) == WordSum(a) + WordSum(b)
  {
    if a == [] {
      assert a + b == b;
    } else {
      assert (a + b)[2..] == a[2..] + b;
      WordSumConcat(a[2..], b);
    }
  }

  /** The pseudo-header: both addresses, a zero byte, the protocol and the length of the segment. */
  function PseudoHeader(src: seq<byte>, dst: seq<byte>, length: u16): seq<byte> {
    src + dst + [0, PROTO_TCP, length / 256, length % 256]
  }

  lemma TailSum(n: u16)
    ensures WordSum([0, PROTO_TCP, n / 256, n % 256]) == PROTO_TCP + n
  {
    var tail: seq<byte> := [0, PROTO_TCP, n / 256, n % 256];
    var low := tail[2..];
    assert low == [n / 256, n % 256] && low[2..] == [];
    assert WordSum(low) == Word(n / 256, n % 256) + WordSum([]);
    assert WordSum(tail) == Word(0, PROTO_TCP) + WordSum(low);
  }

  /** What is summed is the pseudo-header followed by the segment. */
  lemma TotalIsSum(src: seq<byte>, dst: seq<byte>, segment: seq<byte>)
    requires |src| == 4 && |dst| == 4 && |segment| <= 0xFFFF
    ensures Total(src, dst, segment) == WordSum(PseudoHeader(src, dst, |segment|) + segment)
  {
    hide WordSum;
    var tail: seq<byte> := [0, PROTO_TCP, |segment| / 256, |segment| % 256];
    TailSum(|segment|);
    WordSumConcat(src, dst);
    WordSumConcat(src + dst, tail);
    WordSumConcat(src + dst + tail, segment);
  }

  /** tcp_checksum: a segment longer than an IPv4 datagram can carry is not summed at all. */
  method Compute(src: seq<byte>, dst: seq<byte>, segment: seq<byte>) returns (c: u16)
    requires |src| == 4 && |dst| == 4
    ensures c == if |segment| > 0xFFFF then 0 else Sum(src, dst, segment)
    ensures |segment| <= 0xFFFF ==> c == 65535 - Folded(WordSum(PseudoHeader(src, dst, |segment|) + segment))
  {
    hide PseudoHeader;
    if |segment| > 0xFFFF {
      return 0;
    }
    TotalIsSum(src, dst, segment);
    WordSumBound(src);
    WordSumBound(dst);
    WordSumBound(segment);
    var sum := Add(0, src);
    sum := Add(sum, dst);
    sum := sum + PROTO_TCP;
    sum := sum + |segment|;
    sum := Add(sum, segment);
    c := Finish(sum);
  }

  // ---- storing and verifying ----

  /** The aligned word at even offset i; past an odd end it is the last byte alone. */
  function WordAt(b: seq<byte>, i: nat): u16
    requires i < |b|
  {
    if i + 1 < |b| then Word(b[i], b[i + 1]) else Word(b[i], 0)
  }

  function SetWord(b: seq<byte>, i: nat, hi: byte, lo: byte): seq<byte>
    requires i < |b|
  {
    if i + 1 < |b| then b[i := hi][i + 1 := lo] else b[i := hi]
  }

  /** Replacing one aligned word changes the sum by exactly the difference of the words. */
  lemma {:induction false} WordSumSet(b: seq<byte>, i: nat, hi: byte, lo: byte)
    requires i % 2 == 0 && i < |b|
    ensures |SetWord(b, i, hi, lo)| == |b|
    ensures WordSum(SetWord(b, i, hi, lo)) + WordAt(b, i) == WordSum(b) + WordAt(SetWord(b, i, hi, lo), i)
    decreases i
  {
    var c := SetWord(b, i, hi, lo);
    if i == 0 {
      assert |b| > 1 ==> c[2..] == b[2..];
    } else {
      WordSumSet(b[2..], i - 2, hi, lo);
      assert c[2..] == SetWord(b[2..], i - 2, hi, lo);
    }
  }

  /** Two sums fold alike exactly when they are both zero or both nonzero and congruent. */
  lemma FoldedZero(n: nat)
    ensures Folded(n) == 65535 <==> n > 0 && n % 65535 == 0
  {}

  /** What the sender stores: the checksum computed with a zero field, and 0xFFFF in place of 0. */
  function Seal(src: seq<byte>, dst: seq<byte>, segment: seq<byte>): seq<byte>
    requires |segment| >= 20
  {
    var c := Sum(src, dst, segment);
    var stored: u16 := if c == 0 then 0xFFFF else c;
    SetWord(segment, CHECKSUM_OFFSET, stored / 256, stored % 256)
  }

  /** A sealed segment of any length, odd or even, verifies at the receiver. */
  lemma SealVerifies(src: seq<byte>, dst: seq<byte>, segment: seq<byte>)
    requires 20 <= |segment| && WordAt(segment, CHECKSUM_OFFSET) == 0
    ensures Sum(src, dst, Seal(src, dst, segment)) == 0
  {
    var t := Total(src, dst, segment);
    var c := Sum(src, dst, segment);
    var stored: u16 := if c == 0 then 0xFFFF else c;
    WordSumSet(segment, CHECKSUM_OFFSET, stored / 256, stored % 256);
    assert Total(src, dst, Seal(src, dst, segment)) == t + stored;
    SealArithmetic(t, stored);
    FoldedZero(t + stored);
  }

  lemma SealArithmetic(t: nat, stored: nat)
    requires t > 0 && stored == if Folded(t) == 65535 then 65535 else 65535 - Folded(t)
    ensures (t + stored) % 65535 == 0
  {}

  /** Changing one aligned word of a segment that verifies is noticed, except swapping 0x0000 and 0xFFFF. */
  lemma OneWordChange(src: seq<byte>, dst: seq<byte>, segment: seq<byte>, i: nat, hi: byte, lo: byte)
    requires Sum(src, dst, segment) == 0 && i % 2 == 0 && i < |segment|
    ensures var changed := SetWord(segment, i, hi, lo);
            var w, w' := WordAt(segment, i), WordAt(changed, i);
            Sum(src, dst, changed) == 0 <==> w == w' || (w == 0 && w' == 0xFFFF) || (w == 0xFFFF && w' == 0)
  {
    hide WordSum, WordAt, SetWord, Folded;
    var changed := SetWord(segment, i, hi, lo);
    WordSumSet(segment, i, hi, lo);
    var t, t' := Total(src, dst, segment), Total(src, dst, changed);
    FoldedZero(t);
    FoldedZero(t');
    SwapArithmetic(t, t', WordAt(segment, i), WordAt(changed, i));
  }

  lemma SwapArithmetic(t: nat, t': nat, w: u16, w': u16)
    requires t % 65535 == 0 && t' == t - w + w'
    ensures t' % 65535 == 0 <==> w == w' || (w == 0 && w' == 0xFFFF) || (w == 0xFFFF && w' == 0)
  {
    var q := t / 65535;
    assert t' == 65535 * q + (w' - w);
  }
}
