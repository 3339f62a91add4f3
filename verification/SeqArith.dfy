// 32-bit sequence numbers and the signed-difference comparisons of include/tcp.h.
module SeqArith {

  const MOD: int := 0x1_0000_0000
  const HALF: int := 0x8000_0000

  type byte = x: int | 0 <= x < 256
  type u16 = x: int | 0 <= x < 0x1_0000
  type u32 = x: int | 0 <= x < 0x1_0000_0000

  function Add32(a: u32, n: int): u32 { (a + n) % 0x1_0000_0000 }

  function Sub32(a: u32, b: u32): u32 { (a - b) % 0x1_0000_0000 }

  /** The value of a 32-bit word read as a two's-complement integer. */
  function Signed(x: u32): int { if x < HALF then x else x - MOD }

  predicate SeqLT(a: u32, b: u32) { Signed(Sub32(a, b)) < 0 }
  predicate SeqLE(a: u32, b: u32) { Signed(Sub32(a, b)) <= 0 }
  predicate SeqGT(a: u32, b: u32) { Signed(Sub32(a, b)) > 0 }
  predicate SeqGE(a: u32, b: u32) { Signed(Sub32(a, b)) >= 0 }

  lemma Trichotomy(a: u32, b: u32)
    ensures SeqGT(a, b) <==> a != b && !SeqLT(a, b)
    ensures SeqGE(a, b) <==> !SeqLT(a, b)
  {}

  /** Sequence number of stream position `pos`; position 0 follows the SYN. */
  function SeqAt(iss: u32, pos: nat): u32 { (iss + 1 + pos) % 0x1_0000_0000 }

  lemma AddSub32(a: u32, b: u32)
    ensures Add32(b, Sub32(a, b)) == a
  {}

  lemma ModShift(d: u32, f: nat)
    requires f < HALF
    ensures (d - f) % MOD == if d < f then d - f + MOD else d - f
  {}

  lemma SeqAtAdd(iss: u32, pos: nat, n: nat)
    ensures Add32(SeqAt(iss, pos), n) == SeqAt(iss, pos + n)
  {}

  lemma SeqAtBack(iss: u32, pos: nat)
    ensures Sub32(SeqAt(iss, pos + 1), 1) == SeqAt(iss, pos)
  {}

  lemma SeqAtDistance(iss: u32, p: nat, q: nat)
    ensures Sub32(SeqAt(iss, p), SeqAt(iss, q)) == (p - q) % MOD
  {}

  /** Two positions less than 2^32 apart share a sequence number only when they are the same position. */
  lemma SeqAtInjective(iss: u32, p: nat, q: nat)
    requires -MOD < p - q < MOD
    ensures SeqAt(iss, p) == SeqAt(iss, q) <==> p == q
  {
    SeqAtDistance(iss, p, q);
  }

  /** For positions less than 2^32 apart, exactly when each comparison agrees with stream order. */
  lemma ComparisonsExactly(iss: u32, p: nat, q: nat)
    requires -MOD < p - q < MOD
    ensures SeqLT(SeqAt(iss, p), SeqAt(iss, q)) <==> (if p < q then q - p <= HALF else p - q >= HALF)
    ensures SeqGT(SeqAt(iss, p), SeqAt(iss, q)) <==> (if p > q then p - q < HALF else q - p > HALF)
    ensures SeqLE(SeqAt(iss, p), SeqAt(iss, q)) <==> (p == q || SeqLT(SeqAt(iss, p), SeqAt(iss, q)))
    ensures SeqGE(SeqAt(iss, p), SeqAt(iss, q)) <==> (p == q || SeqGT(SeqAt(iss, p), SeqAt(iss, q)))
  {
    SeqAtDistance(iss, p, q);
  }

  /** Within half the sequence space every comparison is stream order, across any number of wraps. */
  lemma ComparisonsAgree(iss: u32, p: nat, q: nat)
    requires -HALF < p - q < HALF
    ensures SeqLT(SeqAt(iss, p), SeqAt(iss, q)) <==> p < q
    ensures SeqLE(SeqAt(iss, p), SeqAt(iss, q)) <==> p <= q
    ensures SeqGT(SeqAt(iss, p), SeqAt(iss, q)) <==> p > q
    ensures SeqGE(SeqAt(iss, p), SeqAt(iss, q)) <==> p >= q
  {
    ComparisonsExactly(iss, p, q);
  }

  /**
   * An arbitrary 32-bit acknowledgement passes the "new and not beyond SND.NXT" guards
   * exactly when it names a position in (una, nxt].
   */
  lemma NewAckExactly(iss: u32, una: nat, nxt: nat, ack: u32)
    requires una <= nxt < una + HALF
    ensures (!SeqGT(ack, SeqAt(iss, nxt)) && SeqGT(ack, SeqAt(iss, una))) <==>
            0 < Sub32(ack, SeqAt(iss, una)) <= nxt - una
    ensures ack == SeqAt(iss, una + Sub32(ack, SeqAt(iss, una)))
  {
    var d := Sub32(ack, SeqAt(iss, una));
    AddSub32(ack, SeqAt(iss, una));
    SeqAtAdd(iss, una, d);
    SeqAtDistance(iss, una + d, nxt);
    ModShift(d, nxt - una);
  }
}
