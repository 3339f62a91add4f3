// Segment queues of the transmit buffer: what bytes a queue holds and where they lie in the stream.
module TcpQueue {
  import opened Basics
  import opened SeqArith
  import opened Congestion

  /** Queued payload: bytes data[offset .. offset + length], numbered from `sequence`. */
  datatype Segment = Segment(sequence: u32, length: nat, offset: nat, data: seq<byte>) {
    predicate Whole() { 0 < length <= MSS && offset + length == |data| }

    function Payload(): seq<byte> {
      if offset + length <= |data| then data[offset .. offset + length] else []
    }

    /** The segment without its first n bytes. */
    function Tail(n: nat, seqNo: u32): Segment {
      Segment(seqNo, Max(length - n, 0), offset + n, data)
    }
  }

  type Queue = seq<Segment>

  function Payloads(q: Queue): seq<byte> {
    if q == [] then [] else q[0].Payload() + Payloads(q[1..])
  }

  /** The segments carry consecutive sequence numbers, starting at stream position `pos`. */
  ghost predicate Contiguous(q: Queue, iss: u32, pos: nat) {
    q == [] || (q[0].sequence == SeqAt(iss, pos) && Contiguous(q[1..], iss, pos + q[0].length))
  }

  ghost predicate AllWhole(q: Queue) {
    forall i :: 0 <= i < |q| ==> q[i].Whole()
  }

  lemma Assoc<T>(a: seq<T>, b: seq<T>, c: seq<T>)
    ensures a + (b + c) == (a + b) + c
  {}

  lemma {:induction false} PayloadsAppend(q: Queue, s: Segment)
    ensures Payloads(q + [s]) == Payloads(q) + s.Payload()
  {
    if q == [] {
      assert q + [s] == [s];
      assert [s][1..] == [];
    } else {
      assert (q + [s])[0] == q[0] && (q + [s])[1..] == q[1..] + [s];
      calc {
        Payloads(q + [s]);
        q[0].Payload() + Payloads(q[1..] + [s]);
        { PayloadsAppend(q[1..], s); }
        q[0].Payload() + (Payloads(q[1..]) + s.Payload());
        { Assoc(q[0].Payload(), Payloads(q[1..]), s.Payload()); }
        Payloads(q) + s.Payload();
      }
    }
  }

  lemma {:induction false} ContiguousAppend(q: Queue, s: Segment, iss: u32, pos: nat)
    requires Contiguous(q, iss, pos) && AllWhole(q)
    requires s.sequence == SeqAt(iss, pos + |Payloads(q)|)
    ensures Contiguous(q + [s], iss, pos)
  {
    hide SeqAt, Payloads;
    if q == [] {
      PayloadsNone();
      assert q + [s] == [s];
    } else {
      var t := q[1..];
      PayloadsHead(q);
      ContiguousAppend(t, s, iss, pos + q[0].length);
      assert (q + [s])[1..] == t + [s];
    }
  }

  lemma PayloadsNone()
    ensures Payloads([]) == []
  {}

  /** Every queued byte costs its queue a byte, so a nonempty queue has a nonempty payload. */
  lemma PayloadsHead(q: Queue)
    requires AllWhole(q) && q != []
    ensures Payloads(q) == q[0].Payload() + Payloads(q[1..])
    ensures |q[0].Payload()| == q[0].length > 0
  {}
}
