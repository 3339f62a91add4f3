// The send side of a connection as a stream: what the queues and sequence numbers of a PCB mean, and
// what each change to them keeps.
module TcpStream {
  import opened Basics
  import opened SeqArith
  import opened Congestion
  import opened TcpQueue

  /**
   * The send fields of a PCB beside the stream they stand for: `stream` is every byte accepted so far, and
   * `una` and `nxt` are SND.UNA and SND.NXT as unbounded positions in it. A FIN occupies position |stream|.
   */
  datatype Send = Send(stream: seq<byte>, una: nat, nxt: nat, finSent: bool,
                       sndUna: u32, sndNxt: u32,
                       unsent: Queue, unacked: Queue, unsentBytes: nat, unackedBytes: nat)
  {
    /** How many stream bytes have been sent at least once. */
    function Sent(): nat { Min(nxt, |stream|) }

    /** How many stream bytes have been acknowledged. */
    function Acked(): nat { Min(una, |stream|) }
  }

  ghost predicate SendInv(iss: u32, v: Send) {
    && v.una <= v.nxt
    && (if v.finSent then v.nxt == |v.stream| + 1 else v.nxt <= |v.stream|)
    && v.sndUna == SeqAt(iss, v.una)
    && v.sndNxt == SeqAt(iss, v.nxt)
    && AllWhole(v.unsent)
    && AllWhole(v.unacked)
    && Payloads(v.unacked) == v.stream[v.Acked()..v.Sent()]
    && Payloads(v.unsent) == v.stream[v.Sent()..]
    && Contiguous(v.unacked, iss, v.Acked())
    && v.unackedBytes == v.Sent() - v.Acked()
    && v.unsentBytes == |v.stream| - v.Sent()
    && v.unackedBytes + v.unsentBytes <= TX_CAPACITY
  }

  /** Acknowledged bytes, unacknowledged payloads and unsent payloads are exactly the accepted bytes. */
  lemma StreamConserved(iss: u32, v: Send)
    requires SendInv(iss, v)
    ensures v.stream[..v.Acked()] + Payloads(v.unacked) + Payloads(v.unsent) == v.stream
    ensures v.unackedBytes == |Payloads(v.unacked)| && v.unsentBytes == |Payloads(v.unsent)|
    ensures v.nxt - v.una <= TX_CAPACITY + 1
    ensures Sub32(v.sndNxt, v.sndUna) == v.nxt - v.una
  {
    hide SeqAt, Sub32, Contiguous, AllWhole, Payloads;
    SeqAtDistance(iss, v.nxt, v.una);
  }

  // ---- accepting bytes ----

  /** A chunk copied into a fresh segment at the end of the unsent queue. */
  function Commit(v: Send, chunk: seq<byte>): Send {
    v.(stream := v.stream + chunk,
       unsent := v.unsent + [Segment(Add32(v.sndNxt, v.unsentBytes), |chunk|, 0, chunk)],
       unsentBytes := v.unsentBytes + |chunk|)
  }

  lemma CommitKeeps(iss: u32, v: Send, chunk: seq<byte>)
    requires SendInv(iss, v) && !v.finSent
    requires 0 < |chunk| <= MSS && v.unsentBytes + v.unackedBytes + |chunk| <= TX_CAPACITY
    ensures SendInv(iss, Commit(v, chunk))
  {
    hide SeqAt, Add32, Payloads, Contiguous;
    var s := Segment(Add32(v.sndNxt, v.unsentBytes), |chunk|, 0, chunk);
    PayloadsAppend(v.unsent, s);
    var w := Commit(v, chunk);
    assert w.stream[w.Acked()..w.Sent()] == v.stream[v.Acked()..v.Sent()];
    assert w.stream[w.Sent()..] == v.stream[v.Sent()..] + chunk;
  }

  // ---- first transmission ----

  function Prefix<T>(s: seq<T>, n: nat): seq<T> { if n <= |s| then s[..n] else s }

  /** The first n bytes of the unsent queue become the last segment of the unacknowledged queue. */
  function Transmit(v: Send, n: nat): Send {
    if v.unsent == [] then v else
    var head := v.unsent[0];
    var next := Add32(v.sndNxt, n);
    var w := v.(nxt := v.nxt + n, sndNxt := next,
                unsentBytes := Max(v.unsentBytes - n, 0), unackedBytes := v.unackedBytes + n);
    if n < head.length then
      w.(unsent := [head.Tail(n, next)] + v.unsent[1..],
         unacked := v.unacked + [Segment(v.sndNxt, n, 0, Prefix(head.Payload(), n))])
    else
      w.(unsent := v.unsent[1..],
         unacked := v.unacked + [head.(sequence := v.sndNxt)])
  }

  /** The bytes Transmit moves are the next unsent stream bytes. */
  lemma TransmitBytes(iss: u32, v: Send, n: nat)
    requires SendInv(iss, v) && v.unsent != [] && 0 < n <= v.unsent[0].length
    ensures !v.finSent && v.nxt + n <= |v.stream|
    ensures v.unsent[0].Payload()[..n] == v.stream[v.nxt .. v.nxt + n]
    ensures v.unsent[0].Payload()[n..] + Payloads(v.unsent[1..]) == v.stream[v.nxt + n ..]
  {
    hide SeqAt, Contiguous;
    PayloadsHead(v.unsent);
    var h, t, rest := v.unsent[0].Payload(), Payloads(v.unsent[1..]), v.stream[v.Sent()..];
    assert rest == h + t;
    assert rest[..n] == h[..n] && rest[n..] == h[n..] + t;
  }

  lemma TransmitUnsent(iss: u32, v: Send, n: nat)
    requires SendInv(iss, v) && v.unsent != [] && 0 < n <= v.unsent[0].length
    ensures AllWhole(Transmit(v, n).unsent)
    ensures Payloads(Transmit(v, n).unsent) == v.stream[v.nxt + n ..]
  {
    hide SeqAt, Add32, Contiguous, Payloads;
    TransmitBytes(iss, v, n);
    var w, head := Transmit(v, n), v.unsent[0];
    if n < head.length {
      assert w.unsent[0].Payload() == head.Payload()[n..];
      assert w.unsent[1..] == v.unsent[1..];
      PayloadsHead(w.unsent);
    } else {
      assert head.Payload()[n..] == [];
    }
  }

  lemma TransmitUnacked(iss: u32, v: Send, n: nat)
    requires SendInv(iss, v) && v.unsent != [] && 0 < n <= v.unsent[0].length
    ensures AllWhole(Transmit(v, n).unacked)
    ensures Payloads(Transmit(v, n).unacked) == v.stream[v.Acked() .. v.nxt] + v.stream[v.nxt .. v.nxt + n]
    ensures Contiguous(Transmit(v, n).unacked, iss, v.Acked())
  {
    hide SeqAt, Add32, Contiguous, Payloads, Transmit;
    TransmitBytes(iss, v, n);
    MovedSegment(iss, v, n);
    var moved := Transmit(v, n).unacked[|v.unacked|];
    PayloadsAppend(v.unacked, moved);
    assert |Payloads(v.unacked)| == v.nxt - v.Acked();
    ContiguousAppend(v.unacked, moved, iss, v.Acked());
  }

  /** The segment a transmission appends, whole or a slice, holds the next n stream bytes under SND.NXT. */
  lemma MovedSegment(iss: u32, v: Send, n: nat)
    requires SendInv(iss, v) && v.unsent != [] && 0 < n <= v.unsent[0].length
    ensures var q, k := Transmit(v, n).unacked, |v.unacked|;
            && |q| == k + 1 && q == v.unacked + [q[k]] && q[k].Whole()
            && q[k].sequence == v.sndNxt && q[k].length == n && q[k].Payload() == v.unsent[0].Payload()[..n]
  {
    hide SeqAt, Add32, Contiguous, Payloads;
    assert v.unsent[0].Whole();
  }

  lemma TransmitKeeps(iss: u32, v: Send, n: nat)
    requires SendInv(iss, v) && v.unsent != [] && 0 < n <= v.unsent[0].length
    ensures SendInv(iss, Transmit(v, n))
  {
    hide Payloads, Contiguous, SeqAt, Add32;
    assert v.unsent[0].Whole();
    hide AllWhole;
    TransmitBytes(iss, v, n);
    TransmitUnsent(iss, v, n);
    TransmitUnacked(iss, v, n);
    SeqAtAdd(iss, v.nxt, n);
    var w := Transmit(v, n);
    assert v.stream[v.Acked() .. v.nxt] + v.stream[v.nxt .. v.nxt + n] == w.stream[w.Acked()..w.Sent()];
  }

  // ---- acknowledgement ----

  /** The queue without its first n bytes. */
  function TrimFront(q: Queue, n: nat): Queue {
    if q == [] || n == 0 then q
    else if q[0].length <= n then TrimFront(q[1..], n - q[0].length)
    else [q[0].Tail(n, Add32(q[0].sequence, n))] + q[1..]
  }

  lemma DropConcat<T>(a: seq<T>, b: seq<T>, n: nat)
    requires n <= |a| + |b|
    ensures (a + b)[n..] == if n <= |a| then a[n..] + b else b[n - |a|..]
  {}

  lemma TailPayload(s: Segment, n: nat, seqNo: u32)
    requires s.Whole() && n < s.length
    ensures s.Tail(n, seqNo).Whole() && s.Tail(n, seqNo).Payload() == s.Payload()[n..]
  {}

  lemma {:induction false} TrimFrontBytes(q: Queue, n: nat)
    requires AllWhole(q) && n <= |Payloads(q)|
    ensures AllWhole(TrimFront(q, n))
    ensures Payloads(TrimFront(q, n)) == Payloads(q)[n..]
    decreases |q|
  {
    hide Add32;
    if q == [] || n == 0 {
      return;
    }
    hide Payloads;
    PayloadsHead(q);
    DropConcat(q[0].Payload(), Payloads(q[1..]), n);
    if q[0].length <= n {
      TrimFrontBytes(q[1..], n - q[0].length);
    } else {
      TailPayload(q[0], n, Add32(q[0].sequence, n));
      var r := TrimFront(q, n);
      assert r[0] == q[0].Tail(n, Add32(q[0].sequence, n)) && r[1..] == q[1..];
      PayloadsHead(r);
    }
  }

  lemma {:induction false} TrimFrontContiguous(q: Queue, n: nat, iss: u32, pos: nat)
    requires AllWhole(q) && Contiguous(q, iss, pos) && n <= |Payloads(q)|
    ensures Contiguous(TrimFront(q, n), iss, pos + n)
    decreases |q|
  {
    hide SeqAt, Add32;
    if q == [] || n == 0 {
    } else if q[0].length <= n {
      TrimFrontContiguous(q[1..], n - q[0].length, iss, pos + q[0].length);
    } else {
      SeqAtAdd(iss, pos, n);
      var r := TrimFront(q, n);
      assert r[1..] == q[1..];
    }
  }

  /** SND.UNA moves k positions on and the acknowledged bytes leave the queue. */
  function Acknowledge(v: Send, k: nat): Send {
    var bytes := Min(v.una + k, |v.stream|) - v.Acked();
    v.(una := v.una + k, sndUna := Add32(v.sndUna, k),
       unacked := TrimFront(v.unacked, Max(bytes, 0)), unackedBytes := Max(v.unackedBytes - bytes, 0))
  }

  lemma AcknowledgeKeeps(iss: u32, v: Send, k: nat)
    requires SendInv(iss, v) && v.una + k <= v.nxt
    ensures SendInv(iss, Acknowledge(v, k))
  {
    hide SeqAt, Add32, Payloads, Contiguous, TrimFront, AllWhole;
    var w := Acknowledge(v, k);
    var bytes := w.Acked() - v.Acked();
    SeqAtAdd(iss, v.una, k);
    DropSlice(v.stream, v.Acked(), v.Sent(), bytes);
    TrimFrontBytes(v.unacked, bytes);
    TrimFrontContiguous(v.unacked, bytes, iss, v.Acked());
  }

  // ---- the FIN ----

  /** A FIN takes the position just after the last accepted byte. */
  function Finish(v: Send): Send {
    v.(nxt := v.nxt + 1, sndNxt := Add32(v.sndNxt, 1), finSent := true)
  }

  lemma FinishKeeps(iss: u32, v: Send)
    requires SendInv(iss, v) && !v.finSent && v.unsent == []
    ensures SendInv(iss, Finish(v)) && v.nxt == |v.stream|
  {
    hide SeqAt, Add32, Contiguous;
    SeqAtAdd(iss, v.nxt, 1);
  }

  /** An unsent queue is empty exactly when every accepted byte has been sent. */
  lemma UnsentEmpty(iss: u32, v: Send)
    requires SendInv(iss, v)
    ensures v.unsent == [] <==> v.Sent() == |v.stream|
  {
    hide SeqAt, Contiguous;
    if v.unsent != [] {
      PayloadsHead(v.unsent);
    }
  }

  // ---- packets ----

  /** A segment handed to IPv4 (the ACK flag is always set and its acknowledgement number is not modelled). */
  datatype Packet = Packet(sequence: u32, fin: bool, payload: seq<byte>)

  /** The packet carries exactly the stream bytes at its sequence number. */
  ghost predicate Cut(p: Packet, iss: u32, stream: seq<byte>, pos: nat) {
    && |p.payload| <= MSS
    && pos + |p.payload| <= |stream|
    && p.sequence == SeqAt(iss, pos)
    && p.payload == stream[pos .. pos + |p.payload|]
  }

  lemma DropSlice<T>(s: seq<T>, i: nat, j: nat, n: nat)
    requires i <= j <= |s| && n <= j - i
    ensures s[i..j][n..] == s[i + n .. j]
  {}

  lemma TakeSlice<T>(s: seq<T>, i: nat, j: nat, n: nat)
    requires i <= j <= |s| && n <= j - i
    ensures s[i..j][..n] == s[i .. i + n]
  {}

  /** The oldest unacknowledged segment is a cut of the stream at the first unacknowledged byte. */
  lemma HeadIsCut(iss: u32, v: Send)
    requires SendInv(iss, v) && v.unacked != []
    ensures Cut(Packet(v.unacked[0].sequence, false, v.unacked[0].Payload()), iss, v.stream, v.Acked())
    ensures v.unacked[0].Payload() != []
  {
    hide SeqAt;
    PayloadsHead(v.unacked);
    var h, all := v.unacked[0].Payload(), v.stream[v.Acked()..v.Sent()];
    assert all[..|h|] == h;
    TakeSlice(v.stream, v.Acked(), v.Sent(), |h|);
  }

  /** A first transmission is a cut of the stream at SND.NXT. */
  lemma TransmitIsCut(iss: u32, v: Send, n: nat)
    requires SendInv(iss, v) && v.unsent != [] && 0 < n <= v.unsent[0].length
    ensures v.nxt + n <= |v.stream|
    ensures v.unsent[0].data[v.unsent[0].offset .. v.unsent[0].offset + n] == v.unsent[0].Payload()[..n]
    ensures v.unsent[0].Payload()[..n] == v.stream[v.nxt .. v.nxt + n]
    ensures Cut(Packet(v.sndNxt, false, v.stream[v.nxt .. v.nxt + n]), iss, v.stream, v.nxt)
  {
    hide SeqAt, Contiguous, Payloads;
    TransmitBytes(iss, v, n);
    var s := v.unsent[0];
    assert s.Whole();
    TakeSlice(s.data, s.offset, s.offset + s.length, n);
  }

  lemma CutGrows(p: Packet, iss: u32, stream: seq<byte>, pos: nat, more: seq<byte>)
    requires Cut(p, iss, stream, pos)
    ensures Cut(p, iss, stream + more, pos)
  {
    hide SeqAt;
    assert (stream + more)[pos .. pos + |p.payload|] == stream[pos .. pos + |p.payload|];
  }

  // ---- the log of packets handed to IPv4 ----

  /** Every data packet ever sent is a cut of the stream; places[i] is where packet i was cut. */
  ghost predicate WireOk(iss: u32, stream: seq<byte>, wire: seq<Packet>, places: seq<nat>) {
    && |places| == |wire|
    && forall i :: 0 <= i < |wire| && wire[i].payload != [] ==> Cut(wire[i], iss, stream, places[i])
  }

  /** Every FIN ever sent is bare and has the number just after the last accepted byte. */
  ghost predicate FinsOk(iss: u32, stream: seq<byte>, finSent: bool, wire: seq<Packet>) {
    forall i :: 0 <= i < |wire| && wire[i].fin ==>
      finSent && wire[i].sequence == SeqAt(iss, |stream|) && wire[i].payload == []
  }

  lemma WireGrows(iss: u32, stream: seq<byte>, more: seq<byte>, wire: seq<Packet>, places: seq<nat>)
    requires WireOk(iss, stream, wire, places)
    ensures WireOk(iss, stream + more, wire, places)
  {
    hide Cut;
    forall i | 0 <= i < |wire| && wire[i].payload != []
      ensures Cut(wire[i], iss, stream + more, places[i])
    {
      CutGrows(wire[i], iss, stream, places[i], more);
    }
  }

  lemma WireAppend(iss: u32, stream: seq<byte>, wire: seq<Packet>, places: seq<nat>, p: Packet, pos: nat)
    requires WireOk(iss, stream, wire, places)
    requires p.payload != [] ==> Cut(p, iss, stream, pos)
    ensures WireOk(iss, stream, wire + [p], places + [pos])
  {
    hide Cut;
  }

  lemma FinsAppend(iss: u32, stream: seq<byte>, finSent: bool, wire: seq<Packet>, p: Packet)
    requires FinsOk(iss, stream, finSent, wire)
    requires p.fin ==> finSent && p.sequence == SeqAt(iss, |stream|) && p.payload == []
    ensures FinsOk(iss, stream, finSent, wire + [p])
  {
    hide SeqAt;
  }
}
