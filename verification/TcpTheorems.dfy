// What every interleaving of critical sections guarantees about the byte stream, the packets and the FIN.
module TcpTheorems {
  import opened Basics
  import opened SeqArith
  import opened Congestion
  import opened TcpQueue
  import opened TcpStream
  import opened TcpConn
  import opened TcpSteps

  /**
   * In every reachable state of a connection that has not been reset: the acknowledged bytes, the
   * unacknowledged payloads and the unsent payloads are exactly the accepted bytes; both byte counters
   * match; the queues together fit the buffer; the unacknowledged queue is one run from SND.UNA on.
   */
  lemma StreamTheorem(iss: u32, window: u16, wl1: u32, ops: seq<Op>)
    ensures var c := Run(Fresh(iss, window, wl1), ops);
            !c.flags.reset ==>
              && c.v.stream[..c.v.Acked()] + Payloads(c.v.unacked) + Payloads(c.v.unsent) == c.v.stream
              && c.v.unackedBytes == |Payloads(c.v.unacked)|
              && c.v.unsentBytes == |Payloads(c.v.unsent)|
              && c.v.unackedBytes + c.v.unsentBytes <= TX_CAPACITY
              && Contiguous(c.v.unacked, iss, c.v.Acked())
              && c.v.sndUna == SeqAt(iss, c.v.una)
              && c.v.sndNxt == SeqAt(iss, c.v.Sent() + if c.v.finSent then 1 else 0)
  {
    hide SeqAt, Payloads, AllWhole, Contiguous, WireOk, FinsOk, LedgerOk, LifeOk, Apply;
    FreshInv(iss, window, wl1);
    RunKeeps(iss, Fresh(iss, window, wl1), ops);
    var c := Run(Fresh(iss, window, wl1), ops);
    if !c.flags.reset {
      StreamConserved(iss, c.v);
    }
  }

  /** The bytes that the sends of a run got accepted, in order. */
  function Accepted(c: Conn, ops: seq<Op>): seq<byte>
    decreases |ops|
  {
    if ops == [] then []
    else
      var prefix, op := ops[..|ops| - 1], ops[|ops| - 1];
      Accepted(c, prefix) + if op.OpSend? && Fits(Run(c, prefix), |op.chunk|) then op.chunk else []
  }

  lemma InputSameStream(c: Conn, seg: InSegment, peerFin: bool, now: nat)
    ensures InputConn(c, seg, peerFin, now).v.stream == c.v.stream
  {
    hide SeqLT, SeqLE, SeqGT, SeqGE, Sub32, Add32, TrimFront, Next;
  }

  lemma TickSameStream(c: Conn, now: nat, slots: nat)
    ensures TickConn(c, now, slots).v.stream == c.v.stream
  {
    hide Sub32, Next;
  }

  /**
   * Whatever interferes with a sender between its critical sections, the stream is what was there and then exactly the
   * accepted chunks in the order they were accepted.
   */
  lemma {:induction false} StreamIsAccepted(c: Conn, ops: seq<Op>)
    ensures Run(c, ops).v.stream == c.v.stream + Accepted(c, ops)
    decreases |ops|
  {
    hide InputConn, TickConn, DrainStep, Add32;
    if ops != [] {
      StreamIsAccepted(c, ops[..|ops| - 1]);
      var b := Run(c, ops[..|ops| - 1]);
      match ops[|ops| - 1] {
        case OpInput(seg, peerFin, now) => InputSameStream(b, seg, peerFin, now);
        case OpTick(now, slots) => TickSameStream(b, now, slots);
        case OpDrain(now, allocOk) => DrainSameStream(b, now, allocOk);
        case _ =>
      }
    }
  }

  /** Every data packet ever put on the wire, by whatever path, carries the stream bytes at its number. */
  lemma WireTheorem(iss: u32, window: u16, wl1: u32, ops: seq<Op>)
    ensures var c := Run(Fresh(iss, window, wl1), ops);
            WireOk(iss, c.v.stream, c.wire, c.places)
  {
    FreshInv(iss, window, wl1);
    RunKeeps(iss, Fresh(iss, window, wl1), ops);
    InvParts(iss, Run(Fresh(iss, window, wl1), ops));
  }

  /** A first transmission fits the effective window and the segment size, and is what the wire shows next. */
  lemma FirstSend(iss: u32, c: Conn, now: nat, allocOk: bool)
    requires Inv(iss, c) && DrainStep(c, now, allocOk).1
    ensures var d := DrainStep(c, now, allocOk).0;
            && d.v.nxt - d.v.una <= Min(c.peer.wnd, c.ledger.cc.cwnd)
            && c.v.nxt < d.v.nxt <= Min(c.v.nxt + MSS, |c.v.stream|)
            && d.wire == c.wire + [Packet(c.v.sndNxt, false, c.v.stream[c.v.nxt..d.v.nxt])]
            && d.v.una == c.v.una && d.v.stream == c.v.stream && !d.v.finSent
  {
    hide SendInv, WireOk, FinsOk, LedgerOk, Sub32, LifeOk;
    HeadWhole(iss, c);
    NewAckMeans(iss, c, 0);
    TransmitConnKeeps(iss, c, NextLength(c), now);
  }

  lemma DrainSameStream(c: Conn, now: nat, allocOk: bool)
    ensures DrainStep(c, now, allocOk).0.v.stream == c.v.stream
    ensures DrainStep(c, now, allocOk).0.v.una == c.v.una
  {
    hide Sub32, Add32;
  }

  /** The drain stops only when the FIN is out, nothing is left, the window is full, or memory ran out. */
  lemma DrainStops(iss: u32, c: Conn, now: nat)
    requires Inv(iss, c) && c.state.Open() && !DrainStep(c, now, true).1
    ensures c.v.unsent == [] || c.v.nxt - c.v.una >= Min(c.peer.wnd, c.ledger.cc.cwnd)
  {
    hide SendInv, WireOk, FinsOk, LedgerOk, Sub32, LifeOk;
    EstablishedIsLive(iss, c);
    NewAckMeans(iss, c, 0);
    if c.v.unsent != [] && Room(c) > 0 {
      HeadWhole(iss, c);
    }
  }

  /** A drain that stopped, with memory at hand and the connection still open, left nothing it could have sent. */
  lemma DrainRests(iss: u32, c: Conn, now: nat)
    requires Inv(iss, c) && !DrainStep(c, now, true).1 && DrainStep(c, now, true).0.state.Open()
    ensures var d := DrainStep(c, now, true).0;
            d.v.unsent == [] || d.v.nxt - d.v.una >= Min(d.peer.wnd, d.ledger.cc.cwnd)
  {
    hide Inv, Room, NextLength;
    if c.state.Open() {
      DrainStops(iss, c, now);
    }
  }

  /**
   * In every reachable state the congestion window and threshold are in range, fast recovery holds exactly
   * from the third duplicate acknowledgement on, and in ESTABLISHED its window is the threshold plus a
   * segment per duplicate; k congestion-avoidance increases cost at least k full windows of counted bytes.
   */
  lemma CongestionTheorem(iss: u32, window: u16, wl1: u32, ops: seq<Op>)
    ensures var c := Run(Fresh(iss, window, wl1), ops);
            var l := c.ledger;
            && MSS <= l.cc.cwnd <= 65535
            && 2 * MSS <= l.cc.ssthresh <= 65535
            && l.cc.caBytes < l.cc.cwnd
            && l.cc.dupacks == l.dups % MOD
            && (l.cc.recovery <==> l.dups >= 3)
            && (c.state.Established? && l.cc.recovery ==> l.cc.cwnd == Min(l.cc.ssthresh + l.dups * MSS, 65535))
            && l.counted >= l.windows >= l.increases * MSS
  {
    hide ConnInv, Apply;
    FreshInv(iss, window, wl1);
    RunKeeps(iss, Fresh(iss, window, wl1), ops);
  }

  // ---- the FIN ----

  /** A reset is final, and once the FIN is out the stream and its numbering are frozen. */
  predicate Frozen(c: Conn, d: Conn) {
    && (c.flags.reset ==> d.flags.reset)
    && (c.v.finSent && !d.flags.reset ==>
          d.v.finSent && d.v.stream == c.v.stream && d.v.nxt == c.v.nxt && d.v.sndNxt == c.v.sndNxt)
  }

  /** No acknowledgement changes what has been accepted or sent. */
  lemma AckFreezes(c: Conn, seg: InSegment, now: nat)
    ensures Frozen(c, AckPart(c, seg, now)) && Frozen(c, FinWait1Ack(c, seg, now))
  {
    hide SeqLT, SeqLE, SeqGT, SeqGE, Sub32, Add32, TrimFront, Next;
  }

  lemma InputFreezes(c: Conn, seg: InSegment, peerFin: bool, now: nat)
    ensures Frozen(c, InputConn(c, seg, peerFin, now))
  {
    hide SeqLT, SeqLE, SeqGT, SeqGE, AckPart, FinWait1Ack;
    AckFreezes(c, seg, now);
  }

  lemma TickFreezes(c: Conn, now: nat, slots: nat)
    ensures Frozen(c, TickConn(c, now, slots))
  {
    hide DataTimeout, PersistTimeout, FinTimeout;
    DataTimeoutFreezes(c, now, slots);
    var d := DataTimeout(c, now, slots);
    PersistTimeoutFreezes(d, now, slots - Min(slots, |d.wire| - |c.wire|));
    FinTimeoutFreezes(c, now, slots);
  }

  lemma DataTimeoutFreezes(c: Conn, now: nat, slots: nat)
    ensures Frozen(c, DataTimeout(c, now, slots))
  {
    hide Sub32, Next;
  }

  lemma PersistTimeoutFreezes(c: Conn, now: nat, slots: nat)
    ensures Frozen(c, PersistTimeout(c, now, slots))
  {
    hide Sub32;
  }

  lemma FinTimeoutFreezes(c: Conn, now: nat, slots: nat)
    ensures Frozen(c, FinTimeout(c, now, slots))
  {
    hide Sub32;
  }

  lemma StepFreezes(iss: u32, c: Conn, op: Op)
    requires Inv(iss, c)
    ensures Frozen(c, Apply(c, op))
  {
    hide SendInv, WireOk, FinsOk, LedgerOk, Sub32, Add32, InputConn, TickConn;
    if !c.flags.reset && c.v.finSent {
      NothingUnsent(iss, c);
    }
    match op {
      case OpInput(seg, peerFin, now) => InputFreezes(c, seg, peerFin, now);
      case OpTick(now, slots) => TickFreezes(c, now, slots);
      case _ =>
    }
  }

  lemma NothingUnsent(iss: u32, c: Conn)
    requires ConnInv(iss, c) && !c.flags.reset && c.v.finSent
    ensures c.v.unsent == []
  {
    hide WireOk, FinsOk, LifeOk;
    UnsentEmpty(iss, c.v);
  }

  /**
   * Once a FIN has been sent nothing more is accepted or first sent, whatever happens next: one FIN
   * consumes one number, and every FIN on the wire, first or repeated, carries it.
   */
  lemma {:induction false} OneFin(iss: u32, c: Conn, ops: seq<Op>)
    requires Inv(iss, c) && c.v.finSent && !Run(c, ops).flags.reset
    ensures !c.flags.reset
    ensures var d := Run(c, ops);
            && d.v.finSent && d.v.stream == c.v.stream && d.v.nxt == c.v.nxt == |c.v.stream| + 1
            && forall i :: 0 <= i < |d.wire| && d.wire[i].fin ==> d.wire[i].sequence == SeqAt(iss, |c.v.stream|)
    decreases |ops|
  {
    hide Apply, ConnInv, LedgerOk, SeqAt;
    RunKeeps(iss, c, ops);
    if ops != [] {
      var b := Run(c, ops[..|ops| - 1]);
      var op := ops[|ops| - 1];
      RunKeeps(iss, c, ops[..|ops| - 1]);
      StepFreezes(iss, b, op);
      OneFin(iss, c, ops[..|ops| - 1]);
    }
    ConnMeans(iss, Run(c, ops));
  }

  /** FIN_WAIT1 ends on any acknowledgement at or beyond SND.NXT, and the FIN is acknowledged only at SND.NXT. */
  lemma FinWait1Leaves(iss: u32, c: Conn, seg: InSegment, peerFin: bool, now: nat)
    requires Inv(iss, c) && c.state.FinWait1? && c.v.una < c.v.nxt && !seg.rst && seg.hasAck
    ensures var d := InputConn(c, seg, peerFin, now);
            && (d.state != FinWait1 <==> SeqGE(seg.ack, c.v.sndNxt))
            && (d.v.una == d.v.nxt <==> seg.ack == c.v.sndNxt)
  {
    hide Inv, ConnInv, SendInv, SeqAt, TrimFront, LedgerOk, Next, Signed, Sub32, Add32;
    InvParts(iss, c);
    EstablishedIsLive(iss, c);
    NewAckMeans(iss, c, seg.ack);
    ConnMeans(iss, c);
    AckAtNxt(iss, c.v.una, c.v.nxt, seg.ack);
  }

  lemma AckAtNxt(iss: u32, una: nat, nxt: nat, ack: u32)
    requires una <= nxt < una + HALF
    ensures ack == SeqAt(iss, nxt) <==> Sub32(ack, SeqAt(iss, una)) == nxt - una
  {
    hide SeqAt, Sub32;
    NewAckExactly(iss, una, nxt, ack);
    SeqAtDistance(iss, nxt, una);
  }
}
