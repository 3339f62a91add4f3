// One connection's send state as a value: its stream, its place in the close handshake, its timers and
// the packets it has put on the wire, with the invariant every critical section keeps.
module TcpConn {
  import opened Basics
  import opened SeqArith
  import opened Congestion
  import opened TcpQueue
  import opened TcpStream

  const MAX_DATA_RETRIES: nat := 5
  const MAX_PERSIST_PROBES: nat := 10

  datatype TcpState = Closed | Listen | SynSent | SynReceived | Established
                    | FinWait1 | FinWait2 | CloseWait | LastAck | TimeWait
  {
    /** The states in which data may still be accepted and sent. */
    predicate Open() { Established? || CloseWait? }
  }

  /** The thread, if any, that has shut the write side and is draining before it finishes. */
  datatype Closer = Idle | Closing(from: TcpState) | Shutting

  /** Retransmission, persist and TIME_WAIT timers; deadlines are absolute ticks and 0 is disarmed. */
  datatype Timers = Timers(armed: bool, rto: nat, deadline: nat, retries: nat,
                           persist: bool, interval: nat, probeAt: nat, probes: nat, timeout: nat)
  {
    predicate Due(now: nat) { armed && deadline != 0 && now >= deadline }

    predicate ProbeDue(now: nat) { persist && probeAt != 0 && now >= probeAt }

    function Start(now: nat): Timers { this.(armed := true, rto := 100, deadline := now + 100, retries := 0) }

    function Stop(): Timers { this.(armed := false, rto := 100, deadline := 0, retries := 0) }

    function Backoff(now: nat): Timers {
      var next := Min(rto * 2, 1000);
      this.(rto := next, deadline := now + next, retries := retries + 1)
    }

    function StartPersist(now: nat): Timers {
      this.(persist := true, interval := 100, probeAt := now + 100, probes := 0)
    }

    function BackoffPersist(now: nat): Timers {
      var next := Min(interval * 2, 1000);
      this.(interval := next, probeAt := now + next, probes := probes + 1)
    }
  }

  const NO_TIMERS := Timers(false, 100, 0, 0, false, 100, 0, 0, 0)

  /** The bits of pcb->flags that the send side uses. */
  datatype Flags = Flags(shutWr: bool, finPending: bool, reset: bool, eof: bool, draining: bool)

  datatype PeerWindow = PeerWindow(wnd: u16, wl1: u32, wl2: u32)

  datatype Conn = Conn(v: Send, state: TcpState, flags: Flags, closer: Closer, timers: Timers,
                       peer: PeerWindow, ledger: Ledger, wire: seq<Packet>, places: seq<nat>)
  {
    function Emit(p: Packet, pos: nat): Conn { this.(wire := wire + [p], places := places + [pos]) }

    function SetDraining(b: bool): Conn { this.(flags := flags.(draining := b)) }

    function ShutWrite(): Conn { this.(flags := flags.(shutWr := true)) }

    /** The connection is over: timers are cleared and the state is CLOSED. */
    function Expire(): Conn { this.(state := Closed, timers := NO_TIMERS).SetDraining(false) }
  }

  /** Where the connection is in its life agrees with what the FIN bookkeeping says. */
  ghost predicate LifeOk(c: Conn) {
    && (c.state.Open() <==> !c.v.finSent)
    && (c.v.finSent ==> c.flags.shutWr && !c.flags.finPending)
    && (c.flags.finPending ==> c.flags.shutWr)
    && (c.closer != Idle ==> c.flags.shutWr && !c.flags.finPending && !c.v.finSent)
    && (c.v.unacked != [] && (c.state.Open() || c.state.FinWait1? || c.state.LastAck?) ==> c.timers.armed)
    && c.timers.retries <= MAX_DATA_RETRIES
  }

  /** The invariant of the send side; a reset connection keeps only empty queues and its packet log. */
  ghost predicate ConnInv(iss: u32, c: Conn) {
    && WireOk(iss, c.v.stream, c.wire, c.places)
    && (c.flags.reset ==> c.v.unsent == [] && c.v.unacked == [] && (c.state.Closed? || c.state.LastAck?))
    && (!c.flags.reset ==> SendInv(iss, c.v) && LifeOk(c) && FinsOk(iss, c.v.stream, c.v.finSent, c.wire))
  }

  /** What a caller may rely on in every state of a connection that has not been reset. */
  lemma ConnMeans(iss: u32, c: Conn)
    requires ConnInv(iss, c) && !c.flags.reset
    ensures c.v.stream[..c.v.Acked()] + Payloads(c.v.unacked) + Payloads(c.v.unsent) == c.v.stream
    ensures c.v.unackedBytes + c.v.unsentBytes <= TX_CAPACITY
    ensures Sub32(c.v.sndNxt, c.v.sndUna) == c.v.nxt - c.v.una <= TX_CAPACITY + 1
    ensures c.v.una <= c.v.nxt && c.v.sndUna == SeqAt(iss, c.v.una) && c.v.sndNxt == SeqAt(iss, c.v.nxt)
    ensures !c.v.finSent ==> c.v.nxt <= |c.v.stream|
    ensures c.v.finSent ==> c.v.nxt == |c.v.stream| + 1
    ensures forall i :: 0 <= i < |c.wire| && c.wire[i].fin ==> c.wire[i].sequence == SeqAt(iss, |c.v.stream|)
  {
    hide SeqAt, Sub32, Payloads, WireOk, Contiguous, AllWhole, LifeOk;
    StreamConserved(iss, c.v);
  }

  lemma HeadWhole(iss: u32, c: Conn)
    requires ConnInv(iss, c) && !c.flags.reset && c.v.unsent != []
    ensures 0 < c.v.unsent[0].length <= MSS
  {
    hide SeqAt, Payloads, WireOk, FinsOk, Contiguous, LifeOk;
    assert c.v.unsent[0].Whole();
  }

  /** The bytes at the head of the unsent queue are the next stream bytes. */
  lemma HeadPayload(iss: u32, c: Conn, n: nat)
    requires ConnInv(iss, c) && !c.flags.reset && c.v.unsent != [] && 0 < n <= c.v.unsent[0].length
    ensures c.v.unsent[0].offset + c.v.unsent[0].length == |c.v.unsent[0].data|
    ensures c.v.nxt + n <= |c.v.stream|
    ensures c.v.unsent[0].Payload()[..n] == c.v.stream[c.v.nxt .. c.v.nxt + n]
  {
    hide SeqAt, Payloads, WireOk, FinsOk, Contiguous, LifeOk;
    assert c.v.unsent[0].Whole();
    TransmitIsCut(iss, c.v, n);
  }

  /** tcp_send: a chunk joins the stream and the unsent queue. */
  function CommitConn(c: Conn, chunk: seq<byte>): Conn { c.(v := Commit(c.v, chunk)) }

  predicate CanSend(c: Conn) { c.state.Open() && !c.flags.reset && !c.flags.shutWr }

  lemma CommitConnKeeps(iss: u32, c: Conn, chunk: seq<byte>)
    requires ConnInv(iss, c) && CanSend(c)
    requires 0 < |chunk| <= MSS && c.v.unsentBytes + c.v.unackedBytes + |chunk| <= TX_CAPACITY
    ensures ConnInv(iss, CommitConn(c, chunk)) && !c.v.finSent
  {
    hide SendInv, WireOk, SeqAt, Add32;
    CommitKeeps(iss, c.v, chunk);
    WireGrows(iss, c.v.stream, chunk, c.wire, c.places);
  }

  /** tcp_drain_unsent: n bytes go on the wire; the timer starts if nothing was outstanding. */
  function TransmitConn(c: Conn, n: nat, now: nat): Conn {
    c.(v := Transmit(c.v, n), timers := if c.v.unacked == [] then c.timers.Start(now) else c.timers)
     .Emit(Packet(c.v.sndNxt, false, Slice(c.v.stream, c.v.nxt, n)), c.v.nxt)
  }

  function Slice<T>(s: seq<T>, at: nat, n: nat): seq<T> { if at + n <= |s| then s[at .. at + n] else [] }

  lemma TransmitConnKeeps(iss: u32, c: Conn, n: nat, now: nat)
    requires ConnInv(iss, c) && !c.flags.reset && c.state.Open()
    requires c.v.unsent != [] && 0 < n <= c.v.unsent[0].length
    ensures ConnInv(iss, TransmitConn(c, n, now))
    ensures c.v.nxt + n <= |c.v.stream| && !c.v.finSent
  {
    hide SendInv, WireOk, FinsOk, Cut, SeqAt;
    TransmitKeeps(iss, c.v, n);
    TransmitIsCut(iss, c.v, n);
    var p := Packet(c.v.sndNxt, false, c.v.stream[c.v.nxt .. c.v.nxt + n]);
    WireAppend(iss, c.v.stream, c.wire, c.places, p, c.v.nxt);
    FinsAppend(iss, c.v.stream, c.v.finSent, c.wire, p);
  }

  /** A FIN is sent: it takes the next number, and the retransmission timer starts for it. */
  function FinConn(c: Conn, next: TcpState, now: nat): Conn {
    c.(v := Finish(c.v), state := next, flags := c.flags.(finPending := false), timers := c.timers.Start(now))
     .Emit(Packet(c.v.sndNxt, true, []), c.v.nxt)
  }

  lemma FinConnKeeps(iss: u32, c: Conn, next: TcpState, now: nat)
    requires ConnInv(iss, c) && c.v.unsent == [] && c.flags.shutWr
    requires !c.flags.reset ==> !c.v.finSent && !next.Open() && c.closer == Idle
    requires c.flags.reset ==> next.Closed? || next.LastAck?
    ensures ConnInv(iss, FinConn(c, next, now))
    ensures !c.flags.reset ==> c.v.nxt == |c.v.stream|
  {
    hide SendInv, WireOk, SeqAt, Add32;
    var p := Packet(c.v.sndNxt, true, []);
    WireAppend(iss, c.v.stream, c.wire, c.places, p, c.v.nxt);
    if !c.flags.reset {
      FinishKeeps(iss, c.v);
      ConnMeans(iss, c);
      assert FinsOk(iss, c.v.stream, true, c.wire);
      FinsAppend(iss, c.v.stream, true, c.wire, p);
    }
  }

  /** A new acknowledgement of k positions: the timer restarts, or stops once nothing is outstanding. */
  function AckConn(c: Conn, k: nat, now: nat): Conn {
    var w := Acknowledge(c.v, k);
    c.(v := w, timers := if w.unacked == [] then c.timers.Stop() else c.timers.Start(now))
  }

  lemma AckConnKeeps(iss: u32, c: Conn, k: nat, now: nat)
    requires ConnInv(iss, c) && !c.flags.reset && c.v.una + k <= c.v.nxt
    ensures ConnInv(iss, AckConn(c, k, now))
  {
    hide SendInv, WireOk, FinsOk, TrimFront, Add32;
    AcknowledgeKeeps(iss, c.v, k);
  }

  /** The trimming loop removes exactly the bytes an acknowledgement of k positions confirms. */
  lemma AckBytes(iss: u32, c: Conn, k: nat)
    requires ConnInv(iss, c) && !c.flags.reset && c.v.una + k <= c.v.nxt
    ensures AllWhole(c.v.unacked) && Contiguous(c.v.unacked, iss, c.v.Acked())
    ensures c.v.unackedBytes == |Payloads(c.v.unacked)| <= TX_CAPACITY
    ensures c.v.Acked() <= c.v.una + k <= c.v.Acked() + TX_CAPACITY + 1
    ensures Min(c.v.una + k, |c.v.stream|) - c.v.Acked() == Min(c.v.una + k - c.v.Acked(), c.v.unackedBytes)
    ensures Add32(c.v.sndUna, k) == SeqAt(iss, c.v.una + k)
  {
    hide SeqAt, Add32, AllWhole, Payloads, WireOk, FinsOk, Contiguous, LifeOk;
    SeqAtAdd(iss, c.v.una, k);
  }

  /** The oldest unacknowledged segment goes on the wire again with its own number. */
  function ResendConn(c: Conn): Conn {
    if c.v.unacked == [] then c else
    c.Emit(Packet(c.v.unacked[0].sequence, false, c.v.unacked[0].Payload()), c.v.Acked())
  }

  lemma ResendConnKeeps(iss: u32, c: Conn)
    requires ConnInv(iss, c)
    ensures ConnInv(iss, ResendConn(c))
    ensures c.v.unacked != [] ==> c.v.unacked[0].Whole()
  {
    if c.v.unacked != [] {
      hide WireOk, FinsOk, Cut, SeqAt, Payloads, Contiguous;
      HeadIsCut(iss, c.v);
      assert c.v.unacked[0].Whole();
      hide SendInv, AllWhole;
      var p := Packet(c.v.unacked[0].sequence, false, c.v.unacked[0].Payload());
      WireAppend(iss, c.v.stream, c.wire, c.places, p, c.v.Acked());
      FinsAppend(iss, c.v.stream, c.v.finSent, c.wire, p);
    }
  }

  /** A FIN sent again carries the number before SND.NXT, which is the number it had. */
  function RefinConn(c: Conn): Conn { c.Emit(Packet(Sub32(c.v.sndNxt, 1), true, []), 0) }

  lemma RefinConnKeeps(iss: u32, c: Conn)
    requires ConnInv(iss, c) && (!c.flags.reset ==> c.v.finSent)
    ensures ConnInv(iss, RefinConn(c))
    ensures !c.flags.reset ==> Sub32(c.v.sndNxt, 1) == SeqAt(iss, |c.v.stream|)
  {
    hide SendInv, WireOk, FinsOk, SeqAt, Sub32;
    var p := Packet(Sub32(c.v.sndNxt, 1), true, []);
    WireAppend(iss, c.v.stream, c.wire, c.places, p, 0);
    if !c.flags.reset {
      ConnMeans(iss, c);
      SeqAtBack(iss, |c.v.stream|);
      FinsAppend(iss, c.v.stream, c.v.finSent, c.wire, p);
    }
  }

  /** The connection dies: queues and timers are dropped and the reset flag stays up. */
  function ResetConn(c: Conn): Conn {
    c.(v := c.v.(unsent := [], unacked := [], unsentBytes := 0, unackedBytes := 0),
       state := Closed, timers := NO_TIMERS,
       flags := c.flags.(reset := true, draining := false))
  }

  lemma ResetConnKeeps(iss: u32, c: Conn)
    requires ConnInv(iss, c)
    ensures ConnInv(iss, ResetConn(c))
  {}
}
