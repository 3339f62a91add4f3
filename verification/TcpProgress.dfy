// What a connection is sure to do: lost data is sent again, acknowledgements and windows are honoured, and a close
// runs to its end.
module TcpProgress {
  import opened Basics
  import opened SeqArith
  import opened Congestion
  import opened TcpQueue
  import opened TcpStream
  import opened TcpConn
  import opened TcpSteps
  import opened TcpTheorems

  // ---- retransmission ----

  /** The next packet after those of c is the oldest unacknowledged data: some bytes, from the first one on. */
  ghost predicate SentAgain(iss: u32, c: Conn, d: Conn) {
    && |c.wire| < |d.wire| && d.wire[..|c.wire|] == c.wire
    && var p := d.wire[|c.wire|];
       && !p.fin && 0 < |p.payload| <= MSS && c.v.Acked() + |p.payload| <= |c.v.stream|
       && p.sequence == SeqAt(iss, c.v.Acked())
       && p.payload == c.v.stream[c.v.Acked() .. c.v.Acked() + |p.payload|]
  }

  lemma ResendIs(iss: u32, c: Conn, d: Conn)
    requires ConnInv(iss, c) && !c.flags.reset && c.v.unacked != [] && d.v == c.v && d.wire == c.wire
    ensures var r := ResendConn(d);
            SentAgain(iss, c, r) && r == d.(wire := r.wire, places := r.places)
  {
    hide WireOk, FinsOk, LifeOk, SeqAt, SendInv;
    HeadIsCut(iss, c.v);
  }

  lemma AgainLater(iss: u32, c: Conn, d: Conn, e: Conn)
    requires SentAgain(iss, c, d) && e.wire == d.wire
    ensures SentAgain(iss, c, e)
  {}

  /** Nothing is queued or timed any more. */
  predicate Dead(c: Conn) {
    c.state.Closed? && c.flags.reset && c.v.unsent == [] && c.v.unacked == [] && c.timers == NO_TIMERS
  }

  /** A reset by the peer, in whatever connected state, is the end. */
  lemma ResetByPeer(c: Conn, seg: InSegment, peerFin: bool, now: nat)
    requires !c.state.Closed? && !c.state.Listen? && seg.rst
    ensures var d := Apply(c, OpInput(seg, peerFin, now));
            Dead(d) && d.wire == c.wire && d.v.stream == c.v.stream
  {
    hide DrainStep, TickConn, CloseBegin, ShutdownBegin, FinishStep, SendConn;
  }

  /** The effect of a first or later timeout on the window: the loss window, and half the flight as threshold. */
  predicate CutBack(c: Conn, d: Conn) {
    var was, now := c.ledger.cc, d.ledger.cc;
    && !now.recovery
    && if c.timers.retries == 0 then now.cwnd == MSS && now.ssthresh == Max((c.v.nxt - c.v.una) / 2, 2 * MSS)
       else now.cwnd == was.cwnd && now.ssthresh == was.ssthresh
  }

  /** The retransmission timer of an open connection: the oldest data goes out again, or the connection is given up. */
  lemma TimeoutResends(iss: u32, c: Conn, now: nat, slots: nat)
    requires Inv(iss, c) && c.state.Open() && c.v.unacked != [] && c.timers.Due(now)
    ensures var d := Apply(c, OpTick(now, slots));
            && (d.flags.reset <==> c.timers.retries == MAX_DATA_RETRIES) && (d.flags.reset ==> Dead(d))
            && (!d.flags.reset ==>
                  && d.v == c.v && d.state == c.state && CutBack(c, d)
                  && d.timers.armed && d.timers.retries == c.timers.retries + 1
                  && d.timers.deadline == now + Min(2 * c.timers.rto, 1000))
            && (!d.flags.reset && slots > 0 ==> SentAgain(iss, c, d))
  {
    hide SentAgain, Inv, Sub32, ResendConn, WireOk, FinsOk, SendInv, LedgerOk;
    EstablishedIsLive(iss, c);
    InvParts(iss, c);
    NewAckMeans(iss, c, 0);
    var e := DataTimeout(c, now, slots);
    if c.timers.retries < MAX_DATA_RETRIES {
      BackedOff(iss, c, now, slots);
      Probing(iss, c, e, now, slots - Min(slots, |e.wire| - |c.wire|));
    }
  }

  lemma BackedOff(iss: u32, c: Conn, now: nat, slots: nat)
    requires ConnInv(iss, c) && !c.flags.reset && c.v.unacked != [] && c.timers.Due(now)
    requires c.timers.retries < MAX_DATA_RETRIES
    ensures var d := DataTimeout(c, now, slots);
            && d.v == c.v && d.state == c.state && d.flags == c.flags && d.peer == c.peer
            && d.timers == c.timers.Backoff(now)
            && d.ledger == Next(c.ledger, Timeout(Flight(c), c.timers.retries == 0))
            && (if slots > 0 then SentAgain(iss, c, d) else d.wire == c.wire)
  {
    hide SentAgain, ConnInv, Sub32, Next;
    var d := c.(ledger := Next(c.ledger, Timeout(Flight(c), c.timers.retries == 0)), timers := c.timers.Backoff(now));
    ResendIs(iss, c, d);
  }

  /** The persist timer, which runs next, only ever adds a packet. */
  lemma Probing(iss: u32, c: Conn, e: Conn, now: nat, slots: nat)
    ensures var d := PersistTimeout(e, now, slots);
            && d.v == e.v && d.state == e.state && d.flags == e.flags && d.ledger == e.ledger
            && d.timers.armed == e.timers.armed && d.timers.retries == e.timers.retries
            && d.timers.deadline == e.timers.deadline
            && (SentAgain(iss, c, e) ==> SentAgain(iss, c, d))
  {
    hide Sub32, SeqAt;
  }

  /** The third duplicate acknowledgement: the oldest data goes out at once, and the window is halved. */
  lemma FastRetransmit(iss: u32, c: Conn, seg: InSegment, peerFin: bool, now: nat)
    requires Inv(iss, c) && c.state.Established? && c.v.unacked != [] && c.ledger.dups == 2
    requires seg.hasAck && seg.payload == [] && !seg.syn && !seg.fin && !seg.rst
    requires seg.ack == SeqAt(iss, c.v.una) && seg.window == c.peer.wnd
    ensures var d := Apply(c, OpInput(seg, peerFin, now));
            && SentAgain(iss, c, d) && d.v == c.v && d.timers.armed && d.timers.deadline == now + 100
            && d.ledger.cc.recovery && d.ledger.cc.ssthresh == Max((c.v.nxt - c.v.una) / 2, 2 * MSS)
            && d.ledger.cc.cwnd == Min(d.ledger.cc.ssthresh + 3 * MSS, WINDOW_MAX)
  {
    hide SentAgain, Sub32, ResendConn, SeqGT, SeqLT, Next, ConnInv;
    EstablishedIsLive(iss, c);
    InFlight(iss, c);
    NewAckMeans(iss, c, seg.ack);
    ThirdDuplicate(c.ledger, c.v.nxt - c.v.una, c.v.sndNxt);
    var d := c.(ledger := Next(c.ledger, DupAck(Flight(c), c.v.sndNxt)));
    ResendIs(iss, c, d);
    assert AckPart(c, seg, now) == DupAckConn(c, now);
    AgainLater(iss, c, ResendConn(d), Apply(c, OpInput(seg, peerFin, now)));
  }

  lemma ThirdDuplicate(l: Ledger, flight: nat, sndNxt: u32)
    requires LedgerOk(l) && l.dups == 2
    ensures var cc := Next(l, DupAck(flight, sndNxt)).cc;
            && !l.cc.recovery && cc.recovery && cc.ssthresh == Max(flight / 2, 2 * MSS)
            && cc.cwnd == Min(cc.ssthresh + 3 * MSS, WINDOW_MAX)
  {}

  /** Unacknowledged data means that SND.UNA is before SND.NXT and inside the stream. */
  lemma InFlight(iss: u32, c: Conn)
    requires ConnInv(iss, c) && !c.flags.reset && c.v.unacked != []
    ensures c.v.una < c.v.nxt && c.v.una < |c.v.stream| && c.v.sndUna == SeqAt(iss, c.v.una)
    ensures SeqLT(c.v.sndUna, c.v.sndNxt) && !SeqGT(c.v.sndUna, c.v.sndNxt) && !SeqGT(c.v.sndUna, c.v.sndUna)
  {
    hide WireOk, FinsOk, LifeOk, SeqAt, Contiguous, Sub32;
    HeadIsCut(iss, c.v);
    PayloadsHead(c.v.unacked);
    StreamConserved(iss, c.v);
    ComparisonsAgree(iss, c.v.una, c.v.nxt);
    ComparisonsAgree(iss, c.v.una, c.v.una);
  }

  /** Teardown: the oldest data again while there is any, then the FIN with the number it had; then it is over. */
  lemma TeardownResends(iss: u32, c: Conn, now: nat, slots: nat)
    requires Inv(iss, c) && !c.flags.reset && (c.state.FinWait1? || c.state.LastAck?) && c.timers.Due(now)
    ensures var d := Apply(c, OpTick(now, slots));
            && (d.state.Closed? <==> c.timers.retries == MAX_DATA_RETRIES)
            && (d.state.Closed? ==> d.timers == NO_TIMERS)
            && (!d.state.Closed? ==> d.v == c.v && d.state == c.state && d.timers == c.timers.Backoff(now))
            && (!d.state.Closed? && slots > 0 && c.v.unacked != [] ==> SentAgain(iss, c, d))
            && (!d.state.Closed? && slots > 0 && c.v.unacked == [] ==>
                  d.wire == c.wire + [Packet(SeqAt(iss, |c.v.stream|), true, [])])
  {
    hide SentAgain, Sub32, ResendConn, WireOk, FinsOk, SendInv, LedgerOk;
    InvParts(iss, c);
    if c.timers.retries < MAX_DATA_RETRIES {
      if c.v.unacked != [] {
        ResendIs(iss, c, c.(timers := c.timers.Backoff(now)));
      } else {
        RefinConnKeeps(iss, c);
      }
    }
  }

  // ---- acknowledgements and windows ----

  /** Apart from SND.UNA and the queue behind it, no acknowledgement changes the send fields. */
  lemma AckMoves(c: Conn, seg: InSegment, now: nat)
    ensures var k := if IsNewAck(c, seg.ack) then Sub32(seg.ack, c.v.sndUna) else 0;
            && AckPart(c, seg, now).v.una == c.v.una + k == FinWait1Ack(c, seg, now).v.una
    ensures Sent(c.v, AckPart(c, seg, now).v) && Sent(c.v, FinWait1Ack(c, seg, now).v)
  {
    hide SeqGT, SeqGE, SeqLT, Sub32, TrimFront, Add32, Next;
  }

  lemma InputSends(c: Conn, seg: InSegment, peerFin: bool, now: nat)
    requires (c.state.Established? || c.state.FinWait1?) && seg.hasAck && !seg.rst
    ensures InputConn(c, seg, peerFin, now).v ==
            if c.state.Established? then AckPart(c, seg, now).v else FinWait1Ack(c, seg, now).v
  {
    hide SeqGE, SeqLT, SeqLE, AckPart, FinWait1Ack;
  }

  predicate Sent(v: Send, w: Send) { w.nxt == v.nxt && w.stream == v.stream && w.unsent == v.unsent }

  /** SND.UNA moves to the position an acknowledgement names if that lies in (una, nxt], and otherwise stays. */
  lemma AckExactly(iss: u32, c: Conn, seg: InSegment, peerFin: bool, now: nat)
    requires Inv(iss, c) && (c.state.Established? || c.state.FinWait1?) && seg.hasAck && !seg.rst
    ensures var d, k := Apply(c, OpInput(seg, peerFin, now)), Sub32(seg.ack, SeqAt(iss, c.v.una));
            && seg.ack == SeqAt(iss, c.v.una + k)
            && d.v.una == c.v.una + (if k <= c.v.nxt - c.v.una then k else 0)
            && d.v.nxt == c.v.nxt && d.v.stream == c.v.stream && d.v.unsent == c.v.unsent
  {
    hide DrainStep, TickConn, CloseBegin, ShutdownBegin, FinishStep, SendConn;
    hide Inv, IsNewAck, SeqGT, Sub32, SeqAt, AckPart, FinWait1Ack, ConnInv, InputConn;
    InputSends(c, seg, peerFin, now);
    EstablishedIsLive(iss, c);
    InvParts(iss, c);
    NewAckMeans(iss, c, seg.ack);
    ConnMeans(iss, c);
    NewAckExactly(iss, c.v.una, c.v.nxt, seg.ack);
    AckMoves(c, seg, now);
  }

  /** A new acknowledgement in ESTABLISHED restarts the timer for what is left, or stops it when nothing is. */
  lemma AckTimer(iss: u32, c: Conn, seg: InSegment, peerFin: bool, now: nat)
    requires Inv(iss, c) && c.state.Established? && seg.hasAck && !seg.rst
    requires 0 < Sub32(seg.ack, SeqAt(iss, c.v.una)) <= c.v.nxt - c.v.una
    ensures var d := Apply(c, OpInput(seg, peerFin, now));
            && (d.timers.armed <==> d.v.unacked != []) && d.timers.retries == 0
            && (d.timers.armed ==> d.timers.deadline == now + 100)
  {
    hide DrainStep, TickConn, CloseBegin, ShutdownBegin, FinishStep, SendConn;
    hide Inv, SeqGT, SeqGE, SeqLT, SeqLE, Sub32, SeqAt, Acknowledge, Add32, ConnInv, Next;
    EstablishedIsLive(iss, c);
    InvParts(iss, c);
    NewAckMeans(iss, c, seg.ack);
    ConnMeans(iss, c);
  }

  /** A first transmission starts the timer if nothing was outstanding, and leaves it running otherwise. */
  lemma SendTimer(iss: u32, c: Conn, now: nat, allocOk: bool)
    requires Inv(iss, c) && DrainStep(c, now, allocOk).1
    ensures var d := Apply(c, OpDrain(now, allocOk));
            if c.v.unacked == [] then d.timers.armed && d.timers.deadline == now + 100 && d.timers.retries == 0
            else d.timers == c.timers && c.timers.armed
  {
    hide SendInv, WireOk, FinsOk, LedgerOk, Sub32, Transmit;
    EstablishedIsLive(iss, c);
  }

  /** A chunk of at most a segment is accepted exactly while the write side is open and the buffer has room for it. */
  lemma SendExactly(iss: u32, c: Conn, chunk: seq<byte>)
    requires Inv(iss, c) && 0 < |chunk| <= MSS
    ensures var d := Apply(c, OpSend(chunk));
            var fits := c.state.Open() && !c.flags.reset && !c.flags.shutWr &&
                        |c.v.stream| - c.v.Acked() + |chunk| <= TX_CAPACITY;
            d.v.stream == (if fits then c.v.stream + chunk else c.v.stream) && (!fits ==> d == c)
  {
    hide WireOk, FinsOk, LedgerOk, SeqAt, Add32, LifeOk;
    if !c.flags.reset {
      StreamConserved(iss, c.v);
    }
  }

  /** A new acknowledgement in ESTABLISHED ends fast recovery with the window at the threshold. */
  lemma RecoveryEnds(iss: u32, c: Conn, seg: InSegment, peerFin: bool, now: nat)
    requires Inv(iss, c) && c.state.Established? && c.ledger.cc.recovery && seg.hasAck && !seg.rst
    requires 0 < Sub32(seg.ack, SeqAt(iss, c.v.una)) <= c.v.nxt - c.v.una
    ensures var was, cc := c.ledger.cc, Apply(c, OpInput(seg, peerFin, now)).ledger.cc;
            && !cc.recovery && cc.dupacks == 0 && cc.caBytes == 0 && cc.cwnd == cc.ssthresh == was.ssthresh
  {
    hide DrainStep, TickConn, CloseBegin, ShutdownBegin, FinishStep, SendConn;
    hide Inv, SeqGT, SeqGE, SeqLT, SeqLE, Sub32, SeqAt, Acknowledge, Add32, ConnInv;
    EstablishedIsLive(iss, c);
    InvParts(iss, c);
    NewAckMeans(iss, c, seg.ack);
    ConnMeans(iss, c);
  }

  /**
   * Every acknowledgement in ESTABLISHED sets the peer's window to its own, whatever its age, and a drain that follows
   * sends as soon as that window and the congestion window leave room.
   */
  lemma WindowHonoured(iss: u32, c: Conn, seg: InSegment, peerFin: bool, now: nat, later: nat)
    requires Inv(iss, c) && c.state.Established? && seg.hasAck && !seg.rst
    ensures var d := Apply(c, OpInput(seg, peerFin, now));
            && d.peer.wnd == seg.window && (seg.window != 0 && c.peer.wnd == 0 ==> !d.timers.persist)
            && (d.v.unsent != [] && d.v.nxt - d.v.una < Min(seg.window, d.ledger.cc.cwnd) ==>
                  DrainStep(d, later, true).1)
  {
    hide TickConn, CloseBegin, ShutdownBegin, FinishStep, SendConn;
    hide Inv, AckPart, DrainStep, SeqLT, SeqLE;
    var d := Apply(c, OpInput(seg, peerFin, now));
    AckPartState(c, seg, now);
    InputKeeps(iss, c, seg, peerFin, now);
    if !DrainStep(d, later, true).1 {
      DrainStops(iss, d, later);
    }
  }

  /** Newer by the rule of section 3.9 of RFC 793: a later sequence number, or the same and no older acknowledgement. */
  predicate Newer(c: Conn, seg: InSegment) {
    SeqLT(c.peer.wl1, seg.sequence) || (c.peer.wl1 == seg.sequence && SeqLE(c.peer.wl2, seg.ack))
  }

  /** The window is the one that rule gives exactly when the segment is newer or repeats the window there is. */
  lemma StaleWindow(c: Conn, seg: InSegment, peerFin: bool, now: nat)
    requires c.state.Established? && seg.hasAck && !seg.rst
    ensures Apply(c, OpInput(seg, peerFin, now)).peer.wnd == (if Newer(c, seg) then seg.window else c.peer.wnd) <==>
            Newer(c, seg) || seg.window == c.peer.wnd
  {
    hide AckPart, SeqLT, SeqLE;
    AckPartState(c, seg, now);
  }

  /** So an old duplicate of an acknowledgement shuts the window of a fresh connection. */
  lemma StaleReached(iss: u32, window: u16, wl1: u32, now: nat)
    requires window > 0
    ensures var c := Fresh(iss, window, wl1);
            var old_ := InSegment(Sub32(wl1, 1), c.v.sndUna, 0, true, false, false, false, []);
            !Newer(c, old_) && Apply(c, OpInput(old_, false, now)).peer.wnd == 0
  {
    var c := Fresh(iss, window, wl1);
    var old_ := InSegment(Sub32(wl1, 1), c.v.sndUna, 0, true, false, false, false, []);
    OneBefore(wl1);
    hide AckPart, SeqLT, SeqLE, SeqAt;
    AckPartState(c, old_, now);
  }

  lemma OneBefore(x: u32)
    ensures !SeqLT(x, Sub32(x, 1)) && Sub32(x, 1) != x
  {}

  lemma AckPartState(c: Conn, seg: InSegment, now: nat)
    ensures AckPart(c, seg, now).state == c.state
    ensures AckPart(c, seg, now).peer == c.peer
  {
    hide SeqGT, SeqLT, Sub32, Acknowledge, Next;
  }

  // ---- closing ----

  /** Open for writing with everything handed to the network at least once. */
  predicate Drained(c: Conn) { c.state.Open() && !c.flags.reset && !c.flags.shutWr && c.v.unsent == [] }

  /** The last packet is a FIN with the number after the last byte of the stream. */
  ghost predicate FinOut(iss: u32, c: Conn, d: Conn) {
    && d.wire == c.wire + [Packet(SeqAt(iss, |c.v.stream|), true, [])]
    && d.v.stream == c.v.stream && d.v.nxt == |c.v.stream| + 1 && d.v.una == c.v.una && !d.flags.reset
    && d.timers.armed && d.timers.retries == 0
  }

  lemma CloseSendsFin(iss: u32, c: Conn, now: nat)
    requires Inv(iss, c) && Drained(c)
    ensures var d := Apply(c, OpClose(now));
            && FinOut(iss, c, d) && d.flags.eof == c.flags.eof
            && d.state == if c.state.Established? then FinWait1 else LastAck
  {
    hide SendInv, WireOk, FinsOk, LedgerOk, SeqAt, Add32;
    FinConnKeeps(iss, c.ShutWrite(), FinWait1, now);
    ConnMeans(iss, c);
  }

  /** So does a shutdown of the write side. */
  lemma ShutdownSendsFin(iss: u32, c: Conn, now: nat)
    requires Inv(iss, c) && Drained(c)
    ensures var d := Apply(c, OpShutdown(now));
            && FinOut(iss, c, d) && d.flags.eof == c.flags.eof
            && d.state == if c.state.Established? then FinWait1 else LastAck
  {
    hide SendInv, WireOk, FinsOk, LedgerOk, SeqAt, Add32;
    FinConnKeeps(iss, c.ShutWrite(), FinWait1, now);
    ConnMeans(iss, c);
  }

  /** With data unsent both shut the write side and come back to it after their drain. */
  lemma CloseComesBack(iss: u32, c: Conn, now: nat)
    requires Inv(iss, c) && c.state.Open() && !c.flags.reset && !c.flags.shutWr && c.v.unsent != []
    ensures Apply(c, OpClose(now)) == c.(flags := c.flags.(shutWr := true), closer := Closing(c.state))
    ensures Apply(c, OpShutdown(now)) == c.(flags := c.flags.(shutWr := true), closer := Shutting)
  {}

  lemma CloserStays(c: Conn, op: Op)
    requires c.flags.shutWr && !op.OpFinish?
    ensures Apply(c, op).closer == c.closer && Apply(c, op).flags.shutWr
  {
    hide InputConn, TickConn, DrainStep, Commit, FinConn;
    match op {
      case OpInput(seg, peerFin, now) => InputCloser(c, seg, peerFin, now);
      case OpTick(now, slots) => TickCloser(c, now, slots);
      case OpDrain(now, allocOk) => DrainCloser(c, now, allocOk);
      case _ =>
    }
  }

  /** Nothing but the calls themselves changes who is closing. */
  predicate SameCloser(c: Conn, d: Conn) { d.closer == c.closer && d.flags.shutWr == c.flags.shutWr }

  lemma AckCloser(c: Conn, seg: InSegment, now: nat)
    ensures SameCloser(c, AckPart(c, seg, now)) && SameCloser(c, FinWait1Ack(c, seg, now))
  {
    hide Sub32, Next, SeqGT, SeqLT, SeqGE, Acknowledge;
  }

  lemma InputCloser(c: Conn, seg: InSegment, peerFin: bool, now: nat)
    ensures SameCloser(c, InputConn(c, seg, peerFin, now))
  {
    hide AckPart, FinWait1Ack, SeqGE, SeqLT, SeqLE;
    AckCloser(c, seg, now);
  }

  lemma TickCloser(c: Conn, now: nat, slots: nat)
    ensures SameCloser(c, TickConn(c, now, slots))
  {
    hide DataTimeout, PersistTimeout, FinTimeout;
    TimeoutCloser(c, now, slots);
    var d := DataTimeout(c, now, slots);
    ProbeCloser(d, now, slots - Min(slots, |d.wire| - |c.wire|));
  }

  lemma TimeoutCloser(c: Conn, now: nat, slots: nat)
    ensures SameCloser(c, DataTimeout(c, now, slots)) && SameCloser(c, FinTimeout(c, now, slots))
  {
    hide Sub32, Next;
  }

  lemma ProbeCloser(c: Conn, now: nat, slots: nat)
    ensures SameCloser(c, PersistTimeout(c, now, slots))
  {
    hide Sub32;
  }

  lemma DrainCloser(c: Conn, now: nat, allocOk: bool)
    ensures SameCloser(c, DrainStep(c, now, allocOk).0)
  {
    hide Sub32, Transmit, Finish;
  }

  lemma {:induction false} CloserWaits(c: Conn, ops: seq<Op>)
    requires c.flags.shutWr && forall i :: 0 <= i < |ops| ==> !ops[i].OpFinish?
    ensures Run(c, ops).closer == c.closer && Run(c, ops).flags.shutWr
    decreases |ops|
  {
    if ops != [] {
      hide Apply;
      CloserWaits(c, ops[..|ops| - 1]);
      CloserStays(Run(c, ops[..|ops| - 1]), ops[|ops| - 1]);
    }
  }

  /**
   * A close with data unsent, whatever happens before it takes the lock again: if the state is then still the one it
   * was called in, the FIN is out or stays pending behind the data.
   */
  lemma CloseLeavesFin(iss: u32, c: Conn, ops: seq<Op>, t0: nat, t1: nat)
    requires Inv(iss, c) && c.state.Open() && !c.flags.reset && !c.flags.shutWr && c.v.unsent != []
    requires forall i :: 0 <= i < |ops| ==> !ops[i].OpFinish?
    requires Run(Apply(c, OpClose(t0)), ops).state == c.state
    ensures var b := Run(Apply(c, OpClose(t0)), ops);
            var d := Apply(b, OpFinish(t1));
            if b.v.unsent == [] then FinOut(iss, b, d) else d.flags.finPending && d.v == b.v
  {
    hide Inv, Apply, Run, FinOut;
    var a := Apply(c, OpClose(t0));
    CloseComesBack(iss, c, t0);
    CloserWaits(a, ops);
    ApplyKeeps(iss, c, OpClose(t0));
    RunKeeps(iss, a, ops);
    FinishLeavesFin(iss, Run(a, ops), t1);
  }

  lemma FinishLeavesFin(iss: u32, b: Conn, now: nat)
    requires Inv(iss, b) && b.state.Open() && b.closer == Closing(b.state) && b.flags.shutWr
    ensures var d := Apply(b, OpFinish(now));
            if b.v.unsent == [] then FinOut(iss, b, d) else d.flags.finPending && d.v == b.v
  {
    hide SendInv, WireOk, FinsOk, LedgerOk, SeqAt, Add32, InputConn, TickConn, DrainStep;
    hide CloseBegin, ShutdownBegin, SendConn;
    EstablishedIsLive(iss, b);
    ConnMeans(iss, b);
    if b.v.unsent == [] {
      IdleInv(iss, b);
      FinConnKeeps(iss, b.(closer := Idle), FinWait1, now);
    }
  }

  lemma IdleInv(iss: u32, c: Conn)
    requires ConnInv(iss, c)
    ensures ConnInv(iss, c.(closer := Idle))
  {
    hide SendInv, WireOk, FinsOk;
  }

  /** A FIN left pending goes out with the drain that finds nothing more to send. */
  lemma PendingFinSent(iss: u32, c: Conn, now: nat, allocOk: bool)
    requires Inv(iss, c) && c.state.Open() && c.flags.finPending && c.v.unsent == []
    ensures var d := Apply(c, OpDrain(now, allocOk));
            && FinOut(iss, c, d) && !d.flags.finPending
            && d.state == if c.state.Established? then FinWait1 else LastAck
  {
    hide SendInv, WireOk, FinsOk, LedgerOk, SeqAt, Add32;
    EstablishedIsLive(iss, c);
    FinConnKeeps(iss, c, FinWait1, now);
    ConnMeans(iss, c);
  }

  /** The acknowledgement of everything, the FIN included, with or without the peer's own FIN. */
  lemma FinAcked(iss: u32, c: Conn, seg: InSegment, peerFin: bool, now: nat)
    requires Inv(iss, c) && !c.flags.reset && !seg.rst && seg.hasAck && seg.ack == SeqAt(iss, c.v.nxt)
    requires c.state.FinWait1? || c.state.LastAck?
    ensures var d, eof := Apply(c, OpInput(seg, peerFin, now)), c.flags.eof || (c.state.FinWait1? && peerFin);
            && !d.flags.reset && d.wire == c.wire && d.flags.eof == eof
            && d.state == (if c.state.LastAck? then Closed else if eof then TimeWait else FinWait2)
            && (c.state.FinWait1? ==> d.v.una == d.v.nxt == c.v.nxt && !d.timers.armed)
            && (d.state.TimeWait? ==> d.timers.timeout == now + 200) && (d.state.Closed? ==> d.timers == NO_TIMERS)
  {
    hide DrainStep, TickConn, CloseBegin, ShutdownBegin, FinishStep, SendConn;
    hide Inv, ConnInv, SeqAt, Sub32, SeqGT, TrimFront, Next, Add32;
    InvParts(iss, c);
    ConnMeans(iss, c);
    NewAckMeans(iss, c, seg.ack);
    SeqAtDistance(iss, c.v.nxt, c.v.una);
    ComparisonsAgree(iss, c.v.nxt, c.v.nxt);
  }

  /**
   * A close with nothing unsent, whose FIN is acknowledged and answered by the peer's: one FIN goes out, and the
   * connection ends in CLOSED 200 ticks after the peer's FIN and not before.
   */
  lemma ActiveClose(iss: u32, c: Conn, ack: InSegment, fin: InSegment, t0: nat, t1: nat, t2: nat, t3: nat, slots: nat)
    requires Inv(iss, c) && Drained(c) && c.state.Established? && !c.flags.eof
    requires !ack.rst && ack.hasAck && ack.ack == SeqAt(iss, |c.v.stream| + 1) && !fin.rst
    ensures var c1 := Apply(c, OpClose(t0));
            var c2 := Apply(c1, OpInput(ack, false, t1));
            var c3 := Apply(c2, OpInput(fin, true, t2));
            var c4 := Apply(c3, OpTick(t3, slots));
            && FinOut(iss, c, c1) && c1.state.FinWait1? && c2.state.FinWait2? && c3.state.TimeWait?
            && c4.wire == c1.wire && !c4.flags.reset && c4.v.una == |c.v.stream| + 1
            && c4.state == if t3 >= t2 + 200 then Closed else TimeWait
  {
    hide Inv, Drained, SeqAt, SendInv, CloseBegin;
    var c1 := Apply(c, OpClose(t0));
    CloseSendsFin(iss, c, t0);
    ApplyKeeps(iss, c, OpClose(t0));
    FinAcked(iss, c1, ack, false, t1);
    var c2 := Apply(c1, OpInput(ack, false, t1));
    assert c2.state.FinWait2? && !c2.flags.eof;
  }

  /** Both sides close at once: the peer's FIN first and the acknowledgement of ours after it lead to TIME_WAIT too. */
  lemma SimultaneousClose(iss: u32, c: Conn, fin: InSegment, ack: InSegment, t0: nat, t1: nat)
    requires Inv(iss, c) && c.state.FinWait1? && !c.flags.reset && !fin.rst && !fin.hasAck
    requires !ack.rst && ack.hasAck && ack.ack == SeqAt(iss, c.v.nxt)
    ensures var c1 := Apply(c, OpInput(fin, true, t0));
            var c2 := Apply(c1, OpInput(ack, false, t1));
            && c1.state.FinWait1? && c1.flags.eof && c1.v == c.v
            && c2.state.TimeWait? && c2.timers.timeout == t1 + 200 && c2.v.una == c.v.nxt && c2.wire == c.wire
  {
    hide Inv, SeqAt, DrainStep, TickConn, CloseBegin, ShutdownBegin, FinishStep, SendConn, FinWait1Ack, SeqGE;
    ApplyKeeps(iss, c, OpInput(fin, true, t0));
    FinAcked(iss, Apply(c, OpInput(fin, true, t0)), ack, false, t1);
  }

  /** A FIN that comes again in TIME_WAIT starts the 200 ticks over; nothing else but a reset ends them sooner. */
  lemma TimeWaitRestarts(c: Conn, seg: InSegment, peerFin: bool, t0: nat, t1: nat, slots: nat)
    requires c.state.TimeWait? && !seg.rst && c.timers.timeout > 0
    ensures var d := Apply(Apply(c, OpInput(seg, peerFin, t0)), OpTick(t1, slots));
            && d.state == (if t1 >= (if seg.fin then t0 + 200 else c.timers.timeout) then Closed else TimeWait)
            && d.v == c.v && d.wire == c.wire && (d.state.Closed? ==> d.timers == NO_TIMERS)
  {
    hide DrainStep, CloseBegin, ShutdownBegin, FinishStep, SendConn;
  }

  /** The peer closes first: its FIN leads to CLOSE_WAIT, our close to LAST_ACK, its acknowledgement to CLOSED. */
  lemma PassiveClose(iss: u32, c: Conn, fin: InSegment, ack: InSegment, t0: nat, t1: nat, t2: nat)
    requires Inv(iss, c) && Drained(c) && c.state.Established? && !fin.rst && !fin.hasAck
    requires !ack.rst && ack.hasAck && ack.ack == SeqAt(iss, |c.v.stream| + 1)
    ensures var c1 := Apply(c, OpInput(fin, true, t0));
            var c2 := Apply(c1, OpClose(t1));
            var c3 := Apply(c2, OpInput(ack, false, t2));
            && c1.state.CloseWait? && c1.flags.eof && FinOut(iss, c1, c2) && c2.state.LastAck?
            && c3.state.Closed? && !c3.flags.reset && c3.wire == c2.wire
  {
    hide Inv, SeqAt, SendInv, CloseBegin;
    var c1 := Apply(c, OpInput(fin, true, t0));
    ApplyKeeps(iss, c, OpInput(fin, true, t0));
    CloseSendsFin(iss, c1, t1);
    ApplyKeeps(iss, c1, OpClose(t1));
    FinAcked(iss, Apply(c1, OpClose(t1)), ack, false, t2);
  }
}
