// The close handshake as the code runs it: what it waits for, what it never does, and runs that show it.
module TcpClosing {
  import opened Basics
  import opened SeqArith
  import opened Congestion
  import opened TcpQueue
  import opened TcpStream
  import opened TcpConn
  import opened TcpSteps

  lemma RunNext(c: Conn, ops: seq<Op>, op: Op)
    ensures Run(c, ops + [op]) == Apply(Run(c, ops), op)
  {
    hide Apply;
    assert (ops + [op])[..|ops|] == ops;
  }

  // ---- acknowledgements that end LAST_ACK ----

  /** LAST_ACK ends on any of the 2^31 numbers from SND.NXT on, and nothing is acknowledged by it. */
  lemma LastAckLeaves(c: Conn, seg: InSegment, peerFin: bool, now: nat)
    requires c.state.LastAck? && !seg.rst
    ensures var d := InputConn(c, seg, peerFin, now);
            && (d.state != LastAck <==> seg.hasAck && Sub32(seg.ack, c.v.sndNxt) < HALF)
            && (d.state != LastAck ==> d.state.Closed?)
            && d.v == c.v
  {
    hide Sub32;
  }

  function Bare(ack: u32): InSegment { InSegment(0, ack, 0, true, false, false, false, []) }

  /** A FIN that acknowledges nothing new and closes the window. */
  function PeerFin(c: Conn): InSegment { InSegment(0, c.v.sndUna, 0, true, false, true, false, []) }

  function PeerReset(): InSegment { InSegment(0, 0, 0, false, false, false, true, []) }

  lemma PeerFinStep(c: Conn, now: nat)
    requires c.state.Established?
    ensures var d := InputConn(c, PeerFin(c), true, now);
            && d.v == c.v && d.state.CloseWait? && d.flags == c.flags.(eof := true) && d.closer == c.closer
            && d.wire == c.wire && d.peer.wnd == 0
  {}

  /** A close, then the acknowledgement one past SND.NXT: FIN_WAIT2 with the FIN unacknowledged. */
  lemma FinWait1Skipped(iss: u32, window: u16, wl1: u32, now: nat)
    ensures var c := Run(Fresh(iss, window, wl1), [OpClose(now)]);
            var d := Apply(c, OpInput(Bare(Add32(c.v.sndNxt, 1)), false, now));
            c.state.FinWait1? && d.state.FinWait2? && d.v.una < d.v.nxt
  {
    RunNext(Fresh(iss, window, wl1), [], OpClose(now));
    var c := CloseBegin(Fresh(iss, window, wl1), now);
    assert c.v.una == 0 && c.v.nxt == 1 && c.state.FinWait1?;
    PastNxt(c.v.sndNxt);
    assert c.v.sndNxt == Add32(c.v.sndUna, 1);
    assert Sub32(Add32(c.v.sndNxt, 1), c.v.sndNxt) == 1;
    hide Sub32, Add32;
  }

  lemma PastNxt(x: u32)
    ensures SeqGE(Add32(x, 1), x) && SeqGT(Add32(x, 1), x) && Sub32(Add32(x, 1), x) == 1
  {}

  /** The peer's FIN, a close, then the acknowledgement one past SND.NXT: CLOSED with the FIN unacknowledged. */
  lemma LastAckSkipped(iss: u32, window: u16, wl1: u32, now: nat)
    ensures var b := Fresh(iss, window, wl1);
            var c := Run(b, [OpInput(PeerFin(b), true, now), OpClose(now)]);
            var d := Apply(c, OpInput(Bare(Add32(c.v.sndNxt, 1)), false, now));
            c.state.LastAck? && d.state.Closed? && d.v.una < d.v.nxt
  {
    var b := Fresh(iss, window, wl1);
    hide Sub32, Add32, InputConn, SeqAt;
    RunNext(b, [], OpInput(PeerFin(b), true, now));
    RunNext(b, [OpInput(PeerFin(b), true, now)], OpClose(now));
    PeerFinStep(b, now);
    var c := CloseBegin(InputConn(b, PeerFin(b), true, now), now);
    assert c.state.LastAck? && c.v.una == 0 && c.v.nxt == 1;
    PastNxt(c.v.sndNxt);
    LastAckLeaves(c, Bare(Add32(c.v.sndNxt, 1)), false, now);
  }

  // ---- a close that gives up ----

  /** The thread that finishes a close sends or leaves pending a FIN exactly when the state is the one it saw. */
  lemma FinishExactly(iss: u32, c: Conn, from: TcpState, now: nat)
    requires Inv(iss, c) && !c.flags.reset && c.closer == Closing(from)
    ensures var d := FinishStep(c, now);
            (d.v.finSent || d.flags.finPending <==> c.state == from) && d.closer == Idle && d.flags.shutWr
  {
    hide SendInv, WireOk, FinsOk, LedgerOk;
  }

  /** The write side is shut, no FIN has been sent or is pending, and no thread is left to send one. */
  predicate Mute(c: Conn) {
    && c.flags.shutWr && !c.flags.finPending && !c.v.finSent && c.closer == Idle
    && (c.state.Open() || c.state.Closed?)
  }

  /** d's packets are c's and further ones without a FIN. */
  ghost predicate NoNewFin(c: Conn, d: Conn) {
    |c.wire| <= |d.wire| && d.wire[..|c.wire|] == c.wire && forall i :: |c.wire| <= i < |d.wire| ==> !d.wire[i].fin
  }

  /** That is how a close that gave up leaves the connection. */
  lemma GaveUpIsMute(iss: u32, c: Conn, from: TcpState, now: nat)
    requires Inv(iss, c) && !c.flags.reset && c.closer == Closing(from) && c.state != from
    ensures Mute(FinishStep(c, now))
  {
    hide SendInv, WireOk, FinsOk, LedgerOk;
  }

  lemma MuteResend(c: Conn)
    requires Mute(c)
    ensures Mute(ResendConn(c)) && NoNewFin(c, ResendConn(c))
  {}

  lemma MuteAck(c: Conn, seg: InSegment, now: nat)
    requires Mute(c)
    ensures Mute(AckPart(c, seg, now)) && NoNewFin(c, AckPart(c, seg, now))
  {
    hide SeqLT, SeqLE, SeqGT, SeqGE, Sub32, Add32, TrimFront, Next, ResendConn;
    MuteResend(c.(ledger := Next(c.ledger, DupAck(Flight(c), c.v.sndNxt))));
  }

  lemma MuteInput(c: Conn, seg: InSegment, peerFin: bool, now: nat)
    requires Mute(c)
    ensures Mute(InputConn(c, seg, peerFin, now)) && NoNewFin(c, InputConn(c, seg, peerFin, now))
  {
    hide AckPart, SeqLT, SeqLE;
    MuteAck(c, seg, now);
  }

  lemma MuteData(c: Conn, now: nat, slots: nat)
    requires Mute(c)
    ensures Mute(DataTimeout(c, now, slots)) && NoNewFin(c, DataTimeout(c, now, slots))
  {
    hide Sub32, Next;
  }

  lemma MutePersist(c: Conn, now: nat, slots: nat)
    requires Mute(c)
    ensures Mute(PersistTimeout(c, now, slots)) && NoNewFin(c, PersistTimeout(c, now, slots))
  {
    hide Sub32;
  }

  lemma NoNewFinTrans(b: Conn, c: Conn, d: Conn)
    requires NoNewFin(b, c) && NoNewFin(c, d)
    ensures NoNewFin(b, d)
  {
    assert d.wire[..|b.wire|] == d.wire[..|c.wire|][..|b.wire|];
    forall i | |b.wire| <= i < |d.wire|
      ensures !d.wire[i].fin
    {
      if i < |c.wire| {
        assert d.wire[i] == d.wire[..|c.wire|][i];
      }
    }
  }

  lemma MuteStep(c: Conn, op: Op)
    requires Mute(c)
    ensures Mute(Apply(c, op)) && NoNewFin(c, Apply(c, op))
  {
    hide InputConn, DataTimeout, PersistTimeout, Sub32, Add32;
    match op {
      case OpInput(seg, peerFin, now) => MuteInput(c, seg, peerFin, now);
      case OpTick(now, slots) =>
        MuteData(c, now, slots);
        var d := DataTimeout(c, now, slots);
        MutePersist(d, now, slots - Min(slots, |d.wire| - |c.wire|));
        NoNewFinTrans(c, d, PersistTimeout(d, now, slots - Min(slots, |d.wire| - |c.wire|)));
      case _ =>
    }
  }

  /** No later run, whatever the calls, segments and timeouts, ever sends a FIN. */
  lemma {:induction false} MuteForever(c: Conn, ops: seq<Op>)
    requires Mute(c)
    ensures Mute(Run(c, ops)) && NoNewFin(c, Run(c, ops))
    decreases |ops|
  {
    hide Apply, Mute;
    if ops != [] {
      var b := Run(c, ops[..|ops| - 1]);
      MuteForever(c, ops[..|ops| - 1]);
      MuteStep(b, ops[|ops| - 1]);
      NoNewFinTrans(c, b, Run(c, ops));
    }
  }

  /** A send, a close, the peer's FIN before the close has drained: mute, with the byte still unsent. */
  function GiveUp(b: Conn, x: byte, now: nat): seq<Op> {
    [OpSend([x]), OpClose(now), OpInput(PeerFin(b), true, now), OpDrainBegin, OpDrain(now, true), OpFinish(now)]
  }

  lemma MuteReached(iss: u32, window: u16, wl1: u32, x: byte, now: nat)
    ensures var b := Fresh(iss, window, wl1);
            var c := Run(b, GiveUp(b, x, now));
            Mute(c) && c.state.CloseWait? && c.wire == [] && c.v.stream == [x] && !c.flags.reset
  {
    var b := Fresh(iss, window, wl1);
    SendClosed(iss, window, wl1, x, now);
    hide SendConn, InputConn, DrainStep, CloseBegin, FinishStep, Fresh, Run;
    var ops := GiveUp(b, x, now);
    Unfold(b, ops);
    var f := CloseBegin(SendConn(b, [x]), now);
    PeerFinStep(f, now);
    var d := InputConn(f, PeerFin(f), true, now);
    DrainClosed(d.SetDraining(true), now);
    MovedOn(DrainStep(d.SetDraining(true), now, true).0, now);
  }

  lemma SendClosed(iss: u32, window: u16, wl1: u32, x: byte, now: nat)
    ensures var b := Fresh(iss, window, wl1);
            var f := CloseBegin(SendConn(b, [x]), now);
            && f.state.Established? && f.closer == Closing(Established) && f.v.stream == [x] && f.v.unsent != []
            && f.flags == Flags(true, false, false, false, false) && f.wire == [] && !f.v.finSent
            && f.v.sndUna == b.v.sndUna
  {
    hide SeqAt;
  }

  lemma DrainClosed(c: Conn, now: nat)
    requires c.v.unsent != [] && c.state.Open() && !c.flags.reset && c.peer.wnd == 0
    ensures var d := DrainStep(c, now, true).0;
            d.v == c.v && d.state == c.state && d.flags == c.flags.(draining := false) && d.closer == c.closer &&
            d.wire == c.wire
  {}

  lemma MovedOn(c: Conn, now: nat)
    requires c.closer == Closing(Established) && c.state.CloseWait?
    ensures FinishStep(c, now) == c.(closer := Idle)
  {}

  lemma Unfold(c: Conn, ops: seq<Op>)
    requires |ops| == 6
    ensures Run(c, ops[..5]) == Apply(Apply(Apply(Apply(Apply(c, ops[0]), ops[1]), ops[2]), ops[3]), ops[4])
    ensures Run(c, ops) == Apply(Run(c, ops[..5]), ops[5])
  {
    hide Apply;
    RunTo(c, ops, 0);
    RunTo(c, ops, 1);
    RunTo(c, ops, 2);
    RunTo(c, ops, 3);
    RunTo(c, ops, 4);
    RunTo(c, ops, 5);
    assert ops[..6] == ops;
  }

  lemma RunTo(c: Conn, ops: seq<Op>, i: nat)
    requires i < |ops|
    ensures Run(c, ops[..i + 1]) == Apply(Run(c, ops[..i]), ops[i])
  {
    RunNext(c, ops[..i], ops[i]);
    assert ops[..i + 1] == ops[..i] + [ops[i]];
  }

  // ---- queues that are never trimmed ----

  predicate HalfClosed(c: Conn) { c.state.CloseWait? || c.state.LastAck? }

  /** Nothing has been acknowledged from c to d, and what was outstanding still is. */
  ghost predicate Untrimmed(c: Conn, d: Conn) {
    d.v.una == c.v.una && d.v.sndUna == c.v.sndUna && c.v.unacked <= d.v.unacked
  }

  lemma HalfClosedStep(c: Conn, op: Op)
    requires HalfClosed(c) && HalfClosed(Apply(c, op))
    ensures Untrimmed(c, Apply(c, op))
  {
    hide Sub32, Add32, Next, SeqGE;
  }

  /** Over every run that stays in CLOSE_WAIT and LAST_ACK, whatever the peer acknowledges. */
  lemma {:induction false} NeverTrimmed(c: Conn, ops: seq<Op>)
    requires forall k :: 0 <= k <= |ops| ==> HalfClosed(Run(c, ops[..k]))
    ensures Untrimmed(c, Run(c, ops))
    decreases |ops|
  {
    hide Apply, HalfClosed;
    assert ops[..|ops|] == ops;
    if ops != [] {
      var prefix := ops[..|ops| - 1];
      forall k | 0 <= k <= |prefix|
        ensures HalfClosed(Run(c, prefix[..k]))
      {
        assert prefix[..k] == ops[..k];
      }
      NeverTrimmed(c, prefix);
      HalfClosedStep(Run(c, prefix), ops[|ops| - 1]);
    }
  }

  /** So from the peer's FIN on a connection takes no more bytes than the buffer holds, however much is acknowledged. */
  lemma HalfClosedLimit(iss: u32, c: Conn, ops: seq<Op>)
    requires Inv(iss, c) && forall k :: 0 <= k <= |ops| ==> HalfClosed(Run(c, ops[..k]))
    ensures Run(c, ops).flags.reset || |Run(c, ops).v.stream| <= c.v.una + TX_CAPACITY
  {
    hide Inv, HalfClosed, Apply;
    NeverTrimmed(c, ops);
    RunKeeps(iss, c, ops);
    var d := Run(c, ops);
    if !d.flags.reset {
      InvParts(iss, d);
      BufferBound(iss, d);
    }
  }

  lemma BufferBound(iss: u32, c: Conn)
    requires ConnInv(iss, c) && !c.flags.reset
    ensures |c.v.stream| <= c.v.una + TX_CAPACITY
  {
    hide WireOk, FinsOk, LifeOk, Contiguous, Payloads, AllWhole, SeqAt;
  }

  // ---- a shutdown that outlives its connection ----

  /** A reset connection leaves CLOSED exactly when a shutdown was draining, and then it sends a FIN from LAST_ACK. */
  lemma ResetRevives(iss: u32, c: Conn, op: Op)
    requires Inv(iss, c) && c.flags.reset && c.state.Closed?
    ensures var d := Apply(c, op);
            && (d.state != Closed <==> op.OpFinish? && c.closer.Shutting? && !c.flags.finPending)
            && (d.state != Closed ==> d.state.LastAck? && d.flags.reset && d.timers.armed &&
                                      |d.wire| == |c.wire| + 1 && d.wire[|c.wire|].fin)
  {
    hide Sub32, Add32, Next, WireOk, LedgerOk;
  }

  /** A send, a shutdown, a reset while it drains: LAST_ACK, reset, with a FIN on the wire. */
  lemma RevivedReached(iss: u32, window: u16, wl1: u32, x: byte, now: nat)
    ensures var ops := [OpSend([x]), OpShutdown(now), OpInput(PeerReset(), false, now), OpDrainBegin,
                        OpDrain(now, true), OpFinish(now)];
            var c := Run(Fresh(iss, window, wl1), ops);
            c.state.LastAck? && c.flags.reset && |c.wire| == 1 && c.wire[0].fin
  {
    var b := Fresh(iss, window, wl1);
    ShutdownDraining(iss, window, wl1, x, now);
    hide SendConn, DrainStep, ShutdownBegin, FinishStep, Fresh, Run;
    var ops := [OpSend([x]), OpShutdown(now), OpInput(PeerReset(), false, now), OpDrainBegin,
                OpDrain(now, true), OpFinish(now)];
    Unfold(b, ops);
    var f := ShutdownBegin(SendConn(b, [x]), now);
    var d := ResetConn(f).SetDraining(true);
    DrainNothing(d, now);
    FreshInv(iss, window, wl1);
    RunKeeps(iss, b, ops[..5]);
    ResetRevives(iss, DrainStep(d, now, true).0, OpFinish(now));
  }

  lemma ShutdownDraining(iss: u32, window: u16, wl1: u32, x: byte, now: nat)
    ensures var f := ShutdownBegin(SendConn(Fresh(iss, window, wl1), [x]), now);
            f.state.Established? && f.closer.Shutting? && f.flags == Flags(true, false, false, false, false) &&
            f.wire == []
  {
    hide SeqAt;
  }

  lemma DrainNothing(c: Conn, now: nat)
    requires c.v.unsent == [] && !c.flags.finPending
    ensures DrainStep(c, now, true).0 == c.SetDraining(false)
  {}

  // ---- a FIN that is never sent again ----

  /** All data is acknowledged, the FIN is not, and no timer is running. */
  ghost predicate Stalled(iss: u32, c: Conn) {
    && Inv(iss, c) && c.state.FinWait1? && !c.timers.armed && c.v.una == |c.v.stream| && c.v.nxt == c.v.una + 1
    && c.v.unsent == []
  }

  /**
   * In FIN_WAIT1, an acknowledgement short of the FIN stops the retransmission timer exactly when it confirms all
   * the data; the FIN is then outstanding with no timer.
   */
  lemma TimerStops(iss: u32, c: Conn, seg: InSegment, peerFin: bool, now: nat)
    requires Inv(iss, c) && c.state.FinWait1? && c.timers.armed && !seg.rst && seg.hasAck
    requires !SeqGE(seg.ack, c.v.sndNxt)
    ensures var d := InputConn(c, seg, peerFin, now);
            && (!d.timers.armed <==> IsNewAck(c, seg.ack) && c.v.una + Sub32(seg.ack, c.v.sndUna) == |c.v.stream|)
            && (!d.timers.armed ==> Stalled(iss, d))
  {
    StillWaiting(iss, c, seg, peerFin, now);
    hide Stalled, SendInv, LedgerOk, Next, SeqGE, SeqGT, Sub32, Add32, WireOk, FinsOk, TrimFront, React;
    EstablishedIsLive(iss, c);
    NewAckMeans(iss, c, seg.ack);
    ConnMeans(iss, c);
    if IsNewAck(c, seg.ack) {
      NewAckExactly(iss, c.v.una, c.v.nxt, seg.ack);
      SelfGE(seg.ack);
      TrimmedEmpty(iss, c, Sub32(seg.ack, c.v.sndUna));
    }
  }

  lemma StillWaiting(iss: u32, c: Conn, seg: InSegment, peerFin: bool, now: nat)
    requires Inv(iss, c) && c.state.FinWait1? && !seg.rst && seg.hasAck && !SeqGE(seg.ack, c.v.sndNxt)
    ensures var d := InputConn(c, seg, peerFin, now);
            !d.timers.armed && d.v.una == |d.v.stream| ==> Stalled(iss, d)
  {
    hide SendInv, LedgerOk, Next, SeqGE, SeqGT, Sub32, Add32, WireOk, FinsOk, TrimFront;
    InputKeeps(iss, c, seg, peerFin, now);
    var d := InputConn(c, seg, peerFin, now);
    FinWaitFacts(iss, d);
    ConnMeans(iss, d);
    UnsentEmpty(iss, d.v);
  }

  /** The queue is empty after an acknowledgement of k positions exactly when it reaches the end of the stream. */
  lemma TrimmedEmpty(iss: u32, c: Conn, k: nat)
    requires ConnInv(iss, c) && !c.flags.reset && c.v.una + k <= c.v.nxt && c.v.finSent
    ensures Acknowledge(c.v, k).unacked == [] <==> c.v.una + k >= |c.v.stream|
  {
    hide WireOk, FinsOk, LifeOk, TrimFront, Add32;
    AcknowledgeKeeps(iss, c.v, k);
    var w := Acknowledge(c.v, k);
    hide SeqAt, Contiguous;
    if w.unacked != [] {
      PayloadsHead(w.unacked);
    } else {
      PayloadsNone();
    }
  }

  lemma StalledStep(iss: u32, c: Conn, op: Op)
    requires Stalled(iss, c) && Apply(c, op).state.FinWait1?
    ensures Stalled(iss, Apply(c, op)) && Apply(c, op).wire == c.wire
  {
    hide Inv, Sub32, Next, SeqGE, SeqGT;
    ApplyKeeps(iss, c, op);
    FinWaitFacts(iss, c);
    if op.OpInput? {
      NewAckMeans(iss, c, op.seg.ack);
      AckOfFin(iss, c, op.seg.ack);
    }
  }

  lemma FinWaitFacts(iss: u32, c: Conn)
    requires Inv(iss, c) && c.state.FinWait1?
    ensures ConnInv(iss, c) && !c.flags.reset && c.v.finSent && !c.flags.finPending && c.flags.shutWr
    ensures c.closer == Idle
  {
    hide SendInv, WireOk, FinsOk, LedgerOk;
  }

  /** With one number outstanding, the only new acknowledgement is SND.NXT. */
  lemma AckOfFin(iss: u32, c: Conn, ack: u32)
    requires ConnInv(iss, c) && !c.flags.reset && c.v.nxt == c.v.una + 1
    ensures IsNewAck(c, ack) ==> SeqGE(ack, c.v.sndNxt)
  {
    hide WireOk, FinsOk, LifeOk, Contiguous, Payloads, AllWhole, SeqAt, Sub32;
    NewAckMeans(iss, c, ack);
    ConnMeans(iss, c);
    NewAckExactly(iss, c.v.una, c.v.nxt, ack);
    Trichotomy(ack, c.v.sndNxt);
    SelfGE(ack);
  }

  lemma SelfGE(x: u32)
    ensures SeqGE(x, x)
  {}

  /** However long it runs, a stalled connection that is not acknowledged stays so and sends nothing: no FIN again. */
  lemma {:induction false} FinNeverResent(iss: u32, c: Conn, ops: seq<Op>)
    requires Stalled(iss, c) && forall k :: 0 <= k <= |ops| ==> Run(c, ops[..k]).state.FinWait1?
    ensures Stalled(iss, Run(c, ops)) && Run(c, ops).wire == c.wire
    decreases |ops|
  {
    hide Apply, Stalled;
    assert ops[..|ops|] == ops;
    if ops != [] {
      var prefix := ops[..|ops| - 1];
      forall k | 0 <= k <= |prefix|
        ensures Run(c, prefix[..k]).state.FinWait1?
      {
        assert prefix[..k] == ops[..k];
      }
      FinNeverResent(iss, c, prefix);
      StalledStep(iss, Run(c, prefix), ops[|ops| - 1]);
    }
  }

  /** A byte sent, a close, and the acknowledgement of the byte alone. */
  function ShortOfFin(iss: u32, x: byte, now: nat): seq<Op> {
    [OpSend([x]), OpDrainBegin, OpDrain(now, true), OpDrain(now, true), OpClose(now),
     OpInput(Bare(SeqAt(iss, 1)), false, now)]
  }

  lemma StalledReached(iss: u32, wl1: u32, x: byte, now: nat)
    ensures Stalled(iss, Run(Fresh(iss, 1000, wl1), ShortOfFin(iss, x, now)))
  {
    hide Run, Stalled, Fresh, Inv, SeqAt, InputConn, Sub32, SeqGE, SeqGT, ShortOfFin;
    var ops := ShortOfFin(iss, x, now);
    BeforeAck(iss, wl1, x, now);
    var c := Run(Fresh(iss, 1000, wl1), ops[..5]);
    FinWaitFacts(iss, c);
    ConnMeans(iss, c);
    ComparisonsAgree(iss, 1, 2);
    ComparisonsAgree(iss, 1, 0);
    SeqAtDistance(iss, 1, 0);
    TimerStops(iss, c, Bare(SeqAt(iss, 1)), false, now);
  }

  lemma BeforeAck(iss: u32, wl1: u32, x: byte, now: nat)
    ensures var b, ops := Fresh(iss, 1000, wl1), ShortOfFin(iss, x, now);
            var c := Run(b, ops[..5]);
            && |ops| == 6 && Run(b, ops) == InputConn(c, Bare(SeqAt(iss, 1)), false, now) && Inv(iss, c)
            && c.state.FinWait1? && c.v.stream == [x] && c.v.una == 0 && c.v.nxt == 2 && c.timers.armed
  {
    hide Run, Fresh, Inv, SeqAt, InputConn, SendConn, DrainStep, CloseBegin;
    var b, ops := Fresh(iss, 1000, wl1), ShortOfFin(iss, x, now);
    Unfold(b, ops);
    FreshInv(iss, 1000, wl1);
    RunKeeps(iss, b, ops[..5]);
    SentAndClosed(iss, wl1, x, now);
  }

  lemma SentAndClosed(iss: u32, wl1: u32, x: byte, now: nat)
    ensures var a := SendConn(Fresh(iss, 1000, wl1), [x]).SetDraining(true);
            var c := CloseBegin(DrainStep(DrainStep(a, now, true).0, now, true).0, now);
            c.state.FinWait1? && c.v.stream == [x] && c.v.una == 0 && c.v.nxt == 2 && c.timers.armed
  {
    hide SeqAt;
    var a := SendConn(Fresh(iss, 1000, wl1), [x]).SetDraining(true);
    assert Flight(a) == 0 && a.v.unsent != [] && NextLength(a) == 1;
    hide Sub32, Add32;
  }
}
