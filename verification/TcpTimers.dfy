// Deadlines over whole runs: an armed timer comes due within 1000 ticks of the last event, so lost data is sent
// again however the run went, and a window that stays shut is probed ten times.
module TcpTimers {
  import opened Basics
  import opened SeqArith
  import opened Congestion
  import opened TcpStream
  import opened TcpConn
  import opened TcpSteps
  import opened TcpProgress

  /** An armed timer runs out, and not later than 1000 ticks after `t`. */
  ghost predicate Within(m: Timers, t: nat) {
    && 100 <= m.rto <= 1000 && 100 <= m.interval <= 1000
    && (m.armed ==> 0 < m.deadline <= t + 1000)
    && (m.persist ==> 0 < m.probeAt <= t + 1000)
    && m.probes <= MAX_PERSIST_PROBES
  }

  /** The step happens at time t or before. */
  predicate By(op: Op, t: nat) {
    match op
    case OpSend(_) | OpDrainBegin => true
    case OpDrain(now, _) => now <= t
    case OpInput(_, _, now) => now <= t
    case OpTick(now, _) => now <= t
    case OpClose(now) => now <= t
    case OpShutdown(now) => now <= t
    case OpFinish(now) => now <= t
  }

  lemma AckWithin(c: Conn, seg: InSegment, now: nat, t: nat)
    requires Within(c.timers, t) && now <= t
    ensures Within(AckPart(c, seg, now).timers, t) && Within(FinWait1Ack(c, seg, now).timers, t)
  {
    hide SeqGT, SeqGE, SeqLT, Sub32, Acknowledge, Next;
  }

  lemma InputWithin(c: Conn, seg: InSegment, peerFin: bool, now: nat, t: nat)
    requires Within(c.timers, t) && now <= t
    ensures Within(InputConn(c, seg, peerFin, now).timers, t)
  {
    hide SeqGE, SeqLT, SeqLE, AckPart, FinWait1Ack;
    AckWithin(c, seg, now, t);
  }

  lemma TickWithin(c: Conn, now: nat, slots: nat, t: nat)
    requires Within(c.timers, t) && now <= t
    ensures Within(TickConn(c, now, slots).timers, t)
  {
    hide DataTimeout, PersistTimeout, FinTimeout, Within;
    DataWithin(c, now, slots, t);
    OthersWithin(c, now, slots, t);
    var d := DataTimeout(c, now, slots);
    OthersWithin(d, now, slots - Min(slots, |d.wire| - |c.wire|), t);
    NoneWithin(t);
  }

  lemma NoneWithin(t: nat)
    ensures Within(NO_TIMERS, t)
  {}

  lemma DataWithin(c: Conn, now: nat, slots: nat, t: nat)
    requires Within(c.timers, t) && now <= t
    ensures Within(DataTimeout(c, now, slots).timers, t)
  {
    hide Sub32, Next;
  }

  lemma OthersWithin(c: Conn, now: nat, slots: nat, t: nat)
    requires Within(c.timers, t) && now <= t
    ensures Within(PersistTimeout(c, now, slots).timers, t)
    ensures Within(FinTimeout(c, now, slots).timers, t)
  {
    hide Sub32, Next;
  }

  lemma StepWithin(c: Conn, op: Op, t: nat)
    requires Within(c.timers, t) && By(op, t)
    ensures Within(Apply(c, op).timers, t)
  {
    hide InputConn, TickConn, Sub32, Transmit, Finish, Within;
    match op {
      case OpInput(seg, peerFin, now) => InputWithin(c, seg, peerFin, now, t);
      case OpTick(now, slots) => TickWithin(c, now, slots, t);
      case OpDrain(now, allocOk) => DrainWithin(c, now, allocOk, t);
      case OpClose(now) => FinWithin(c, now, t);
      case OpShutdown(now) => FinWithin(c, now, t);
      case OpFinish(now) => FinWithin(c, now, t);
      case _ =>
    }
  }

  lemma FinWithin(c: Conn, now: nat, t: nat)
    requires Within(c.timers, t) && now <= t
    ensures Within(c.timers.Start(now), t)
  {}

  lemma DrainWithin(c: Conn, now: nat, allocOk: bool, t: nat)
    requires Within(c.timers, t) && now <= t
    ensures Within(DrainStep(c, now, allocOk).0.timers, t)
  {
    hide Sub32, Transmit, Finish;
  }

  lemma {:induction false} RunWithin(c: Conn, ops: seq<Op>, t: nat)
    requires Within(c.timers, t) && forall i :: 0 <= i < |ops| ==> By(ops[i], t)
    ensures Within(Run(c, ops).timers, t)
    decreases |ops|
  {
    if ops != [] {
      hide Apply, Within, By;
      RunWithin(c, ops[..|ops| - 1], t);
      StepWithin(Run(c, ops[..|ops| - 1]), ops[|ops| - 1], t);
    }
  }

  /**
   * Whatever the run did up to time t: if data is unacknowledged, the tick at t + 1000 or later sends the oldest of it
   * again, or after five tries gives the connection up.
   */
  lemma ResendTheorem(iss: u32, window: u16, wl1: u32, ops: seq<Op>, t: nat, now: nat, slots: nat)
    requires (forall i :: 0 <= i < |ops| ==> By(ops[i], t)) && now >= t + 1000 && slots > 0
    requires var c := Run(Fresh(iss, window, wl1), ops);
             !c.flags.reset && c.v.unacked != [] && (c.state.Open() || c.state.FinWait1? || c.state.LastAck?)
    ensures var c := Run(Fresh(iss, window, wl1), ops);
            var d := Apply(c, OpTick(now, slots));
            if c.timers.retries < MAX_DATA_RETRIES then SentAgain(iss, c, d) && d.v == c.v else d.state.Closed?
  {
    hide Apply, By, SentAgain, SendInv, WireOk, FinsOk, LedgerOk;
    FreshInv(iss, window, wl1);
    RunKeeps(iss, Fresh(iss, window, wl1), ops);
    RunWithin(Fresh(iss, window, wl1), ops, t);
    var c := Run(Fresh(iss, window, wl1), ops);
    if c.state.Open() {
      TimeoutResends(iss, c, now, slots);
      if c.timers.retries >= MAX_DATA_RETRIES {
        ResetIsClosed(iss, c, now, slots);
      }
    } else {
      TeardownResends(iss, c, now, slots);
    }
  }

  lemma ResetIsClosed(iss: u32, c: Conn, now: nat, slots: nat)
    requires Inv(iss, c) && c.state.Open() && Apply(c, OpTick(now, slots)).flags.reset
    ensures Apply(c, OpTick(now, slots)).state.Closed?
  {
    hide SendInv, WireOk, FinsOk, LedgerOk, Sub32, Next;
    EstablishedIsLive(iss, c);
  }

  // ---- the persist timer ----

  /** A drain that meets a shut window starts the persist timer, unless it already runs. */
  lemma ShutWindowArms(c: Conn, now: nat, allocOk: bool)
    requires c.v.unsent != [] && c.state.Open() && !c.flags.reset && c.peer.wnd == 0
    ensures var d := Apply(c, OpDrain(now, allocOk));
            && d.timers.persist && (!c.timers.persist ==> d.timers.probeAt == now + 100 && d.timers.probes == 0)
            && !DrainStep(c, now, allocOk).1 && d.v == c.v && d.peer == c.peer && d.wire == c.wire
  {
    hide Sub32;
  }

  /** Nothing in flight, data waiting and the peer's window shut. */
  predicate Shut(c: Conn) {
    && c.state.Open() && !c.flags.reset && c.v.unsent != [] && c.v.unacked == [] && c.peer.wnd == 0
  }

  /**
   * Whatever the run did up to time t: while the window is shut, the tick at t + 1000 or later sends an empty segment
   * with the number before SND.NXT; the eleventh time it turns the timer off instead.
   */
  lemma ProbeTheorem(iss: u32, window: u16, wl1: u32, ops: seq<Op>, t: nat, now: nat, slots: nat)
    requires (forall i :: 0 <= i < |ops| ==> By(ops[i], t)) && now >= t + 1000 && slots > 0
    requires var c := Run(Fresh(iss, window, wl1), ops);
             Shut(c) && c.timers.persist
    ensures var c := Run(Fresh(iss, window, wl1), ops);
            var d := Apply(c, OpTick(now, slots));
            && d.v == c.v && Shut(d)
            && (if c.timers.probes < MAX_PERSIST_PROBES
                then |d.wire| == |c.wire| + 1 && d.wire[..|c.wire|] == c.wire && d.wire[|c.wire|].payload == []
                     && !d.wire[|c.wire|].fin && Add32(d.wire[|c.wire|].sequence, 1) == SeqAt(iss, c.v.nxt)
                     && d.timers.persist && d.timers.probes == c.timers.probes + 1
                     && d.timers.probeAt == now + Min(2 * c.timers.interval, 1000)
                else d.wire == c.wire && !d.timers.persist)
  {
    hide By, SendInv, WireOk, FinsOk, LedgerOk, Sub32, Add32, SeqAt;
    FreshInv(iss, window, wl1);
    RunKeeps(iss, Fresh(iss, window, wl1), ops);
    RunWithin(Fresh(iss, window, wl1), ops, t);
    var c := Run(Fresh(iss, window, wl1), ops);
    BeforeNxt(iss, c);
    hide Run;
  }

  lemma BeforeNxt(iss: u32, c: Conn)
    requires ConnInv(iss, c) && !c.flags.reset
    ensures Add32(Sub32(c.v.sndNxt, 1), 1) == SeqAt(iss, c.v.nxt)
  {
    hide WireOk, FinsOk, LifeOk, SeqAt;
    StreamConserved(iss, c.v);
    AddSub32(c.v.sndNxt, 1);
  }

  /** After that no number of ticks sends anything. */
  lemma {:induction false} ProbesStop(c: Conn, ops: seq<Op>)
    requires Shut(c) && !c.timers.persist && !c.timers.armed && forall i :: 0 <= i < |ops| ==> ops[i].OpTick?
    ensures Run(c, ops) == c
    decreases |ops|
  {
    hide Sub32, Next;
    if ops != [] {
      ProbesStop(c, ops[..|ops| - 1]);
    }
  }

  /** A byte sent into a shut window, the drain that finds it shut, and n ticks 1000 apart. */
  function Waiting(x: byte, n: nat): seq<Op> {
    if n == 0 then [OpSend([x]), OpDrain(0, true)] else Waiting(x, n - 1) + [OpTick(1000 * n, 1)]
  }

  ghost predicate Probed(c: Conn, n: nat) {
    && Shut(c) && !c.timers.armed && c.timers.persist && c.timers.probes == n <= MAX_PERSIST_PROBES
    && 0 < c.timers.probeAt <= 1000 * (n + 1) && c.timers.interval <= 1000
  }

  lemma WaitStarts(iss: u32, wl1: u32, x: byte)
    ensures Probed(Run(Fresh(iss, 0, wl1), Waiting(x, 0)), 0)
  {
    var c := Fresh(iss, 0, wl1);
    var ops := Waiting(x, 0);
    assert ops[..1] == [OpSend([x])] && ops[..0] == [];
    assert Run(c, ops[..1]) == SendConn(c, [x]);
    hide Sub32, SeqAt;
  }

  lemma WaitTick(c: Conn, n: nat)
    requires Probed(c, n)
    ensures var d := Apply(c, OpTick(1000 * (n + 1), 1));
            if n < MAX_PERSIST_PROBES then Probed(d, n + 1) else Shut(d) && !d.timers.persist && !d.timers.armed
  {
    hide Sub32, Next;
  }

  lemma OneMore(c: Conn, ops: seq<Op>, op: Op)
    ensures Run(c, ops + [op]) == Apply(Run(c, ops), op)
  {
    hide Apply;
    assert (ops + [op])[..|ops|] == ops;
  }

  lemma {:induction false} WaitProbes(iss: u32, wl1: u32, x: byte, n: nat)
    requires n <= MAX_PERSIST_PROBES
    ensures Probed(Run(Fresh(iss, 0, wl1), Waiting(x, n)), n)
  {
    hide Apply, Probed, Fresh, Run;
    if n == 0 {
      WaitStarts(iss, wl1, x);
    } else {
      WaitProbes(iss, wl1, x, n - 1);
      WaitTick(Run(Fresh(iss, 0, wl1), Waiting(x, n - 1)), n - 1);
      OneMore(Fresh(iss, 0, wl1), Waiting(x, n - 1), OpTick(1000 * n, 1));
    }
  }

  /** The run: one byte into a shut window and eleven ticks, and the connection is silent for ever. */
  lemma SilenceReached(iss: u32, wl1: u32, x: byte, ops: seq<Op>)
    requires forall i :: 0 <= i < |ops| ==> ops[i].OpTick?
    ensures var c := Run(Fresh(iss, 0, wl1), Waiting(x, MAX_PERSIST_PROBES + 1));
            Shut(c) && Run(c, ops) == c
  {
    hide Apply, Probed, Fresh, Run;
    var n := MAX_PERSIST_PROBES;
    WaitProbes(iss, wl1, x, n);
    WaitTick(Run(Fresh(iss, 0, wl1), Waiting(x, n)), n);
    OneMore(Fresh(iss, 0, wl1), Waiting(x, n), OpTick(1000 * (n + 1), 1));
    ProbesStop(Run(Fresh(iss, 0, wl1), Waiting(x, n + 1)), ops);
  }
}
