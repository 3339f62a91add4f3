// Every critical section that can touch the send side of a connection, as a step on its state, and what
// holds after any interleaving of them.
module TcpSteps {
  import opened Basics
  import opened SeqArith
  import opened Congestion
  import opened TcpStream
  import opened TcpConn

  /** The header fields and payload of a received segment. */
  datatype InSegment = InSegment(sequence: u32, ack: u32, window: u16,
                                 hasAck: bool, syn: bool, fin: bool, rst: bool, payload: seq<byte>)

  // ---- tcp_drain_unsent, one iteration ----

  /** Bytes in flight, by 32-bit difference. */
  function Flight(c: Conn): u32 { Sub32(c.v.sndNxt, c.v.sndUna) }

  /** The effective window: the peer's window or the congestion window, whichever is smaller. */
  function Window(c: Conn): nat { Min(c.peer.wnd, c.ledger.cc.cwnd) }

  function Room(c: Conn): nat { Max(Window(c) - Flight(c), 0) }

  function NextLength(c: Conn): nat
    requires c.v.unsent != []
  {
    Min(Min(c.v.unsent[0].length, Room(c)), MSS)
  }

  /** What one iteration of the drain loop does, and whether the loop goes on. */
  function DrainStep(c: Conn, now: nat, allocOk: bool): (Conn, bool) {
    if c.v.unsent == [] then
      if c.flags.finPending then
        var next := if c.state.Established? then FinWait1 else if c.state.CloseWait? then LastAck else c.state;
        (FinConn(c, next, now).SetDraining(false), false)
      else
        (c.SetDraining(false), false)
    else if !c.state.Open() || c.flags.reset then
      (c.SetDraining(false), false)
    else if Room(c) == 0 then
      var t := if c.peer.wnd == 0 && !c.timers.persist then c.timers.StartPersist(now) else c.timers;
      (c.(timers := t).SetDraining(false), false)
    else if NextLength(c) < c.v.unsent[0].length && !allocOk then
      (c.SetDraining(false), false)
    else
      (TransmitConn(c, NextLength(c), now), true)
  }

  // ---- tcp_input ----

  /** A duplicate acknowledgement in the sense of section 2 of RFC 5681. */
  predicate IsDupAck(c: Conn, seg: InSegment) {
    && c.v.unacked != []
    && SeqLT(c.v.sndUna, c.v.sndNxt)
    && seg.payload == [] && !seg.syn && !seg.fin && !seg.rst
    && seg.ack == c.v.sndUna
    && seg.window == c.peer.wnd
  }

  /** The third duplicate also resends the oldest segment and restarts the timer. */
  function DupAckConn(c: Conn, now: nat): Conn {
    var d := c.(ledger := Next(c.ledger, DupAck(Flight(c), c.v.sndNxt)));
    if !c.ledger.cc.recovery && d.ledger.cc.recovery then
      var r := ResendConn(d);
      r.(timers := r.timers.Start(now))
    else
      d
  }

  predicate NewerWindow(c: Conn, seg: InSegment) {
    || seg.window != c.peer.wnd
    || SeqLT(c.peer.wl1, seg.sequence)
    || (c.peer.wl1 == seg.sequence && SeqLE(c.peer.wl2, seg.ack))
  }

  function WindowConn(c: Conn, seg: InSegment): Conn {
    if !NewerWindow(c, seg) then c else
    c.(peer := PeerWindow(seg.window, seg.sequence, seg.ack),
       timers := if seg.window > 0 && c.timers.persist
                 then c.timers.(persist := false, interval := 100, probeAt := 0, probes := 0) else c.timers)
  }

  /** SND.UNA < ack <= SND.NXT by the signed-difference tests. */
  predicate IsNewAck(c: Conn, ack: u32) {
    !SeqGT(ack, c.v.sndNxt) && SeqGT(ack, c.v.sndUna)
  }

  /** How many positions an acknowledgement confirms; 0 when it is old or beyond SND.NXT. */
  function Confirmed(c: Conn, ack: u32): nat {
    if IsNewAck(c, ack) then Sub32(ack, c.v.sndUna) else 0
  }

  /** tcp_tx_ack_received without its window growth. */
  function AckResult(c: Conn, ack: u32, now: nat): Conn {
    if IsNewAck(c, ack) then AckConn(c, Sub32(ack, c.v.sndUna), now) else c
  }

  /** The acknowledgement number of a segment in ESTABLISHED: beyond SND.NXT, new, duplicate or old. */
  function AckPart(c: Conn, seg: InSegment, now: nat): Conn {
    var k := Sub32(seg.ack, c.v.sndUna);
    if SeqGT(seg.ack, c.v.sndNxt) then c
    else if SeqGT(seg.ack, c.v.sndUna) then AckConn(c.(ledger := Next(c.ledger, NewAck(k))), k, now)
    else if IsDupAck(c, seg) then DupAckConn(c, now)
    else c
  }

  function EstablishedAck(c: Conn, seg: InSegment, now: nat): Conn {
    WindowConn(AckPart(c, seg, now), seg)
  }

  /** FIN_WAIT1: acknowledgements still trim the queue; one at or beyond SND.NXT counts as for the FIN. */
  function FinWait1Ack(c: Conn, seg: InSegment, now: nat): Conn {
    var k := Sub32(seg.ack, c.v.sndUna);
    var d := if IsNewAck(c, seg.ack) then AckConn(c.(ledger := Next(c.ledger, FinWaitAck(k))), k, now) else c;
    if SeqGE(seg.ack, c.v.sndNxt) then
      d.(timers := d.timers.(armed := false, deadline := 0, retries := 0))
    else
      d
  }

  /** A received segment; `peerFin` says that its FIN is the next thing the receive side expects. */
  function InputConn(c: Conn, seg: InSegment, peerFin: bool, now: nat): Conn {
    if c.state.Closed? then c
    else if seg.rst then ResetConn(c)
    else match c.state
      case Established =>
        var d := if seg.hasAck then EstablishedAck(c, seg, now) else c;
        if peerFin then d.(flags := d.flags.(eof := true), state := CloseWait) else d
      case FinWait1 =>
        var d := if seg.hasAck then FinWait1Ack(c, seg, now) else c;
        var e := if peerFin then d.(flags := d.flags.(eof := true)) else d;
        if seg.hasAck && SeqGE(seg.ack, c.v.sndNxt) then
          if e.flags.eof then e.(state := TimeWait, timers := e.timers.(timeout := now + 200))
          else e.(state := FinWait2)
        else
          e
      case FinWait2 =>
        if !peerFin then c
        else c.(flags := c.flags.(eof := true), state := TimeWait, timers := c.timers.(timeout := now + 200))
      case LastAck =>
        if seg.hasAck && SeqGE(seg.ack, c.v.sndNxt)
        then c.Expire() else c
      case TimeWait =>
        if seg.fin then c.(timers := c.timers.(timeout := now + 200)) else c
      case _ => c
  }

  // ---- tcp_timer_tick ----

  /** The retransmission timer of an open connection; `slots` is how many deferred packets still fit. */
  function DataTimeout(c: Conn, now: nat, slots: nat): Conn {
    if !c.timers.Due(now) then c
    else if c.v.unacked == [] then c.(timers := c.timers.(armed := false, deadline := 0))
    else if c.timers.retries >= MAX_DATA_RETRIES then ResetConn(c)
    else
      var d := c.(ledger := Next(c.ledger, Timeout(Flight(c), c.timers.retries == 0)),
                  timers := c.timers.Backoff(now));
      if slots > 0 then ResendConn(d) else d
  }

  function PersistTimeout(c: Conn, now: nat, slots: nat): Conn {
    if !c.timers.ProbeDue(now) then c
    else if c.peer.wnd != 0 || c.v.unsent == [] then
      c.(timers := c.timers.(persist := false, probeAt := 0, probes := 0))
    else if c.timers.probes >= MAX_PERSIST_PROBES then
      c.(timers := c.timers.(persist := false, probeAt := 0))
    else
      var d := c.(timers := c.timers.BackoffPersist(now));
      if slots > 0 then d.Emit(Packet(Sub32(c.v.sndNxt, 1), false, []), 0) else d
  }

  /** Teardown: the oldest data is resent while there is any, then the FIN. */
  function FinTimeout(c: Conn, now: nat, slots: nat): Conn {
    if !c.timers.Due(now) then c
    else if c.timers.retries >= MAX_DATA_RETRIES then c.Expire()
    else
      var d := c.(timers := c.timers.Backoff(now));
      if slots == 0 then d else if c.v.unacked != [] then ResendConn(d) else RefinConn(d)
  }

  function TickConn(c: Conn, now: nat, slots: nat): Conn {
    match c.state
    case Established | CloseWait =>
      var d := DataTimeout(c, now, slots);
      if d.flags.reset then d else PersistTimeout(d, now, slots - Min(slots, |d.wire| - |c.wire|))
    case FinWait1 | LastAck => FinTimeout(c, now, slots)
    case TimeWait =>
      if c.timers.timeout != 0 && now >= c.timers.timeout
      then c.Expire() else c
    case _ => c
  }

  // ---- tcp_close and tcp_shutdown ----

  /** After its drain, a close sends the FIN, leaves it pending, or finds the state changed and gives up. */
  function CloseFinish(c: Conn, from: TcpState, now: nat): Conn {
    var d := c.(closer := Idle);
    if c.state != from then d
    else if c.v.unsent != [] then d.(flags := d.flags.(finPending := true))
    else FinConn(d, if from.Established? then FinWait1 else LastAck, now)
  }

  /** A close shuts the write side once; with data unsent it drops the lock to drain first. */
  function CloseBegin(c: Conn, now: nat): Conn {
    if !c.state.Open() || c.flags.shutWr then c
    else if c.v.unsent != [] then c.ShutWrite().(closer := Closing(c.state))
    else CloseFinish(c.ShutWrite(), c.state, now)
  }

  function ShutdownFinish(c: Conn, now: nat): Conn {
    var d := c.(closer := Idle);
    if c.v.unsent != [] then d.(flags := d.flags.(finPending := true))
    else if c.flags.finPending then d
    else FinConn(d, if c.state.Established? then FinWait1 else LastAck, now)
  }

  /** The write half of a shutdown. */
  function ShutdownBegin(c: Conn, now: nat): Conn {
    if c.state.Closed? || c.flags.shutWr then c
    else if !c.state.Open() then c.ShutWrite()
    else if c.v.unsent != [] then c.ShutWrite().(closer := Shutting)
    else ShutdownFinish(c.ShutWrite(), now)
  }

  /** The closing thread takes the lock again after its drain. */
  function FinishStep(c: Conn, now: nat): Conn {
    match c.closer
    case Idle => c
    case Closing(from) => CloseFinish(c, from, now)
    case Shutting => ShutdownFinish(c, now)
  }

  // ---- runs ----

  /** A critical section together with everything it takes from outside: bytes, segments, clock, memory. */
  datatype Op =
    | OpSend(chunk: seq<byte>)
    | OpDrainBegin
    | OpDrain(now: nat, allocOk: bool)
    | OpInput(seg: InSegment, peerFin: bool, now: nat)
    | OpTick(now: nat, slots: nat)
    | OpClose(now: nat)
    | OpShutdown(now: nat)
    | OpFinish(now: nat)

  /** A chunk of n bytes would be accepted. */
  predicate Fits(c: Conn, n: nat) {
    CanSend(c) && 0 < n <= MSS && c.v.unsentBytes + c.v.unackedBytes + n <= TX_CAPACITY
  }

  function SendConn(c: Conn, chunk: seq<byte>): Conn { if Fits(c, |chunk|) then CommitConn(c, chunk) else c }

  function Apply(c: Conn, op: Op): Conn {
    match op
    case OpSend(chunk) => SendConn(c, chunk)
    case OpDrainBegin => c.SetDraining(true)
    case OpDrain(now, allocOk) => DrainStep(c, now, allocOk).0
    case OpInput(seg, peerFin, now) => InputConn(c, seg, peerFin, now)
    case OpTick(now, slots) => TickConn(c, now, slots)
    case OpClose(now) => CloseBegin(c, now)
    case OpShutdown(now) => ShutdownBegin(c, now)
    case OpFinish(now) => FinishStep(c, now)
  }

  function Run(c: Conn, ops: seq<Op>): Conn
    decreases |ops|
  {
    if ops == [] then c else Apply(Run(c, ops[..|ops| - 1]), ops[|ops| - 1])
  }

  /** A connection just established: the SYN is acknowledged and nothing else has been sent. */
  function Fresh(iss: u32, window: u16, wl1: u32): Conn {
    Conn(Send([], 0, 0, false, SeqAt(iss, 0), SeqAt(iss, 0), [], [], 0, 0),
         Established, Flags(false, false, false, false, false), Idle, NO_TIMERS,
         PeerWindow(window, wl1, SeqAt(iss, 0)), Ledger(INITIAL, 0, 0, 0, 0, true), [], [])
  }

  ghost predicate Inv(iss: u32, c: Conn) {
    && ConnInv(iss, c)
    && LedgerOk(c.ledger)
    && (c.state.Established? ==> c.ledger.established)
    && (match c.closer case Closing(from) => from.Open() case _ => true)
    && (c.closer != Idle ==> c.flags.shutWr)
    && (c.flags.finPending ==> c.flags.shutWr)
  }

  lemma FreshInv(iss: u32, window: u16, wl1: u32)
    ensures Inv(iss, Fresh(iss, window, wl1))
  {
    hide SeqAt;
  }

  lemma DrainKeeps(iss: u32, c: Conn, now: nat, allocOk: bool)
    requires Inv(iss, c)
    ensures Inv(iss, DrainStep(c, now, allocOk).0)
  {
    hide SendInv, WireOk, FinsOk, LedgerOk, Transmit, Finish, Slice, Sub32;
    if c.v.unsent == [] {
      if c.flags.finPending {
        var next := if c.state.Established? then FinWait1 else if c.state.CloseWait? then LastAck else c.state;
        FinConnKeeps(iss, c, next, now);
      }
    } else if !c.flags.reset && c.state.Open() && Room(c) > 0 {
      HeadWhole(iss, c);
      TransmitConnKeeps(iss, c, NextLength(c), now);
    }
  }

  /** The signed-difference guards admit exactly the acknowledgements of positions in (una, nxt]. */
  lemma NewAckMeans(iss: u32, c: Conn, ack: u32)
    requires ConnInv(iss, c) && !c.flags.reset
    ensures IsNewAck(c, ack) <==> 0 < Sub32(ack, c.v.sndUna) <= c.v.nxt - c.v.una
    ensures IsNewAck(c, ack) ==> Sub32(ack, c.v.sndUna) <= TX_CAPACITY + 1
    ensures Flight(c) == c.v.nxt - c.v.una <= TX_CAPACITY + 1
  {
    hide ConnInv, SeqAt, Sub32, SeqGT;
    ConnMeans(iss, c);
    NewAckExactly(iss, c.v.una, c.v.nxt, ack);
  }

  lemma NewAckKeeps(iss: u32, c: Conn, e: Event, k: nat, now: nat)
    requires Inv(iss, c) && !c.flags.reset && c.v.una + k <= c.v.nxt && k <= TX_CAPACITY + 1
    requires e == NewAck(k) || (e == FinWaitAck(k) && !c.state.Established?)
    ensures Inv(iss, AckConn(c.(ledger := Next(c.ledger, e)), k, now))
  {
    hide SendInv, WireOk, FinsOk, Acknowledge, LedgerOk, React, Avoiding, Increases;
    NextKeeps(c.ledger, e);
    AckConnKeeps(iss, c.(ledger := Next(c.ledger, e)), k, now);
  }

  lemma DupAckKeeps(iss: u32, c: Conn, now: nat)
    requires Inv(iss, c) && !c.flags.reset
    ensures Inv(iss, DupAckConn(c, now))
  {
    hide SendInv, WireOk, FinsOk, LedgerOk, React, Avoiding, Increases, Sub32;
    NewAckMeans(iss, c, 0);
    NextKeeps(c.ledger, DupAck(Flight(c), c.v.sndNxt));
    ResendConnKeeps(iss, c.(ledger := Next(c.ledger, DupAck(Flight(c), c.v.sndNxt))));
  }

  lemma AckPartKeeps(iss: u32, c: Conn, seg: InSegment, now: nat)
    requires Inv(iss, c) && c.state.Established?
    ensures Inv(iss, AckPart(c, seg, now))
    ensures AckPart(c, seg, now).state.Established?
  {
    hide Inv, ConnInv, SendInv, Sub32, Signed, Acknowledge, Next;
    assert !c.flags.reset by { EstablishedIsLive(iss, c); }
    NewAckMeans(iss, c, seg.ack) by { InvParts(iss, c); }
    if IsNewAck(c, seg.ack) {
      NewAckKeeps(iss, c, NewAck(Sub32(seg.ack, c.v.sndUna)), Sub32(seg.ack, c.v.sndUna), now);
    }
    DupAckKeeps(iss, c, now);
  }

  lemma LedgerIrrelevant(iss: u32, c: Conn, l: Ledger)
    requires ConnInv(iss, c)
    ensures ConnInv(iss, c.(ledger := l))
  {
    hide SendInv, WireOk, FinsOk;
  }

  lemma BackoffKeeps(iss: u32, c: Conn, l: Ledger, now: nat)
    requires ConnInv(iss, c) && c.timers.retries < MAX_DATA_RETRIES
    ensures ConnInv(iss, c.(ledger := l, timers := c.timers.Backoff(now)))
  {
    hide SendInv, WireOk, FinsOk;
  }

  lemma InvParts(iss: u32, c: Conn)
    requires Inv(iss, c)
    ensures ConnInv(iss, c)
  {}

  lemma EstablishedIsLive(iss: u32, c: Conn)
    requires Inv(iss, c) && c.state != Closed && c.state != LastAck
    ensures !c.flags.reset && (c.state.Open() <==> !c.v.finSent)
  {
    hide SendInv, WireOk, FinsOk, LedgerOk;
  }

  lemma WindowKeeps(iss: u32, c: Conn, seg: InSegment)
    requires Inv(iss, c)
    ensures Inv(iss, WindowConn(c, seg)) && WindowConn(c, seg).state == c.state
  {
    hide SendInv, WireOk, FinsOk, LedgerOk, Signed;
  }

  lemma EstablishedAckKeeps(iss: u32, c: Conn, seg: InSegment, now: nat)
    requires Inv(iss, c) && c.state.Established?
    ensures Inv(iss, EstablishedAck(c, seg, now)) && EstablishedAck(c, seg, now).state.Established?
  {
    hide Inv, AckPart, WindowConn;
    AckPartKeeps(iss, c, seg, now);
    WindowKeeps(iss, AckPart(c, seg, now), seg);
  }

  lemma FinWait1AckKeeps(iss: u32, c: Conn, seg: InSegment, now: nat)
    requires Inv(iss, c) && c.state.FinWait1?
    ensures var d := FinWait1Ack(c, seg, now);
            && Inv(iss, d.(state := if SeqGE(seg.ack, c.v.sndNxt) then FinWait2 else FinWait1))
            && d.state == c.state && d.v.finSent && !d.flags.reset && !c.flags.reset
  {
    hide SendInv, WireOk, FinsOk, LedgerOk, Sub32, Signed, TrimFront, React, Avoiding, Increases;
    var k := Sub32(seg.ack, c.v.sndUna);
    NewAckMeans(iss, c, seg.ack);
    if IsNewAck(c, seg.ack) {
      NewAckKeeps(iss, c, FinWaitAck(k), k, now);
    }
  }

  lemma InputKeeps(iss: u32, c: Conn, seg: InSegment, peerFin: bool, now: nat)
    requires Inv(iss, c)
    ensures Inv(iss, InputConn(c, seg, peerFin, now))
  {
    hide SendInv, WireOk, FinsOk, LedgerOk, Sub32, Signed, EstablishedAck, FinWait1Ack;
    if seg.rst {
      ResetConnKeeps(iss, c);
    } else if c.state.Established? {
      EstablishedAckKeeps(iss, c, seg, now);
    } else if c.state.FinWait1? {
      FinWait1AckKeeps(iss, c, seg, now);
    }
  }

  lemma TickKeeps(iss: u32, c: Conn, now: nat, slots: nat)
    requires Inv(iss, c)
    ensures Inv(iss, TickConn(c, now, slots))
  {
    hide SendInv, WireOk, FinsOk, LedgerOk, DataTimeout, PersistTimeout, FinTimeout;
    match c.state {
      case Established | CloseWait =>
        DataTimeoutKeeps(iss, c, now, slots);
        var d := DataTimeout(c, now, slots);
        PersistTimeoutKeeps(iss, d, now, slots - Min(slots, |d.wire| - |c.wire|));
      case FinWait1 | LastAck =>
        FinTimeoutKeeps(iss, c, now, slots);
      case _ =>
    }
  }

  lemma DataTimeoutKeeps(iss: u32, c: Conn, now: nat, slots: nat)
    requires Inv(iss, c) && c.state.Open()
    ensures Inv(iss, DataTimeout(c, now, slots))
  {
    hide SendInv, WireOk, FinsOk, LedgerOk, React, Avoiding, Increases, Sub32;
    EstablishedIsLive(iss, c);
    NewAckMeans(iss, c, 0);
    ResetConnKeeps(iss, c);
    var e := Timeout(Flight(c), c.timers.retries == 0);
    NextKeeps(c.ledger, e);
    if c.v.unacked != [] && c.timers.Due(now) && c.timers.retries < MAX_DATA_RETRIES {
      ResendConnKeeps(iss, c.(ledger := Next(c.ledger, e), timers := c.timers.Backoff(now)));
    }
  }

  lemma PersistTimeoutKeeps(iss: u32, c: Conn, now: nat, slots: nat)
    requires Inv(iss, c)
    ensures Inv(iss, PersistTimeout(c, now, slots))
  {
    hide SendInv, WireOk, FinsOk, LedgerOk, Sub32;
    if slots > 0 {
      EmitBareKeeps(iss, c.(timers := c.timers.BackoffPersist(now)), Sub32(c.v.sndNxt, 1));
    }
  }

  /** A packet without payload or FIN changes nothing the invariant speaks of. */
  lemma EmitBareKeeps(iss: u32, c: Conn, number: u32)
    requires Inv(iss, c)
    ensures Inv(iss, c.Emit(Packet(number, false, []), 0))
  {
    hide SendInv, WireOk, FinsOk, LedgerOk;
    var p := Packet(number, false, []);
    WireAppend(iss, c.v.stream, c.wire, c.places, p, 0);
    if !c.flags.reset {
      FinsAppend(iss, c.v.stream, c.v.finSent, c.wire, p);
    }
  }

  lemma FinTimeoutKeeps(iss: u32, c: Conn, now: nat, slots: nat)
    requires Inv(iss, c) && (c.state.FinWait1? || c.state.LastAck?)
    ensures Inv(iss, FinTimeout(c, now, slots))
  {
    hide SendInv, WireOk, FinsOk, LedgerOk, Sub32;
    if c.timers.Due(now) && c.timers.retries < MAX_DATA_RETRIES {
      var d := c.(timers := c.timers.Backoff(now));
      ResendConnKeeps(iss, d);
      RefinConnKeeps(iss, d);
    }
  }

  lemma CloseFinishKeeps(iss: u32, c: Conn, from: TcpState, now: nat)
    requires Inv(iss, c) && c.flags.shutWr && from.Open()
    requires !c.flags.reset ==> !c.flags.finPending && !c.v.finSent
    ensures Inv(iss, CloseFinish(c, from, now))
  {
    hide SendInv, WireOk, FinsOk, LedgerOk, Finish;
    if c.v.unsent == [] && c.state == from {
      FinConnKeeps(iss, c.(closer := Idle), if from.Established? then FinWait1 else LastAck, now);
    }
  }

  lemma ShutdownFinishKeeps(iss: u32, c: Conn, now: nat)
    requires Inv(iss, c) && c.flags.shutWr
    requires !c.flags.reset ==> !c.flags.finPending && !c.v.finSent
    ensures Inv(iss, ShutdownFinish(c, now))
  {
    hide SendInv, WireOk, FinsOk, LedgerOk, Finish;
    if c.v.unsent == [] && !c.flags.finPending {
      FinConnKeeps(iss, c.(closer := Idle), if c.state.Established? then FinWait1 else LastAck, now);
    }
  }

  lemma SendKeeps(iss: u32, c: Conn, chunk: seq<byte>)
    requires Inv(iss, c)
    ensures Inv(iss, SendConn(c, chunk))
  {
    hide SendInv, WireOk, FinsOk, LedgerOk, Commit;
    if SendConn(c, chunk) != c {
      CommitConnKeeps(iss, c, chunk);
    }
  }

  lemma CloseBeginKeeps(iss: u32, c: Conn, now: nat)
    requires Inv(iss, c)
    ensures Inv(iss, CloseBegin(c, now))
  {
    hide SendInv, WireOk, FinsOk, LedgerOk, CloseFinish;
    if c.state.Open() && !c.flags.shutWr && c.v.unsent == [] {
      CloseFinishKeeps(iss, c.ShutWrite(), c.state, now);
    }
  }

  lemma ShutdownBeginKeeps(iss: u32, c: Conn, now: nat)
    requires Inv(iss, c)
    ensures Inv(iss, ShutdownBegin(c, now))
  {
    hide SendInv, WireOk, FinsOk, LedgerOk, ShutdownFinish;
    if c.state.Open() && !c.flags.shutWr && c.v.unsent == [] {
      ShutdownFinishKeeps(iss, c.ShutWrite(), now);
    }
  }

  lemma FinishStepKeeps(iss: u32, c: Conn, now: nat)
    requires Inv(iss, c)
    ensures Inv(iss, FinishStep(c, now))
  {
    hide SendInv, WireOk, FinsOk, LedgerOk, CloseFinish, ShutdownFinish;
    match c.closer {
      case Idle =>
      case Closing(from) => CloseFinishKeeps(iss, c, from, now);
      case Shutting => ShutdownFinishKeeps(iss, c, now);
    }
  }

  lemma ApplyKeeps(iss: u32, c: Conn, op: Op)
    requires Inv(iss, c)
    ensures Inv(iss, Apply(c, op))
  {
    hide ConnInv, LedgerOk, SendConn, InputConn, TickConn, DrainStep, CloseBegin, ShutdownBegin, FinishStep;
    match op {
      case OpSend(chunk) => SendKeeps(iss, c, chunk);
      case OpDrainBegin => DrainBeginKeeps(iss, c);
      case OpDrain(now, allocOk) => DrainKeeps(iss, c, now, allocOk);
      case OpInput(seg, peerFin, now) => InputKeeps(iss, c, seg, peerFin, now);
      case OpTick(now, slots) => TickKeeps(iss, c, now, slots);
      case OpClose(now) => CloseBeginKeeps(iss, c, now);
      case OpShutdown(now) => ShutdownBeginKeeps(iss, c, now);
      case OpFinish(now) => FinishStepKeeps(iss, c, now);
    }
  }

  lemma DrainBeginKeeps(iss: u32, c: Conn)
    requires Inv(iss, c)
    ensures Inv(iss, c.SetDraining(true))
  {
    hide SendInv, WireOk, FinsOk, LedgerOk;
  }

  /** Safety of the send side over every interleaving of every critical section. */
  lemma {:induction false} RunKeeps(iss: u32, c: Conn, ops: seq<Op>)
    requires Inv(iss, c)
    ensures Inv(iss, Run(c, ops))
    decreases |ops|
  {
    if ops != [] {
      RunKeeps(iss, c, ops[..|ops| - 1]);
      ApplyKeeps(iss, Run(c, ops[..|ops| - 1]), ops[|ops| - 1]);
    }
  }
}
