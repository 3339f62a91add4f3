// The protocol control block: the fields of one connection and the critical sections of src/kernel/tcp.c
// that update them. Each method is proved equal to the step of TcpSteps it stands for.
module TcpPcb {
  import opened Basics
  import opened SeqArith
  import opened Congestion
  import opened TcpQueue
  import opened TcpStream
  import opened TcpConn
  import opened TcpSteps
  import opened TcpTheorems

  /** Sequence variables and the two transmit queues. */
  datatype SendFields = SendFields(sndUna: u32, sndNxt: u32,
                                   unsent: Queue, unacked: Queue, unsentBytes: nat, unackedBytes: nat)

  /** What the fields stand for: the accepted stream, true positions, packet origins, congestion history. */
  datatype Meaning = Meaning(stream: seq<byte>, una: nat, nxt: nat, finSent: bool, places: seq<nat>, ledger: Ledger)

  /** On the head segment the signed-difference tests are tests on stream positions. */
  lemma HeadTests(seg: Segment, iss: u32, cur: nat, target: nat, ack: u32)
    requires seg.sequence == SeqAt(iss, cur) && ack == SeqAt(iss, target) && seg.length <= MSS
    requires cur <= target <= cur + TX_CAPACITY + 1
    ensures SeqLE(Add32(seg.sequence, seg.length), ack) <==> cur + seg.length <= target
    ensures SeqLT(seg.sequence, ack) <==> cur < target
    ensures Sub32(ack, seg.sequence) == target - cur
    ensures Add32(seg.sequence, target - cur) == ack
  {
    hide Add32, SeqLE, SeqLT, Sub32, SeqAt;
    SeqAtAdd(iss, cur, seg.length);
    ComparisonsAgree(iss, cur + seg.length, target);
    ComparisonsAgree(iss, cur, target);
    SeqAtDistance(iss, target, cur);
    SeqAtAdd(iss, cur, target - cur);
  }

  /** The loop that frees confirmed segments and shortens the partly confirmed one. */
  method TrimAcked(q: Queue, bytes: nat, ack: u32, ghost iss: u32, ghost pos: nat, ghost target: nat)
    returns (r: Queue, left: nat)
    requires AllWhole(q) && Contiguous(q, iss, pos)
    requires pos <= target <= pos + TX_CAPACITY + 1 && ack == SeqAt(iss, target)
    requires bytes == |Payloads(q)| <= TX_CAPACITY
    ensures r == TrimFront(q, Min(target - pos, bytes))
    ensures left == bytes - Min(target - pos, bytes)
  {
    hide Add32, SeqLE, SeqLT, Sub32, SeqAt, Payloads;
    r, left := q, bytes;
    ghost var cur: nat, n := pos, Min(target - pos, bytes);
    while r != []
      invariant pos <= cur <= pos + n
      invariant AllWhole(r) && Contiguous(r, iss, cur)
      invariant left == |Payloads(r)| == bytes - (cur - pos)
      invariant TrimFront(q, n) == TrimFront(r, pos + n - cur)
      decreases |r|
    {
      var seg := r[0];
      HeadTests(seg, iss, cur, target, ack);
      PayloadsHead(r);
      if SeqLE(Add32(seg.sequence, seg.length), ack) {
        r, left, cur := r[1..], left - seg.length, cur + seg.length;
      } else if SeqLT(seg.sequence, ack) {
        var confirmed := Sub32(ack, seg.sequence);
        r, left := [seg.Tail(confirmed, ack)] + r[1..], left - confirmed;
        return;
      } else {
        return;
      }
    }
    PayloadsNone();
  }

  lemma JoinChunk(s: seq<byte>, buffer: seq<byte>, a: nat, n: nat)
    requires a + n <= |buffer|
    ensures s + buffer[..a] + buffer[a .. a + n] == s + buffer[..a + n]
  {
    assert buffer[..a] + buffer[a .. a + n] == buffer[..a + n];
  }

  class Pcb {
    const iss: u32

    var state: TcpState
    var snd: SendFields
    var peer: PeerWindow
    var cc: Control
    var timers: Timers
    var flags: Flags
    var closer: Closer
    var wire: seq<Packet>     // data, FIN and probe packets handed to IPv4, oldest first
    ghost var spec: Meaning

    ghost function V(): Send
      reads this
    {
      TcpStream.Send(spec.stream, spec.una, spec.nxt, spec.finSent,
           snd.sndUna, snd.sndNxt, snd.unsent, snd.unacked, snd.unsentBytes, snd.unackedBytes)
    }

    ghost function C(): Conn
      reads this
    {
      Conn(V(), state, flags, closer, timers, peer, spec.ledger, wire, spec.places)
    }

    ghost predicate Valid()
      reads this
    {
      Inv(iss, C()) && spec.ledger.cc == cc
    }

    constructor (iss: u32, window: u16, segSeq: u32)
      ensures Valid() && this.iss == iss && C() == Fresh(iss, window, segSeq)
    {
      hide SeqAt;
      this.iss := iss;
      state := Established;
      snd := SendFields(SeqAt(iss, 0), SeqAt(iss, 0), [], [], 0, 0);
      peer := PeerWindow(window, segSeq, SeqAt(iss, 0));
      cc, timers := INITIAL, NO_TIMERS;
      flags := Flags(false, false, false, false, false);
      closer, wire := Idle, [];
      spec := Meaning([], 0, 0, false, [], Ledger(INITIAL, 0, 0, 0, 0, true));
      new;
      FreshInv(iss, window, segSeq);
    }

    // ---- tcp_send ----

    function Available(): nat
      reads this
    {
      Max(TX_CAPACITY - (snd.unsentBytes + snd.unackedBytes), 0)
    }

    predicate MaySend()
      reads this
    {
      state.Open() && !flags.reset && !flags.shutWr
    }

    /**
     * First critical section of an iteration of tcp_send: the longest chunk that the second one accepts if nothing
     * intervenes, 0 if it accepts none.
     */
    method SendRoom(remaining: nat) returns (n: nat)
      ensures n <= remaining && (n > 0 ==> Fits(C(), n))
      ensures forall m :: n < m <= remaining ==> !Fits(C(), m)
    {
      if !MaySend() {
        return 0;
      }
      n := Min(Min(remaining, MSS), Available());
    }

    /** Second critical section: the copied chunk is queued unless the connection or the space went away. */
    method SendCommit(chunk: seq<byte>) returns (ok: bool)
      requires Valid() && 0 < |chunk| <= MSS
      modifies this`snd, this`spec
      ensures Valid() && C() == SendConn(old(C()), chunk) && ok == Fits(old(C()), |chunk|)
      ensures ok <==> old(MaySend()) && |chunk| <= old(Available())
      ensures spec.stream == if ok then old(spec.stream) + chunk else old(spec.stream)
      ensures snd.unackedBytes == old(snd.unackedBytes)
      ensures snd.unsentBytes == if ok then old(snd.unsentBytes) + |chunk| else old(snd.unsentBytes)
    {
      hide Inv, Add32;
      SendKeeps(iss, C(), chunk);
      if !MaySend() || Available() < |chunk| {
        return false;
      }
      snd := snd.(unsent := snd.unsent + [Segment(Add32(snd.sndNxt, snd.unsentBytes), |chunk|, 0, chunk)],
                  unsentBytes := snd.unsentBytes + |chunk|);
      spec := spec.(stream := spec.stream + chunk);
      ok := true;
    }

    /** The accepting loop of tcp_send without interference: a prefix of the buffer, in order, as far as it fits. */
    method Accept(buffer: seq<byte>) returns (accepted: nat, ghost starved: bool)
      requires Valid()
      modifies this`snd, this`spec
      ensures Valid() && accepted <= |buffer|
      ensures spec.stream == old(spec.stream) + buffer[..accepted]
      ensures !MaySend() ==> accepted == 0
      ensures MaySend() && !starved ==> accepted == Min(|buffer|, old(Available()))
    {
      hide Inv, SendConn;
      accepted, starved := 0, false;
      while accepted < |buffer|
        invariant Valid() && accepted <= |buffer|
        invariant spec.stream == old(spec.stream) + buffer[..accepted]
        invariant snd.unackedBytes == old(snd.unackedBytes)
        invariant snd.unsentBytes == old(snd.unsentBytes) + accepted
        invariant accepted > 0 ==> MaySend() && accepted <= old(Available())
        invariant !starved
      {
        var n := SendRoom(|buffer| - accepted);
        if n == 0 {
          assert !Fits(C(), 1);
          return;
        }
        var allocOk: bool := *;
        if !allocOk {
          starved := true;
          return;
        }
        JoinChunk(old(spec.stream), buffer, accepted, n);
        var ok := SendCommit(buffer[accepted .. accepted + n]);
        accepted := accepted + n;
      }
    }

    /** A whole tcp_send without interference. */
    method Send(buffer: seq<byte>, now: nat) returns (r: int, ghost starved: bool)
      requires Valid()
      modifies this
      ensures Valid() && -1 <= r <= |buffer|
      ensures spec.stream == old(spec.stream) + buffer[..Max(r, 0)]
      ensures r == 0 <==> buffer == []
      ensures old(MaySend()) && !starved ==> Max(r, 0) == Min(|buffer|, old(Available()))
      ensures !old(MaySend()) ==> r <= 0
    {
      hide Inv;
      if buffer == [] {
        return 0, false;
      }
      var accepted;
      accepted, starved := Accept(buffer);
      if accepted == 0 {
        return -1, starved;
      }
      var _ := Drain(now);
      r := accepted;
    }

    // ---- tcp_drain_unsent ----

    /** Only one thread drains at a time. */
    method DrainBegin() returns (ok: bool)
      requires Valid()
      modifies this`flags
      ensures Valid() && ok == !old(flags.draining)
      ensures C() == old(C()).SetDraining(true)
    {
      hide Inv;
      if flags.draining {
        return false;
      }
      DrainBeginKeeps(iss, C());
      flags := flags.(draining := true);
      ok := true;
    }

    /** Moves the first n unsent bytes to the unacknowledged queue, as a slice or as the whole segment. */
    method MoveHead(n: nat) returns (payload: seq<byte>)
      requires snd.unsent != [] && 0 < n <= snd.unsent[0].length
      requires snd.unsent[0].offset + snd.unsent[0].length <= |snd.unsent[0].data|
      modifies this`snd, this`spec
      ensures V() == Transmit(old(V()), n) && payload == Prefix(old(snd.unsent[0]).Payload(), n)
      ensures spec.places == old(spec.places) && spec.ledger == old(spec.ledger)
    {
      hide Add32;
      var seg, next := snd.unsent[0], Add32(snd.sndNxt, n);
      payload := seg.data[seg.offset .. seg.offset + n];
      TakeSlice(seg.data, seg.offset, seg.offset + seg.length, n);
      var waiting, flying := snd.unsent[1..], seg.(sequence := snd.sndNxt);
      if n < seg.length {
        waiting := [seg.Tail(n, next)] + waiting;
        flying := Segment(snd.sndNxt, n, 0, payload);
      }
      snd := SendFields(snd.sndUna, next, waiting, snd.unacked + [flying],
                        Max(snd.unsentBytes - n, 0), snd.unackedBytes + n);
      spec := spec.(nxt := spec.nxt + n);
    }

    /** One packet of a drain: the bytes go on the wire, and the timer starts if nothing was outstanding. */
    method TransmitHead(n: nat, now: nat)
      requires ConnInv(iss, C()) && !flags.reset && state.Open()
      requires snd.unsent != [] && 0 < n <= snd.unsent[0].length
      modifies this
      ensures C() == TransmitConn(old(C()), n, now) && cc == old(cc) && spec.ledger == old(spec.ledger)
    {
      hide ConnInv, Transmit;
      HeadPayload(iss, C(), n);
      var wasEmpty, number := snd.unacked == [], snd.sndNxt;
      ghost var pos := spec.nxt;
      var payload := MoveHead(n);
      if wasEmpty {
        timers := timers.Start(now);
      }
      wire := wire + [Packet(number, false, payload)];
      spec := spec.(places := spec.places + [pos]);
    }

    /** The FIN is built with the next sequence number and its timer started. */
    method EmitFin(next: TcpState, now: nat)
      modifies this
      ensures C() == FinConn(old(C()), next, now) && cc == old(cc) && spec.ledger == old(spec.ledger)
    {
      hide Add32;
      wire := wire + [Packet(snd.sndNxt, true, [])];
      snd := snd.(sndNxt := Add32(snd.sndNxt, 1));
      spec := spec.(nxt := spec.nxt + 1, finSent := true, places := spec.places + [spec.nxt]);
      state, flags, timers := next, flags.(finPending := false), timers.Start(now);
    }

    /** One iteration of the drain loop; between iterations the lock is dropped to hand the packet to IPv4. */
    method DrainIteration(now: nat, allocOk: bool) returns (more: bool)
      requires Valid()
      modifies this
      ensures Valid()
      ensures C() == DrainStep(old(C()), now, allocOk).0
      ensures more == DrainStep(old(C()), now, allocOk).1
    {
      hide Inv, Sub32, TransmitConn, FinConn;
      DrainKeeps(iss, C(), now, allocOk);
      if snd.unsent == [] {
        if flags.finPending {
          EmitFin(if state == Established then FinWait1 else if state == CloseWait then LastAck else state, now);
        }
        flags := flags.(draining := false);
        return false;
      }
      if !state.Open() || flags.reset {
        flags := flags.(draining := false);
        return false;
      }
      var inFlight := Sub32(snd.sndNxt, snd.sndUna);
      var room := Max(Min(peer.wnd, cc.cwnd) - inFlight, 0);
      if room == 0 {
        if peer.wnd == 0 && !timers.persist {
          timers := timers.StartPersist(now);
        }
        flags := flags.(draining := false);
        return false;
      }
      var n := Min(Min(snd.unsent[0].length, room), MSS);
      if n < snd.unsent[0].length && !allocOk {
        flags := flags.(draining := false);
        return false;
      }
      InvParts(iss, C());
      HeadWhole(iss, C());
      TransmitHead(n, now);
      more := true;
    }

    /** A whole drain without interference: unless memory ran out it goes on until nothing more may be sent. */
    method Drain(now: nat) returns (ghost starved: bool)
      requires Valid()
      modifies this
      ensures Valid() && spec.stream == old(spec.stream) && spec.una == old(spec.una)
      ensures !old(flags.draining) && !starved && state.Open() ==>
                snd.unsent == [] || spec.nxt - spec.una >= Min(peer.wnd, cc.cwnd)
    {
      hide Inv, DrainStep;
      starved := false;
      var more := DrainBegin();
      while more
        invariant Valid() && spec.stream == old(spec.stream) && spec.una == old(spec.una)
        invariant !old(flags.draining) && !more && !starved && state.Open() ==>
                    snd.unsent == [] || spec.nxt - spec.una >= Min(peer.wnd, cc.cwnd)
        decreases more, Max(|spec.stream| - spec.nxt, 0)
      {
        var allocOk: bool := *;
        ghost var c := C();
        DrainSameStream(c, now, allocOk);
        more := DrainIteration(now, allocOk);
        if more {
          FirstSend(iss, c, now, allocOk);
        } else if !allocOk {
          starved := true;
        } else if state.Open() {
          DrainRests(iss, c, now);
        }
      }
    }

    // ---- tcp_input ----

    /** tcp_tx_ack_received: a new acknowledgement moves SND.UNA, grows the window and trims the queue. */
    method AckReceived(ack: u32, recoveryExit: bool, now: nat) returns (k: nat)
      requires ConnInv(iss, C()) && !flags.reset
      modifies this
      ensures k == Confirmed(old(C()), ack) && C() == AckResult(old(C()), ack, now)
      ensures cc == if k > 0 && !recoveryExit then Grow(old(cc), k) else old(cc)
    {
      hide ConnInv, SeqGT, SeqLT, Sub32, SeqAt, Add32, TrimFront, AllWhole, Contiguous, Payloads, Grow;
      ghost var c := C();
      Trichotomy(ack, snd.sndUna);
      NewAckMeans(iss, c, ack);
      if SeqGT(ack, snd.sndNxt) || ack == snd.sndUna || SeqLT(ack, snd.sndUna) {
        return 0;
      }
      k := Sub32(ack, snd.sndUna);
      AckBytes(iss, c, k);
      AddSub32(ack, snd.sndUna);
      if !recoveryExit {
        cc := Grow(cc, k);
      }
      var rest, left := TrimAcked(snd.unacked, snd.unackedBytes, ack, iss, c.v.Acked(), c.v.una + k);
      snd := snd.(sndUna := ack, unacked := rest, unackedBytes := left);
      spec := spec.(una := spec.una + k);
      timers := if rest == [] then timers.Stop() else timers.Start(now);
    }

    /** tcp_retransmit_segment: the oldest unacknowledged segment goes on the wire again. */
    method Resend()
      requires ConnInv(iss, C())
      modifies this
      ensures C() == ResendConn(old(C())) && cc == old(cc) && spec.ledger == old(spec.ledger)
    {
      hide ConnInv;
      ResendConnKeeps(iss, C());
      if snd.unacked != [] {
        var seg := snd.unacked[0];
        var len := Min(seg.length, MSS);
        wire := wire + [Packet(seg.sequence, false, seg.data[seg.offset .. seg.offset + len])];
        spec := spec.(places := spec.places + [V().Acked()]);
      }
    }

    /** The acknowledgement number of a segment in ESTABLISHED. */
    method AckNumber(seg: InSegment, now: nat)
      requires Valid() && state == Established
      modifies this
      ensures Valid() && C() == AckPart(old(C()), seg, now)
    {
      hide Inv, ConnInv, SeqGT, SeqLT, Sub32, Acknowledge, ResendConn;
      ghost var c := C();
      AckPartKeeps(iss, c, seg, now);
      InvParts(iss, c);
      EstablishedIsLive(iss, c);
      NewAckMeans(iss, c, seg.ack);
      var dup := snd.unacked != [] && SeqLT(snd.sndUna, snd.sndNxt) && seg.payload == []
                 && !seg.syn && !seg.fin && !seg.rst && seg.ack == snd.sndUna && seg.window == peer.wnd;
      if SeqGT(seg.ack, snd.sndNxt) {
      } else if SeqGT(seg.ack, snd.sndUna) {
        var k := Sub32(seg.ack, snd.sndUna);
        spec := spec.(ledger := Next(spec.ledger, NewAck(k)));
        LedgerIrrelevant(iss, c, spec.ledger);
        if cc.recovery {
          cc := ExitRecovery(cc);
          var _ := AckReceived(seg.ack, true, now);
        } else {
          cc := cc.(dupacks := 0);
          var _ := AckReceived(seg.ack, false, now);
        }
      } else if dup {
        DuplicateAck(now);
      }
    }

    /** A duplicate acknowledgement: the third one resends, later ones inflate the window. */
    method DuplicateAck(now: nat)
      requires ConnInv(iss, C()) && spec.ledger.cc == cc
      modifies this
      ensures C() == DupAckConn(old(C()), now) && spec.ledger.cc == cc
    {
      hide ConnInv, Sub32, ResendConn;
      ghost var c := C();
      var inFlight := Sub32(snd.sndNxt, snd.sndUna);
      var was := cc.recovery;
      cc := OnDupAck(cc, inFlight, snd.sndNxt);
      spec := spec.(ledger := Next(spec.ledger, DupAck(inFlight, snd.sndNxt)));
      if !was && cc.recovery {
        LedgerIrrelevant(iss, c, spec.ledger);
        Resend();
        timers := timers.Start(now);
      }
    }

    /** A changed or newer window is taken, and an opened window ends persist probing. */
    method TakeWindow(seg: InSegment)
      requires Valid()
      modifies this
      ensures Valid() && C() == WindowConn(old(C()), seg)
    {
      hide Inv, SeqLT, SeqLE;
      WindowKeeps(iss, C(), seg);
      if seg.window != peer.wnd || SeqLT(peer.wl1, seg.sequence)
         || (peer.wl1 == seg.sequence && SeqLE(peer.wl2, seg.ack))
      {
        peer := PeerWindow(seg.window, seg.sequence, seg.ack);
        if seg.window > 0 && timers.persist {
          timers := timers.(persist := false, interval := 100, probeAt := 0, probes := 0);
        }
      }
    }

    /** The acknowledgement number of a segment in FIN_WAIT1; at or beyond SND.NXT it counts as for the FIN. */
    method FinWait1Number(seg: InSegment, now: nat) returns (done: bool)
      requires Valid() && state == FinWait1
      modifies this
      ensures C() == FinWait1Ack(old(C()), seg, now) && spec.ledger.cc == cc
      ensures done == SeqGE(seg.ack, old(snd.sndNxt))
    {
      hide Inv, ConnInv, SeqGT, SeqGE, Sub32, Add32, TrimFront;
      ghost var c := C();
      InvParts(iss, c);
      EstablishedIsLive(iss, c);
      NewAckMeans(iss, c, seg.ack);
      var k := AckReceived(seg.ack, false, now);
      if k > 0 {
        spec := spec.(ledger := Next(spec.ledger, FinWaitAck(k)));
      }
      done := SeqGE(seg.ack, snd.sndNxt);
      if done {
        timers := timers.(armed := false, deadline := 0, retries := 0);
      }
    }

    /** tcp_input in FIN_WAIT1. */
    method FinWait1Input(seg: InSegment, peerFin: bool, now: nat)
      requires Valid() && state == FinWait1 && !seg.rst
      modifies this
      ensures Valid() && C() == InputConn(old(C()), seg, peerFin, now)
    {
      hide Inv, SeqGE, FinWait1Ack;
      InputKeeps(iss, C(), seg, peerFin, now);
      var done := false;
      if seg.hasAck {
        done := FinWait1Number(seg, now);
      }
      if peerFin {
        flags := flags.(eof := true);
      }
      if done {
        if flags.eof {
          state, timers := TimeWait, timers.(timeout := now + 200);
        } else {
          state := FinWait2;
        }
      }
    }

    /** tcp_input on a connected PCB; `peerFin` is the receive side's verdict on the FIN. */
    method Input(seg: InSegment, peerFin: bool, now: nat)
      requires Valid()
      modifies this
      ensures Valid() && C() == InputConn(old(C()), seg, peerFin, now)
    {
      hide Inv, SeqGE, AckPart, WindowConn, FinWait1Ack;
      InputKeeps(iss, C(), seg, peerFin, now);
      if state == Closed {
        return;
      }
      if seg.rst {
        Kill();
        return;
      }
      match state {
        case Established =>
          if seg.hasAck {
            AckPartKeeps(iss, C(), seg, now);
            AckNumber(seg, now);
            WindowKeeps(iss, C(), seg);
            TakeWindow(seg);
          }
          if peerFin {
            flags, state := flags.(eof := true), CloseWait;
          }
        case FinWait1 =>
          FinWait1Input(seg, peerFin, now);
        case FinWait2 =>
          if peerFin {
            flags, state, timers := flags.(eof := true), TimeWait, timers.(timeout := now + 200);
          }
        case LastAck =>
          if seg.hasAck && SeqGE(seg.ack, snd.sndNxt) {
            state, timers, flags := Closed, NO_TIMERS, flags.(draining := false);
          }
        case TimeWait =>
          if seg.fin {
            timers := timers.(timeout := now + 200);
          }
        case _ =>
      }
    }

    /** A reset from the peer or from too many timeouts: queues and timers go, the flag stays. */
    method Kill()
      modifies this
      ensures C() == ResetConn(old(C())) && cc == old(cc)
    {
      state := Closed;
      flags := flags.(reset := true, draining := false);
      snd := snd.(unsent := [], unacked := [], unsentBytes := 0, unackedBytes := 0);
      timers := NO_TIMERS;
    }

    // ---- tcp_timer_tick ----

    method DataTimer(now: nat, slots: nat)
      requires Valid() && state.Open()
      modifies this
      ensures Valid() && C() == DataTimeout(old(C()), now, slots)
    {
      hide Inv, ConnInv, Sub32, ResendConn;
      ghost var c := C();
      DataTimeoutKeeps(iss, c, now, slots);
      if !timers.Due(now) {
        return;
      }
      if snd.unacked == [] {
        timers := timers.(armed := false, deadline := 0);
        return;
      }
      if timers.retries >= MAX_DATA_RETRIES {
        Kill();
        return;
      }
      var inFlight, first := Sub32(snd.sndNxt, snd.sndUna), timers.retries == 0;
      cc := OnTimeout(cc, inFlight, first);
      spec := spec.(ledger := Next(spec.ledger, Timeout(inFlight, first)));
      timers := timers.Backoff(now);
      if slots > 0 {
        InvParts(iss, c);
        BackoffKeeps(iss, c, spec.ledger, now);
        Resend();
      }
    }

    method PersistTimer(now: nat, slots: nat)
      requires Valid()
      modifies this
      ensures Valid() && C() == PersistTimeout(old(C()), now, slots)
    {
      hide Inv, Sub32;
      PersistTimeoutKeeps(iss, C(), now, slots);
      if !timers.ProbeDue(now) {
        return;
      }
      if peer.wnd != 0 || snd.unsent == [] {
        timers := timers.(persist := false, probeAt := 0, probes := 0);
      } else if timers.probes >= MAX_PERSIST_PROBES {
        timers := timers.(persist := false, probeAt := 0);
      } else {
        timers := timers.BackoffPersist(now);
        if slots > 0 {
          wire, spec := wire + [Packet(Sub32(snd.sndNxt, 1), false, [])], spec.(places := spec.places + [0]);
        }
      }
    }

    method FinTimer(now: nat, slots: nat)
      requires Valid() && (state == FinWait1 || state == LastAck)
      modifies this
      ensures Valid() && C() == FinTimeout(old(C()), now, slots)
    {
      hide Inv, ConnInv, Sub32, ResendConn;
      ghost var c := C();
      FinTimeoutKeeps(iss, c, now, slots);
      if !timers.Due(now) {
        return;
      }
      if timers.retries >= MAX_DATA_RETRIES {
        state, timers, flags := Closed, NO_TIMERS, flags.(draining := false);
        return;
      }
      timers := timers.Backoff(now);
      if slots > 0 {
        if snd.unacked != [] {
          InvParts(iss, c);
          BackoffKeeps(iss, c, spec.ledger, now);
          Resend();
        } else {
          wire, spec := wire + [Packet(Sub32(snd.sndNxt, 1), true, [])], spec.(places := spec.places + [0]);
        }
      }
    }

    method Tick(now: nat, slots: nat)
      requires Valid()
      modifies this
      ensures Valid() && C() == TickConn(old(C()), now, slots)
    {
      hide Inv, DataTimeout, PersistTimeout, FinTimeout;
      TickKeeps(iss, C(), now, slots);
      match state {
        case Established | CloseWait =>
          var before := |wire|;
          DataTimer(now, slots);
          if !flags.reset {
            PersistTimer(now, slots - Min(slots, |wire| - before));
          }
        case FinWait1 | LastAck =>
          FinTimer(now, slots);
        case TimeWait =>
          if timers.timeout != 0 && now >= timers.timeout {
            state, timers, flags := Closed, NO_TIMERS, flags.(draining := false);
          }
        case _ =>
      }
    }

    // ---- tcp_close and tcp_shutdown ----

    method Close(now: nat)
      requires Valid()
      modifies this
      ensures Valid() && C() == CloseBegin(old(C()), now)
    {
      hide Inv, FinConn;
      CloseBeginKeeps(iss, C(), now);
      if !state.Open() || flags.shutWr {
        return;
      }
      flags := flags.(shutWr := true);
      if snd.unsent != [] {
        closer := Closing(state);
      } else {
        CloseTail(state, now);
      }
    }

    method CloseTail(from: TcpState, now: nat)
      modifies this
      ensures C() == CloseFinish(old(C()), from, now) && cc == old(cc) && spec.ledger == old(spec.ledger)
    {
      hide FinConn;
      closer := Idle;
      if state != from {
        return;
      }
      if snd.unsent != [] {
        flags := flags.(finPending := true);
        return;
      }
      EmitFin(if from == Established then FinWait1 else LastAck, now);
    }

    method Shutdown(now: nat)
      requires Valid()
      modifies this
      ensures Valid() && C() == ShutdownBegin(old(C()), now)
    {
      hide Inv, FinConn;
      ShutdownBeginKeeps(iss, C(), now);
      if state == Closed || flags.shutWr {
        return;
      }
      flags := flags.(shutWr := true);
      if state.Open() {
        if snd.unsent != [] {
          closer := Shutting;
        } else {
          ShutdownTail(now);
        }
      }
    }

    method ShutdownTail(now: nat)
      modifies this
      ensures C() == ShutdownFinish(old(C()), now) && cc == old(cc) && spec.ledger == old(spec.ledger)
    {
      hide FinConn;
      closer := Idle;
      if snd.unsent != [] {
        flags := flags.(finPending := true);
      } else if !flags.finPending {
        EmitFin(if state == Established then FinWait1 else LastAck, now);
      }
    }

    /** The closing thread takes the lock again after its drain. */
    method FinishClose(now: nat)
      requires Valid()
      modifies this
      ensures Valid() && C() == FinishStep(old(C()), now)
    {
      hide Inv, CloseFinish, ShutdownFinish;
      FinishStepKeeps(iss, C(), now);
      match closer {
        case Idle =>
        case Closing(from) => CloseTail(from, now);
        case Shutting => ShutdownTail(now);
      }
    }
  }
}
