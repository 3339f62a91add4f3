// A connected socket: the receive fields of the PCB, and tcp_input over both sides.
module TcpConnection {
  import opened Basics
  import opened SeqArith
  import opened Congestion
  import opened TcpConn
  import opened TcpSteps
  import opened TcpPcb
  import opened TcpReceive
  import opened RxRing

  class Receiver {
    const ring: RxBuffer
    var rcvNxt: u32
    var shutRd: bool
    var eof: bool
    ghost var pos: nat                // RCV.NXT as a position in the peer's stream
    ghost var delivered: seq<byte>    // every byte the application has read

    ghost predicate Valid()
      reads this, ring
    {
      ring.Valid() && ring.data.Length == RX_CAPACITY
    }

    ghost function R(): Rx
      requires Valid()
      reads this, ring, ring.data
    {
      Rx(rcvNxt, pos, ring.Contents(), delivered, eof, shutRd)
    }

    constructor (irs: u32)
      ensures Valid() && fresh(ring) && fresh(ring.data) && R() == FreshRx(irs)
    {
      ring := new RxBuffer(RX_CAPACITY);
      rcvNxt, shutRd, eof := SeqAt(irs, 0), false, false;
      pos, delivered := 0, [];
    }

    /** In-order payload enters the ring as far as it fits; after SHUT_RD it is only counted. */
    method Data(seg: InSegment)
      requires Valid()
      modifies this, ring, ring.data
      ensures Valid() && R() == TakeData(old(R()), seg)
    {
      hide Add32, Ring;
      AddZero(rcvNxt);
      if seg.payload == [] || seg.sequence != rcvNxt {
        assert seg.payload[..0] == [];
        return;
      }
      var n := |seg.payload|;
      if !shutRd {
        n := ring.Write(seg.payload);
      }
      rcvNxt, pos := Add32(rcvNxt, n), pos + n;
    }

    /** The receive half of tcp_input. */
    method Segment(state: TcpState, seg: InSegment) returns (peerFin: bool)
      requires Valid()
      modifies this, ring, ring.data
      ensures Valid() && R() == SegmentStep(old(R()), state, seg)
      ensures peerFin <==> Receiving(state) && !seg.rst && FinNext(TakeData(old(R()), seg), seg)
      ensures eof == (old(eof) || peerFin)
    {
      hide Add32, Ring, TakeData;
      if !Receiving(state) || seg.rst {
        return false;
      }
      ghost var r := R();
      Data(seg);
      assert TakeData(r, seg).eof == r.eof by { TakeDataEof(r, seg); }
      peerFin := seg.fin && Add32(seg.sequence, |seg.payload|) == rcvNxt;
      if peerFin {
        rcvNxt, pos, eof := Add32(rcvNxt, 1), pos + 1, true;
      }
    }

    /** tcp_receive_read. */
    method Read(len: nat) returns (dst: seq<byte>)
      requires Valid()
      modifies this, ring
      ensures Valid() && R() == ReadStep(old(R()), len)
      ensures delivered == old(delivered) + dst
      ensures dst == if old(shutRd) then [] else old(ring.Contents())[..Min(len, |old(ring.Contents())|)]
    {
      hide Ring;
      if shutRd {
        return [];
      }
      ghost var all := ring.Contents();
      dst := ring.Read(len);
      assert all[..|dst|] == dst && all[|dst|..] == ring.Contents();
      delivered := delivered + dst;
    }

    /** shutdown(SHUT_RD): unread bytes are discarded once. */
    method ShutRead()
      requires Valid()
      modifies this, ring
      ensures Valid() && R() == ShutStep(old(R()))
    {
      hide Ring;
      if !shutRd {
        shutRd := true;
        ring.Discard();
      }
    }
  }

  lemma AddZero(a: u32)
    ensures Add32(a, 0) == a
  {}

  lemma TakeDataEof(r: Rx, seg: InSegment)
    ensures TakeData(r, seg).eof == r.eof
  {}

  class Connection {
    const tx: Pcb
    const rx: Receiver

    ghost predicate Valid()
      reads this, tx, rx, rx.ring
    {
      tx.Valid() && rx.Valid() && (tx.flags.eof <==> rx.eof)
    }

    constructor (iss: u32, irs: u32, window: u16, segSeq: u32)
      ensures Valid() && tx.iss == iss
      ensures tx.C() == Fresh(iss, window, segSeq) && rx.R() == FreshRx(irs)
    {
      tx := new Pcb(iss, window, segSeq);
      rx := new Receiver(irs);
    }

    /** tcp_input on a connected PCB: both sides take their step on the same segment. */
    method Input(seg: InSegment, now: nat)
      requires Valid()
      modifies tx, rx, rx.ring, rx.ring.data
      ensures Valid()
      ensures rx.R() == SegmentStep(old(rx.R()), old(tx.state), seg)
      ensures tx.C() == InputConn(old(tx.C()), seg,
                                  Receiving(old(tx.state)) && !seg.rst && FinNext(TakeData(old(rx.R()), seg), seg), now)
    {
      hide Inv, SegmentStep, TakeData, InputConn, FinNext, Ring;
      var peerFin := rx.Segment(tx.state, seg);
      InputEof(tx.C(), seg, peerFin, now);
      tx.Input(seg, peerFin, now);
    }
  }

  lemma InputEof(c: Conn, seg: InSegment, peerFin: bool, now: nat)
    requires peerFin ==> Receiving(c.state) && !seg.rst
    ensures InputConn(c, seg, peerFin, now).flags.eof == (c.flags.eof || peerFin)
  {
    hide SeqLT, SeqLE, SeqGT, SeqGE, AckPart, FinWait1Ack, NewerWindow;
    AckEof(c, seg, now);
  }

  lemma AckEof(c: Conn, seg: InSegment, now: nat)
    ensures AckPart(c, seg, now).flags == c.flags && FinWait1Ack(c, seg, now).flags == c.flags
  {
    hide SeqLT, SeqLE, SeqGT, SeqGE, Sub32, Next;
  }
}
