// A sender and a receiver joined by a network that may lose, duplicate, delay and reorder packets.
module TcpEndToEnd {
  import opened SeqArith
  import opened Congestion
  import opened TcpStream
  import opened TcpConn
  import opened TcpSteps
  import opened TcpReceive

  /** The arriving segment is packet j of the sender's log, whenever it was sent. */
  predicate Delivers(c: Conn, seg: InSegment, j: nat) {
    && j < |c.wire|
    && seg.sequence == c.wire[j].sequence
    && seg.payload == c.wire[j].payload
    && seg.fin == c.wire[j].fin
  }

  /** Every arrival is a packet the sender emitted, data, FIN or probe; `from[i]` says which. */
  ghost predicate FromWire(c: Conn, rops: seq<RxOp>, from: seq<nat>) {
    && |from| == |rops|
    && forall i :: 0 <= i < |rops| && rops[i].RxSegment? ==>
         && Delivers(c, rops[i].seg, from[i])
         && from[i] < |c.places|
         && rops[i].at == if rops[i].seg.payload == [] then |c.v.stream| else c.places[from[i]]
  }

  /** No data or FIN arrives 2^32 positions or more away from what the receiver then expects. */
  ghost predicate AllNear(r: Rx, rops: seq<RxOp>) {
    forall i :: 0 <= i < |rops| && rops[i].RxSegment? && !Empty(rops[i].seg) ==>
                  Near(RxRun(r, rops[..i]), rops[i].seg, rops[i].at)
  }

  /** A packet of the log is a piece of the accepted stream, and a FIN stands at its end. */
  lemma PacketIsCut(iss: u32, c: Conn, seg: InSegment, j: nat)
    requires ConnInv(iss, c) && !c.flags.reset && Delivers(c, seg, j) && j < |c.places|
    requires seg.payload == [] ==> seg.fin
    ensures CutFrom(iss, c.v.stream, seg, if seg.payload == [] then |c.v.stream| else c.places[j])
  {
    hide SendInv, SeqAt, LifeOk;
  }

  /**
   * End to end: for every run of the sender and every order in which its packets reach the receiver, the
   * application reads a prefix of what the sending application wrote, and end of file means all of it.
   */
  lemma EndToEnd(iss: u32, window: u16, wl1: u32, ops: seq<Op>, rops: seq<RxOp>, from: seq<nat>)
    requires var c := Run(Fresh(iss, window, wl1), ops);
             !c.flags.reset && FromWire(c, rops, from) && AllNear(FreshRx(iss), rops)
    ensures var c, r := Run(Fresh(iss, window, wl1), ops), RxRun(FreshRx(iss), rops);
            && r.delivered <= c.v.stream
            && (r.eof && !r.shutRd ==> r.delivered + r.buffer == c.v.stream)
  {
    hide SeqAt, Apply, RxApply, CutFrom, Near, ConnInv, LedgerOk;
    var c := Run(Fresh(iss, window, wl1), ops);
    FreshInv(iss, window, wl1);
    RunKeeps(iss, Fresh(iss, window, wl1), ops);
    forall i | 0 <= i < |rops| && rops[i].RxSegment? && !Empty(rops[i].seg)
      ensures CutFrom(iss, c.v.stream, rops[i].seg, rops[i].at)
    {
      PacketIsCut(iss, c, rops[i].seg, from[i]);
    }
    ReceiveTheorem(iss, c.v.stream, rops);
  }
}
