// The receive side of a connection: in-order bytes enter a bounded ring, everything else is dropped.
module TcpReceive {
  import opened Basics
  import opened SeqArith
  import opened TcpConn
  import opened TcpSteps

  const RX_CAPACITY: nat := 8192

  /**
   * The receive fields beside what they stand for: `pos` is RCV.NXT as a position in the peer's stream
   * (its FIN occupies the position after the last byte), `buffer` the ring's contents, `delivered` what the
   * application has read.
   */
  datatype Rx = Rx(rcvNxt: u32, pos: nat, buffer: seq<byte>, delivered: seq<byte>, eof: bool, shutRd: bool)

  /** The states in which payload and FIN are looked at. */
  predicate Receiving(s: TcpState) { s.Established? || s.FinWait1? || s.FinWait2? }

  /** How many payload bytes are taken: none out of order, all after SHUT_RD, else what fits. */
  function Taken(r: Rx, seg: InSegment): nat {
    if seg.payload == [] || seg.sequence != r.rcvNxt then 0
    else if r.shutRd then |seg.payload|
    else Min(|seg.payload|, Max(RX_CAPACITY - |r.buffer|, 0))
  }

  function TakeData(r: Rx, seg: InSegment): Rx {
    var n := Taken(r, seg);
    r.(rcvNxt := Add32(r.rcvNxt, n), pos := r.pos + n,
       buffer := if r.shutRd then r.buffer else r.buffer + seg.payload[..n])
  }

  /** The FIN is the next thing expected once the payload has been dealt with. */
  predicate FinNext(r: Rx, seg: InSegment) {
    seg.fin && Add32(seg.sequence, |seg.payload|) == r.rcvNxt
  }

  function TakeFin(r: Rx): Rx { r.(rcvNxt := Add32(r.rcvNxt, 1), pos := r.pos + 1, eof := true) }

  function SegmentStep(r: Rx, state: TcpState, seg: InSegment): Rx {
    if !Receiving(state) || seg.rst then r else
    var d := TakeData(r, seg);
    if FinNext(d, seg) then TakeFin(d) else d
  }

  function ReadStep(r: Rx, len: nat): Rx {
    if r.shutRd then r else
    var n := Min(len, |r.buffer|);
    r.(buffer := r.buffer[n..], delivered := r.delivered + r.buffer[..n])
  }

  function ShutStep(r: Rx): Rx {
    if r.shutRd then r else r.(shutRd := true, buffer := [])
  }

  // ---- segments cut from one stream ----

  /** The segment is a piece of the peer's stream starting at position `at`, with a FIN only at its end. */
  ghost predicate CutFrom(irs: u32, peer: seq<byte>, seg: InSegment, at: nat) {
    && at + |seg.payload| <= |peer|
    && seg.payload == peer[at .. at + |seg.payload|]
    && seg.sequence == SeqAt(irs, at)
    && (seg.fin ==> at + |seg.payload| == |peer|)
  }

  /** Neither payload nor FIN: a bare acknowledgement or a zero-window probe. */
  predicate Empty(seg: InSegment) { seg.payload == [] && !seg.fin }

  /** An empty segment changes nothing. */
  lemma EmptyIgnored(r: Rx, state: TcpState, seg: InSegment)
    requires Empty(seg)
    ensures SegmentStep(r, state, seg) == r
  {}

  /** Both ends of the segment lie less than 2^32 positions from what the receiver expects next. */
  ghost predicate Near(r: Rx, seg: InSegment, at: nat) {
    && -MOD < at - r.pos < MOD
    && -MOD < at + |seg.payload| - r.pos < MOD
  }

  ghost predicate RxInv(irs: u32, peer: seq<byte>, r: Rx) {
    && r.rcvNxt == SeqAt(irs, r.pos)
    && (if r.eof then r.pos == |peer| + 1 else r.pos <= |peer|)
    && r.delivered <= peer
    && |r.buffer| <= RX_CAPACITY
    && (!r.shutRd ==> r.delivered + r.buffer == peer[..Min(r.pos, |peer|)])
    && (r.shutRd ==> r.buffer == [])
  }

  lemma TakeDataKeeps(irs: u32, peer: seq<byte>, r: Rx, seg: InSegment, at: nat)
    requires RxInv(irs, peer, r) && CutFrom(irs, peer, seg, at) && Near(r, seg, at)
    ensures RxInv(irs, peer, TakeData(r, seg))
    ensures TakeData(r, seg) == r || at == r.pos
    ensures |seg.payload| > 0 && at == r.pos ==> !r.eof
  {
    hide SeqAt, Add32;
    SeqAtInjective(irs, at, r.pos);
    SeqAtIn32(irs, r.pos);
    var n := Taken(r, seg);
    SeqAtAdd(irs, r.pos, n);
    if n > 0 && !r.shutRd {
      assert peer[..r.pos] + seg.payload[..n] == peer[..r.pos + n];
      assert r.delivered + (r.buffer + seg.payload[..n]) == (r.delivered + r.buffer) + seg.payload[..n];
    }
  }

  lemma SeqAtIn32(irs: u32, pos: nat)
    ensures Add32(SeqAt(irs, pos), 0) == SeqAt(irs, pos)
  {}

  lemma FinNextKeeps(irs: u32, peer: seq<byte>, r: Rx, seg: InSegment, at: nat)
    requires RxInv(irs, peer, r) && CutFrom(irs, peer, seg, at) && Near(r, seg, at)
    requires FinNext(r, seg)
    ensures RxInv(irs, peer, TakeFin(r)) && !r.eof && r.pos == |peer|
  {
    hide SeqAt, Add32;
    SeqAtAdd(irs, at, |seg.payload|);
    SeqAtInjective(irs, at + |seg.payload|, r.pos);
    SeqAtAdd(irs, r.pos, 1);
  }

  lemma SegmentKeeps(irs: u32, peer: seq<byte>, r: Rx, state: TcpState, seg: InSegment, at: nat)
    requires RxInv(irs, peer, r) && (Empty(seg) || (CutFrom(irs, peer, seg, at) && Near(r, seg, at)))
    ensures RxInv(irs, peer, SegmentStep(r, state, seg))
  {
    if Empty(seg) {
      EmptyIgnored(r, state, seg);
      return;
    }
    hide RxInv, CutFrom, SeqAt, Add32;
    TakeDataKeeps(irs, peer, r, seg, at);
    var d := TakeData(r, seg);
    if FinNext(d, seg) {
      FinNextKeeps(irs, peer, d, seg, at);
    }
  }

  /**
   * A piece of the stream that starts where the receiver stands is stored as far as it fits, or only counted after
   * SHUT_RD; one that starts anywhere else stores nothing. A FIN is taken exactly when all before it has been.
   */
  lemma SegmentExactly(irs: u32, peer: seq<byte>, r: Rx, state: TcpState, seg: InSegment, at: nat)
    requires RxInv(irs, peer, r) && CutFrom(irs, peer, seg, at) && Near(r, seg, at)
    requires (state.Established? || state.FinWait1? || state.FinWait2?) && !seg.rst
    ensures var n := if at != r.pos then 0 else if r.shutRd then |seg.payload|
                     else Min(|seg.payload|, RX_CAPACITY - |r.buffer|);
            var f := seg.fin && at + |seg.payload| == r.pos + n;
            var pos := r.pos + n + if f then 1 else 0;
            SegmentStep(r, state, seg) ==
            Rx(SeqAt(irs, pos), pos, if r.shutRd then [] else r.buffer + seg.payload[..n],
               r.delivered, r.eof || f, r.shutRd)
    ensures at == r.pos ==>
              (SegmentStep(r, state, seg).eof <==>
               seg.fin && (r.shutRd || |r.buffer| + |seg.payload| <= RX_CAPACITY))
  {
    hide SeqAt, Add32;
    var d := TakeData(r, seg);
    SeqAtInjective(irs, at, r.pos);
    TakeDataKeeps(irs, peer, r, seg, at);
    SeqAtAdd(irs, at, |seg.payload|);
    SeqAtInjective(irs, at + |seg.payload|, d.pos);
    SeqAtAdd(irs, d.pos, 1);
  }

  /** A read hands over the oldest bytes, as many as asked for and there are; what it leaves comes next. */
  lemma ReadExactly(r: Rx, len: nat)
    requires !r.shutRd
    ensures var d, n := ReadStep(r, len), Min(len, |r.buffer|);
            && |d.delivered| == |r.delivered| + n && r.delivered <= d.delivered
            && d.delivered + d.buffer == r.delivered + r.buffer
            && d == r.(buffer := d.buffer, delivered := d.delivered)
  {
    var n := Min(len, |r.buffer|);
    assert r.buffer[..n] + r.buffer[n..] == r.buffer;
  }

  lemma ReadKeeps(irs: u32, peer: seq<byte>, r: Rx, len: nat)
    requires RxInv(irs, peer, r)
    ensures RxInv(irs, peer, ReadStep(r, len))
  {
    hide SeqAt;
    if !r.shutRd {
      var n := Min(len, |r.buffer|);
      assert (r.delivered + r.buffer[..n]) + r.buffer[n..] == r.delivered + r.buffer;
    }
  }

  // ---- runs ----

  datatype RxOp =
    | RxSegment(state: TcpState, seg: InSegment, at: nat)
    | RxRead(len: nat)
    | RxShut

  function RxApply(r: Rx, op: RxOp): Rx {
    match op
    case RxSegment(state, seg, _) => SegmentStep(r, state, seg)
    case RxRead(len) => ReadStep(r, len)
    case RxShut => ShutStep(r)
  }

  function RxRun(r: Rx, ops: seq<RxOp>): Rx
    decreases |ops|
  {
    if ops == [] then r else RxApply(RxRun(r, ops[..|ops| - 1]), ops[|ops| - 1])
  }

  /** Every arriving segment is empty or a piece of one peer stream, near the receiver's position when it arrives. */
  ghost predicate OneStream(irs: u32, peer: seq<byte>, r: Rx, ops: seq<RxOp>) {
    forall i :: 0 <= i < |ops| && ops[i].RxSegment? && !Empty(ops[i].seg) ==>
      CutFrom(irs, peer, ops[i].seg, ops[i].at) && Near(RxRun(r, ops[..i]), ops[i].seg, ops[i].at)
  }

  lemma {:induction false} RxRunKeeps(irs: u32, peer: seq<byte>, r: Rx, ops: seq<RxOp>)
    requires RxInv(irs, peer, r) && OneStream(irs, peer, r, ops)
    ensures RxInv(irs, peer, RxRun(r, ops))
    decreases |ops|
  {
    if ops != [] {
      hide RxInv, CutFrom, Near, SegmentStep, ReadStep;
      var init, op := ops[..|ops| - 1], ops[|ops| - 1];
      assert forall i :: 0 <= i < |init| ==> ops[..i] == init[..i];
      RxRunKeeps(irs, peer, r, init);
      match op {
        case RxSegment(state, seg, at) => SegmentKeeps(irs, peer, RxRun(r, init), state, seg, at);
        case RxRead(len) => ReadKeeps(irs, peer, RxRun(r, init), len);
        case RxShut => ShutKeeps(irs, peer, RxRun(r, init));
      }
    }
  }

  lemma ShutKeeps(irs: u32, peer: seq<byte>, r: Rx)
    requires RxInv(irs, peer, r)
    ensures RxInv(irs, peer, ShutStep(r))
  {
    hide SeqAt;
  }

  /** After SHUT_RD nothing is stored or delivered any more, whatever arrives and however often it is read. */
  lemma {:induction false} ShutForever(irs: u32, peer: seq<byte>, r: Rx, ops: seq<RxOp>)
    requires RxInv(irs, peer, r)
    ensures var d := RxRun(ShutStep(r), ops);
            d.shutRd && d.buffer == [] && d.delivered == r.delivered
    decreases |ops|
  {
    hide SeqAt, Add32;
    if ops != [] {
      ShutForever(irs, peer, r, ops[..|ops| - 1]);
    }
  }

  function FreshRx(irs: u32): Rx { Rx(SeqAt(irs, 0), 0, [], [], false, false) }

  /**
   * Whatever the network reorders, duplicates or loses: what the application has read followed by what the
   * ring holds is the peer's stream up to RCV.NXT, and end of file appears only after the last byte.
   */
  lemma ReceiveTheorem(irs: u32, peer: seq<byte>, ops: seq<RxOp>)
    requires OneStream(irs, peer, FreshRx(irs), ops)
    ensures var r := RxRun(FreshRx(irs), ops);
            && r.rcvNxt == SeqAt(irs, r.pos)
            && r.delivered <= peer
            && (!r.shutRd ==> r.delivered + r.buffer == peer[..Min(r.pos, |peer|)])
            && (r.eof ==> r.pos == |peer| + 1 && (!r.shutRd ==> r.delivered + r.buffer == peer))
  {
    hide SeqAt, RxApply;
    RxRunKeeps(irs, peer, FreshRx(irs), ops);
  }
}
