// What a receiver is sure to get: retransmission and reordering do no harm as long as the pieces of the stream come
// by once in order and fit.
module TcpDelivery {
  import opened SeqArith
  import opened TcpReceive

  /** The positions at which the sender cut its stream into segments. */
  ghost predicate Cuts(peer: seq<byte>, cuts: seq<nat>) {
    && cuts != [] && cuts[0] == 0 && cuts[|cuts| - 1] == |peer|
    && forall i, j :: 0 <= i < j < |cuts| ==> cuts[i] < cuts[j]
  }

  /**
   * What may happen to the receiver: reads, and segments of the stream at those cuts, in any order and any number of
   * times; `k` says which piece it is. The payload fits the ring.
   */
  ghost predicate PieceOk(irs: u32, peer: seq<byte>, cuts: seq<nat>, r: Rx, op: RxOp, k: nat) {
    match op
    case RxRead(_) => true
    case RxShut => false
    case RxSegment(_, seg, at) =>
      && (Empty(seg) || (CutFrom(irs, peer, seg, at) && Near(r, seg, at)))
      && (seg.payload != [] ==>
            && k + 1 < |cuts| && at == cuts[k] && at + |seg.payload| == cuts[k + 1]
            && |r.buffer| + |seg.payload| <= RX_CAPACITY)
  }

  /** The receiver after the first i steps. */
  function After(irs: u32, ops: seq<RxOp>, i: nat): Rx
    requires i <= |ops|
  {
    RxRun(FreshRx(irs), ops[..i])
  }

  ghost predicate AllPieces(irs: u32, peer: seq<byte>, cuts: seq<nat>, ops: seq<RxOp>, which: seq<nat>) {
    && |which| == |ops|
    && forall i :: 0 <= i < |ops| ==> PieceOk(irs, peer, cuts, After(irs, ops, i), ops[i], which[i])
  }

  predicate Heard(op: RxOp) { op.RxSegment? && Receiving(op.state) && !op.seg.rst }

  /** Step arrive[k] brings piece k, for every k in turn. */
  ghost predicate InOrder(cuts: seq<nat>, ops: seq<RxOp>, which: seq<nat>, arrive: seq<nat>) {
    && |arrive| + 1 == |cuts| && |which| == |ops|
    && (forall k :: 0 <= k < |arrive| ==> arrive[k] < |ops|)
    && (forall k :: 0 <= k < |arrive| ==>
          Heard(ops[arrive[k]]) && ops[arrive[k]].seg.payload != [] && which[arrive[k]] == k)
    && forall i, j :: 0 <= i < j < |arrive| ==> arrive[i] < arrive[j]
  }

  /** The receiver has what the cuts before its position hold, and nothing was discarded. */
  ghost predicate AtCut(irs: u32, peer: seq<byte>, cuts: seq<nat>, r: Rx) {
    && RxInv(irs, peer, r) && !r.shutRd
    && (r.pos == |peer| + 1 || exists j :: 0 <= j < |cuts| && cuts[j] == r.pos)
  }

  /** A segment leaves the receiver at a cut and never behind; piece k takes it past itself. */
  lemma SegmentAdvances(irs: u32, peer: seq<byte>, cuts: seq<nat>, r: Rx, op: RxOp, k: nat)
    requires Cuts(peer, cuts) && AtCut(irs, peer, cuts, r) && PieceOk(irs, peer, cuts, r, op, k)
    requires Heard(op) && !Empty(op.seg)
    ensures var d := RxApply(r, op);
            && AtCut(irs, peer, cuts, d) && r.pos <= d.pos && (r.eof ==> d.eof)
            && (op.seg.payload != [] && cuts[k] <= r.pos ==> cuts[k + 1] <= d.pos)
            && (op.seg.fin && (r.pos >= |peer| || (op.seg.payload != [] && cuts[k] <= r.pos)) ==> d.eof)
  {
    hide SeqAt, SegmentStep, Near;
    SegmentExactly(irs, peer, r, op.state, op.seg, op.at);
    SegmentKeeps(irs, peer, r, op.state, op.seg, op.at);
  }

  lemma StepAdvances(irs: u32, peer: seq<byte>, cuts: seq<nat>, r: Rx, op: RxOp, k: nat)
    requires Cuts(peer, cuts) && AtCut(irs, peer, cuts, r) && PieceOk(irs, peer, cuts, r, op, k)
    ensures var d := RxApply(r, op);
            AtCut(irs, peer, cuts, d) && r.pos <= d.pos && (r.eof ==> d.eof)
  {
    if Heard(op) && !Empty(op.seg) {
      SegmentAdvances(irs, peer, cuts, r, op, k);
    } else if op.RxRead? {
      ReadKeeps(irs, peer, r, op.len);
    } else if Empty(op.seg) {
      EmptyIgnored(r, op.state, op.seg);
    }
  }

  lemma PieceAt(irs: u32, peer: seq<byte>, cuts: seq<nat>, ops: seq<RxOp>, which: seq<nat>, i: nat)
    requires AllPieces(irs, peer, cuts, ops, which) && i < |ops|
    ensures i < |which| && PieceOk(irs, peer, cuts, After(irs, ops, i), ops[i], which[i])
    ensures After(irs, ops, i + 1) == RxApply(After(irs, ops, i), ops[i])
  {
    hide PieceOk, RxApply;
    assert ops[..i + 1][..i] == ops[..i];
  }

  lemma {:induction false} StaysAtCut(irs: u32, peer: seq<byte>, cuts: seq<nat>, ops: seq<RxOp>, which: seq<nat>,
          i: nat)
    requires Cuts(peer, cuts) && AllPieces(irs, peer, cuts, ops, which) && i <= |ops|
    ensures AtCut(irs, peer, cuts, After(irs, ops, i))
  {
    if i == 0 {
      assert cuts[0] == FreshRx(irs).pos;
    } else {
      hide AtCut, PieceOk, RxApply, Cuts, AllPieces, After;
      StaysAtCut(irs, peer, cuts, ops, which, i - 1);
      PieceAt(irs, peer, cuts, ops, which, i - 1);
      StepAdvances(irs, peer, cuts, After(irs, ops, i - 1), ops[i - 1], which[i - 1]);
    }
  }

  /** After step arrive[k - 1] the receiver stands at cut k or beyond. */
  lemma {:induction false} Reached(irs: u32, peer: seq<byte>, cuts: seq<nat>, ops: seq<RxOp>, which: seq<nat>,
          arrive: seq<nat>, i: nat, k: nat)
    requires Cuts(peer, cuts) && AllPieces(irs, peer, cuts, ops, which)
    requires InOrder(cuts, ops, which, arrive)
    requires i <= |ops| && k <= |arrive| && (k > 0 ==> arrive[k - 1] < i)
    ensures cuts[k] <= After(irs, ops, i).pos
    decreases i
  {
    hide AtCut, PieceOk, RxApply, AllPieces, After;
    if k > 0 {
      var r, op := After(irs, ops, i - 1), ops[i - 1];
      StaysAtCut(irs, peer, cuts, ops, which, i - 1);
      PieceAt(irs, peer, cuts, ops, which, i - 1);
      if arrive[k - 1] < i - 1 {
        Reached(irs, peer, cuts, ops, which, arrive, i - 1, k);
        StepAdvances(irs, peer, cuts, r, op, which[i - 1]);
      } else {
        Reached(irs, peer, cuts, ops, which, arrive, i - 1, k - 1);
        SegmentAdvances(irs, peer, cuts, r, op, k - 1);
      }
    }
  }

  /** End of file stays. */
  lemma {:induction false} EofStays(irs: u32, peer: seq<byte>, cuts: seq<nat>, ops: seq<RxOp>, which: seq<nat>,
          i: nat, j: nat)
    requires Cuts(peer, cuts) && AllPieces(irs, peer, cuts, ops, which) && i <= j <= |ops|
    requires After(irs, ops, i).eof
    ensures After(irs, ops, j).eof
    decreases j
  {
    hide AtCut, PieceOk, RxApply, Cuts, AllPieces, After;
    if i < j {
      EofStays(irs, peer, cuts, ops, which, i, j - 1);
      StaysAtCut(irs, peer, cuts, ops, which, j - 1);
      PieceAt(irs, peer, cuts, ops, which, j - 1);
      StepAdvances(irs, peer, cuts, After(irs, ops, j - 1), ops[j - 1], which[j - 1]);
    }
  }

  /** Once every piece has come by in order, however much else came between, the whole stream is there. */
  lemma DeliveryTheorem(irs: u32, peer: seq<byte>, cuts: seq<nat>, ops: seq<RxOp>, which: seq<nat>,
          arrive: seq<nat>)
    requires Cuts(peer, cuts) && AllPieces(irs, peer, cuts, ops, which)
    requires InOrder(cuts, ops, which, arrive)
    ensures var r := RxRun(FreshRx(irs), ops);
            r.delivered + r.buffer == peer
  {
    hide InOrder, AllPieces, SeqAt, RxApply;
    assert ops[..|ops|] == ops;
    InOrderSize(cuts, ops, which, arrive);
    StaysAtCut(irs, peer, cuts, ops, which, |ops|);
    Reached(irs, peer, cuts, ops, which, arrive, |ops|, |arrive|);
  }

  lemma InOrderSize(cuts: seq<nat>, ops: seq<RxOp>, which: seq<nat>, arrive: seq<nat>)
    requires InOrder(cuts, ops, which, arrive)
    ensures |arrive| + 1 == |cuts| && forall k :: 0 <= k < |arrive| ==> arrive[k] < |ops|
  {}

  lemma FinTaken(irs: u32, peer: seq<byte>, cuts: seq<nat>, ops: seq<RxOp>, which: seq<nat>, arrive: seq<nat>,
          f: nat)
    requires Cuts(peer, cuts) && AllPieces(irs, peer, cuts, ops, which)
    requires InOrder(cuts, ops, which, arrive)
    requires f < |ops| && Heard(ops[f]) && ops[f].seg.fin && forall k :: 0 <= k < |arrive| ==> arrive[k] <= f
    ensures After(irs, ops, f + 1).eof
  {
    hide AtCut, RxApply, After, AllPieces, CutFrom, Near;
    var n := |arrive|;
    StaysAtCut(irs, peer, cuts, ops, which, f);
    PieceAt(irs, peer, cuts, ops, which, f);
    if n > 0 && arrive[n - 1] == f {
      Reached(irs, peer, cuts, ops, which, arrive, f, n - 1);
    } else {
      Reached(irs, peer, cuts, ops, which, arrive, f, n);
    }
    SegmentAdvances(irs, peer, cuts, After(irs, ops, f), ops[f], which[f]);
  }

  /** And end of file, once a FIN has come by with or after the last piece. */
  lemma FinDelivered(irs: u32, peer: seq<byte>, cuts: seq<nat>, ops: seq<RxOp>, which: seq<nat>, arrive: seq<nat>,
          f: nat)
    requires Cuts(peer, cuts) && AllPieces(irs, peer, cuts, ops, which)
    requires InOrder(cuts, ops, which, arrive)
    requires f < |ops| && Heard(ops[f]) && ops[f].seg.fin && forall k :: 0 <= k < |arrive| ==> arrive[k] <= f
    ensures RxRun(FreshRx(irs), ops).eof
  {
    hide Cuts, AllPieces, InOrder, RxApply, RxRun;
    FinTaken(irs, peer, cuts, ops, which, arrive, f);
    assert ops[..|ops|] == ops;
    EofStays(irs, peer, cuts, ops, which, f + 1, |ops|);
  }
}
