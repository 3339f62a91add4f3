// The heap and the bytes in it over whole runs: what an owner stores stays until the block is freed
// (src/kernel/heap.c).
module HeapRuns {
  import opened SeqArith
  import opened HeapBlocks
  import opened Heap

  datatype Store = Store(row: Row, bytes: Bytes)

  /** A step of the allocator, or the owner of live block i storing a byte of its payload. */
  datatype Op = Alter(step: Step) | Poke(i: nat, offset: nat, value: byte)

  /** What the allocator itself writes: a header where a block begins, poison over a payload taken back. */
  function StepBytes(r: Row, m: Bytes, s: Step): Bytes {
    match s
    case Taking(i, size) => if i < |r.blocks| && Fits(r.blocks[i], size) then TakeBytes(m, r.blocks[i], size) else m
    case Growing(added) =>
      if added < HEADER || (r.blocks != [] && r.blocks[|r.blocks| - 1].free) then m else Clear(m, r.end)
    case Releasing(i) =>
      if i < |r.blocks| && !r.blocks[i].free then Poisoned(m, r.blocks[i].Payload(), r.blocks[i].size) else m
  }

  predicate Owns(s: Store, op: Op) {
    op.Poke? && op.i < |s.row.blocks| && !s.row.blocks[op.i].free && op.offset < s.row.blocks[op.i].size
  }

  function Play(s: Store, op: Op): Store {
    match op
    case Alter(step) => Store(Apply(s.row, step), StepBytes(s.row, s.bytes, step))
    case Poke(i, offset, value) =>
      if Owns(s, op) then s.(bytes := s.bytes[s.row.blocks[i].Payload() + offset := value]) else s
  }

  function PlayAll(s: Store, ops: seq<Op>): Store
    decreases |ops|
  {
    if ops == [] then s else Play(PlayAll(s, ops[..|ops| - 1]), ops[|ops| - 1])
  }

  /** The operation stores into block b. */
  predicate Touches(s: Store, op: Op, b: Block) { Owns(s, op) && s.row.blocks[op.i] == b }

  lemma {:induction false} PlayKeeps(s: Store, lo: nat, ops: seq<Op>)
    requires RowOk(s.row, lo)
    ensures RowOk(PlayAll(s, ops).row, lo)
    decreases |ops|
  {
    hide RowOk, Apply, StepBytes;
    if ops != [] {
      var t := PlayAll(s, ops[..|ops| - 1]);
      PlayKeeps(s, lo, ops[..|ops| - 1]);
      if ops[|ops| - 1].Alter? {
        HeapBlocks.ApplyKeeps(t.row, lo, ops[|ops| - 1].step);
      }
    }
  }

  /** A step changes no byte of a block that is live before and after, unless its owner stores there. */
  lemma PlayData(s: Store, lo: nat, op: Op, b: Block)
    requires RowOk(s.row, lo) && b in Live(s.row.blocks) && b in Live(Play(s, op).row.blocks) && !Touches(s, op, b)
    ensures SameData(s.bytes, Play(s, op).bytes, b)
  {
    hide Tiled, Coalesced, SameData;
    Unchanged(s.bytes, Live(s.row.blocks));
    match op {
      case Alter(step) => StepData(s, lo, step, b);
      case Poke(i, offset, value) =>
        if Owns(s, op) {
          PokeData(s, lo, op, b);
        }
    }
  }

  lemma StepData(s: Store, lo: nat, step: Step, b: Block)
    requires RowOk(s.row, lo) && b in Live(s.row.blocks) && b in Live(Apply(s.row, step).blocks)
    ensures SameData(s.bytes, StepBytes(s.row, s.bytes, step), b)
  {
    hide Tiled, Coalesced, SameData, Live, Allocate, Grow, Release, TakeBytes, Clear, Poisoned;
    var bs := s.row.blocks;
    Unchanged(s.bytes, Live(bs));
    match step {
      case Taking(i, size) =>
        if i < |bs| && Fits(bs[i], size) {
          TakeData(s.bytes, bs, lo, s.row.end, i, size);
        }
      case Growing(added) => GrowData(s.bytes, bs, lo, s.row.end);
      case Releasing(i) =>
        if i < |bs| && !bs[i].free {
          ReleaseLive(bs, lo, s.row.end, i);
          PoisonData(s.bytes, bs, lo, s.row.end, i);
        }
    }
  }

  lemma PokeData(s: Store, lo: nat, op: Op, b: Block)
    requires RowOk(s.row, lo) && b in Live(s.row.blocks) && Owns(s, op) && !Touches(s, op, b)
    ensures SameData(s.bytes, Play(s, op).bytes, b)
  {
    hide Tiled, Coalesced;
    LiveIn(s.row.blocks, b);
    PayloadsDisjoint(s.row.blocks, lo, s.row.end, b, s.row.blocks[op.i]);
  }

  /** Block b is live throughout the run and the run never stores into it. */
  ghost predicate Undisturbed(s: Store, ops: seq<Op>, b: Block) {
    && (forall k :: 0 <= k <= |ops| ==> b in Live(PlayAll(s, ops[..k]).row.blocks))
    && (forall k :: 0 <= k < |ops| ==> !Touches(PlayAll(s, ops[..k]), ops[k], b))
  }

  /**
   * Through every run, whatever others allocate, free, store and let the heap grow, the payload of a block reads the
   * same as long as it stays live and its owner does not store into it.
   */
  lemma {:induction false} PayloadTheorem(s: Store, lo: nat, ops: seq<Op>, b: Block)
    requires RowOk(s.row, lo) && Undisturbed(s, ops, b)
    ensures SameData(s.bytes, PlayAll(s, ops).bytes, b)
    decreases |ops|
  {
    hide RowOk, Live, Play, Touches;
    assert ops[..|ops|] == ops;
    if ops != [] {
      var prefix := ops[..|ops| - 1];
      forall k | 0 <= k <= |prefix|
        ensures prefix[..k] == ops[..k]
      {}
      PayloadTheorem(s, lo, prefix, b);
      PlayKeeps(s, lo, prefix);
      PlayData(PlayAll(s, prefix), lo, ops[|ops| - 1], b);
    }
  }

  /** So a byte the owner of block i stored is the byte it reads after any such run. */
  lemma ReadsBack(s: Store, lo: nat, i: nat, offset: nat, value: byte, ops: seq<Op>, b: Block)
    requires RowOk(s.row, lo) && Owns(s, Poke(i, offset, value)) && b == s.row.blocks[i]
    requires Undisturbed(Play(s, Poke(i, offset, value)), ops, b)
    ensures var m, x := PlayAll(Play(s, Poke(i, offset, value)), ops).bytes, b.Payload() + offset;
            x in m && m[x] == value
  {
    hide PlayAll, RowOk, Undisturbed, StepBytes, Apply;
    PayloadTheorem(Play(s, Poke(i, offset, value)), lo, ops, b);
  }
}
