// The kernel heap as a row of blocks (src/kernel/heap.c): first fit, split, coalesce and expand.
module HeapBlocks {

  const HEADER: nat := 40
  const MIN_SPLIT: nat := 32

  /** A block at `addr`: a header of 40 bytes and then `size` bytes of payload. */
  datatype Block = Block(addr: nat, size: nat, free: bool) {
    function Payload(): nat { addr + HEADER }

    function End(): nat { addr + HEADER + size }
  }

  type Blocks = seq<Block>

  /** The blocks fill lo .. hi without gap or overlap, in address order. */
  ghost predicate Tiled(bs: Blocks, lo: nat, hi: nat) {
    && (bs == [] ==> lo == hi)
    && (bs != [] ==> bs[0].addr == lo && bs[|bs| - 1].End() == hi)
    && forall i :: 0 <= i < |bs| - 1 ==> bs[i + 1].addr == bs[i].End()
  }

  /** No two neighbours are both free. */
  ghost predicate Coalesced(bs: Blocks) {
    forall i :: 0 <= i < |bs| - 1 ==> !(bs[i].free && bs[i + 1].free)
  }

  /** Later blocks lie beyond earlier ones, so no header or payload overlaps another. */
  lemma {:induction false} Apart(bs: Blocks, lo: nat, hi: nat, i: nat, j: nat)
    requires Tiled(bs, lo, hi) && i < j < |bs|
    ensures bs[i].End() <= bs[j].addr
    decreases j
  {
    if i + 1 < j {
      Apart(bs, lo, hi, i, j - 1);
    }
    assert bs[(j - 1) + 1].addr == bs[j - 1].End();
  }

  lemma InRange(bs: Blocks, lo: nat, hi: nat, i: nat)
    requires Tiled(bs, lo, hi) && i < |bs|
    ensures lo <= bs[i].addr && bs[i].End() <= hi
  {
    if i > 0 {
      Apart(bs, lo, hi, 0, i);
    }
    if i < |bs| - 1 {
      Apart(bs, lo, hi, i, |bs| - 1);
    }
  }

  /** A block is told from every other by its address. */
  lemma SameAddress(bs: Blocks, lo: nat, hi: nat, i: nat, j: nat)
    requires Tiled(bs, lo, hi) && i < |bs| && j < |bs| && bs[i].addr == bs[j].addr
    ensures i == j
  {
    if i < j {
      Apart(bs, lo, hi, i, j);
    } else if j < i {
      Apart(bs, lo, hi, j, i);
    }
  }

  // ---- allocation ----

  predicate Fits(b: Block, size: nat) { b.free && b.size >= size }

  predicate Splits(b: Block, size: nat) { b.size >= size + HEADER + MIN_SPLIT }

  /** The free block i is taken for `size` bytes; what is left over, if enough, stays free behind it. */
  function Allocate(bs: Blocks, i: nat, size: nat): Blocks
    requires i < |bs|
  {
    var b := bs[i];
    if Splits(b, size) then
      bs[..i] + [Block(b.addr, size, false), Block(b.addr + HEADER + size, b.size - size - HEADER, true)] + bs[i + 1..]
    else
      bs[i := b.(free := false)]
  }

  lemma AllocateKeeps(bs: Blocks, lo: nat, hi: nat, i: nat, size: nat)
    requires Tiled(bs, lo, hi) && Coalesced(bs) && i < |bs| && Fits(bs[i], size)
    ensures Tiled(Allocate(bs, i, size), lo, hi) && Coalesced(Allocate(bs, i, size))
    ensures var c := Allocate(bs, i, size);
            i < |c| && c[i].addr == bs[i].addr && !c[i].free && size <= c[i].size < size + HEADER + MIN_SPLIT
  {
    var b, c := bs[i], Allocate(bs, i, size);
    if Splits(b, size) {
      assert forall k :: 0 <= k < i ==> c[k] == bs[k];
      assert forall k :: i + 2 <= k < |c| ==> c[k] == bs[k - 1];
      forall k | 0 <= k < |c| - 1
        ensures c[k + 1].addr == c[k].End() && !(c[k].free && c[k + 1].free)
      {
        if k < i {
          assert bs[k + 1].addr == bs[k].End();
        } else if k == i + 1 {
          assert bs[i + 1].addr == bs[i].End();
        } else if k > i + 1 {
          assert bs[(k - 1) + 1].addr == bs[k - 1].End();
        }
      }
    }
  }

  // ---- growing ----

  /** `added` bytes join the end: the last block grows if it is free, else a free block is appended. */
  function Grow(bs: Blocks, hi: nat, added: nat): Blocks
    requires added >= HEADER
  {
    if bs != [] && bs[|bs| - 1].free then
      bs[|bs| - 1 := bs[|bs| - 1].(size := bs[|bs| - 1].size + added)]
    else
      bs + [Block(hi, added - HEADER, true)]
  }

  lemma GrowKeeps(bs: Blocks, lo: nat, hi: nat, added: nat)
    requires Tiled(bs, lo, hi) && Coalesced(bs) && added >= HEADER
    ensures Tiled(Grow(bs, hi, added), lo, hi + added) && Coalesced(Grow(bs, hi, added))
    ensures var c := Grow(bs, hi, added); c != [] && c[|c| - 1].free && c[|c| - 1].size + HEADER >= added
    ensures forall k :: 0 <= k < |bs| && !bs[k].free ==> Grow(bs, hi, added)[k] == bs[k]
  {}

  // ---- release ----

  /** Block i swallows block i + 1. */
  function Merge(bs: Blocks, i: nat): Blocks
    requires i + 1 < |bs|
  {
    bs[..i] + [bs[i].(size := bs[i].size + HEADER + bs[i + 1].size)] + bs[i + 2..]
  }

  /** heap_coalesce at block i: swallow a free successor, then let a free predecessor do the same. */
  function Coalesce(bs: Blocks, i: nat): Blocks
    requires i < |bs|
    decreases i
  {
    var c := if i + 1 < |bs| && bs[i + 1].free then Merge(bs, i) else bs;
    if i > 0 && c[i - 1].free then Coalesce(c, i - 1) else c
  }

  function Release(bs: Blocks, i: nat): Blocks
    requires i < |bs|
  {
    Coalesce(bs[i := bs[i].(free := true)], i)
  }

  /** At most one pair of neighbours around block i may both be free. */
  ghost predicate CoalescedBut(bs: Blocks, i: nat) {
    forall k :: 0 <= k < |bs| - 1 && k != i && k + 1 != i ==> !(bs[k].free && bs[k + 1].free)
  }

  lemma MergeKeeps(bs: Blocks, lo: nat, hi: nat, i: nat)
    requires Tiled(bs, lo, hi) && i + 1 < |bs| && bs[i].free && bs[i + 1].free && CoalescedBut(bs, i)
    ensures Tiled(Merge(bs, i), lo, hi) && CoalescedBut(Merge(bs, i), i)
    ensures i + 1 < |Merge(bs, i)| ==> !Merge(bs, i)[i + 1].free
    ensures |Merge(bs, i)| == |bs| - 1 && Merge(bs, i)[i].free
  {
    var c := Merge(bs, i);
    assert forall k :: 0 <= k < i ==> c[k] == bs[k];
    assert forall k :: i < k < |c| ==> c[k] == bs[k + 1];
    assert bs[i + 1].addr == bs[i].End();
    assert i + 2 < |bs| ==> bs[(i + 1) + 1].addr == bs[i + 1].End();
    forall k | 0 <= k < |c| - 1
      ensures c[k + 1].addr == c[k].End()
    {
      if k < i {
        assert bs[k + 1].addr == bs[k].End();
      } else if k > i {
        assert bs[(k + 1) + 1].addr == bs[k + 1].End();
      }
    }
  }

  /** Once block i has no free successor, only the pair before it can still be open. */
  lemma OpenPair(c: Blocks, i: nat)
    requires i < |c| && CoalescedBut(c, i) && (i + 1 < |c| ==> !c[i + 1].free)
    ensures i > 0 ==> CoalescedBut(c, i - 1)
    ensures i == 0 || !c[i - 1].free ==> Coalesced(c)
  {}

  lemma {:induction false} CoalesceKeeps(bs: Blocks, lo: nat, hi: nat, i: nat)
    requires Tiled(bs, lo, hi) && i < |bs| && bs[i].free && CoalescedBut(bs, i)
    ensures Tiled(Coalesce(bs, i), lo, hi) && Coalesced(Coalesce(bs, i))
    decreases i
  {
    hide Merge, Tiled, Coalesced, CoalescedBut;
    var c := bs;
    if i + 1 < |bs| && bs[i + 1].free {
      MergeKeeps(bs, lo, hi, i);
      c := Merge(bs, i);
    }
    OpenPair(c, i);
    if i > 0 && c[i - 1].free {
      CoalesceKeeps(c, lo, hi, i - 1);
    }
  }

  lemma ReleaseKeeps(bs: Blocks, lo: nat, hi: nat, i: nat)
    requires Tiled(bs, lo, hi) && Coalesced(bs) && i < |bs|
    ensures Tiled(Release(bs, i), lo, hi) && Coalesced(Release(bs, i))
  {
    CoalesceKeeps(bs[i := bs[i].(free := true)], lo, hi, i);
  }

  // ---- live blocks ----

  function Live(bs: Blocks): set<Block> { set b | b in bs && !b.free }

  lemma MergeLive(bs: Blocks, i: nat)
    requires i + 1 < |bs| && bs[i].free && bs[i + 1].free
    ensures Live(Merge(bs, i)) == Live(bs)
  {
    var c := Merge(bs, i);
    forall b
      ensures b in c && !b.free <==> b in bs && !b.free
    {
      if b in bs && !b.free {
        var k :| 0 <= k < |bs| && bs[k] == b;
        assert if k < i then c[k] == b else c[k - 1] == b;
      }
    }
  }

  lemma {:induction false} CoalesceLive(bs: Blocks, i: nat)
    requires i < |bs| && bs[i].free
    ensures Live(Coalesce(bs, i)) == Live(bs)
    decreases i
  {
    var c := bs;
    if i + 1 < |bs| && bs[i + 1].free {
      MergeLive(bs, i);
      c := Merge(bs, i);
    }
    if i > 0 && c[i - 1].free {
      CoalesceLive(c, i - 1);
    }
  }

  /** Releasing a block ends exactly that allocation. */
  lemma ReleaseLive(bs: Blocks, lo: nat, hi: nat, i: nat)
    requires Tiled(bs, lo, hi) && i < |bs|
    ensures Live(Release(bs, i)) == Live(bs) - {bs[i]}
  {
    var c := bs[i := bs[i].(free := true)];
    CoalesceLive(c, i);
    forall b
      ensures b in Live(c) <==> b in Live(bs) - {bs[i]}
    {
      if b in bs && !b.free && b != bs[i] {
        var k :| 0 <= k < |bs| && bs[k] == b;
        assert c[k] == b;
      }
      if b in c && !b.free {
        var k :| 0 <= k < |c| && c[k] == b;
        if b == bs[i] {
          SameAddress(bs, lo, hi, k, i);
        }
        assert bs[k] == b;
      }
    }
  }

  /** Allocating adds exactly one live block. */
  lemma AllocateLive(bs: Blocks, i: nat, size: nat)
    requires i < |bs| && Fits(bs[i], size)
    ensures var c := Allocate(bs, i, size); i < |c| && Live(c) == Live(bs) + {c[i]}
  {
    var c := Allocate(bs, i, size);
    forall b
      ensures b in Live(c) <==> b in Live(bs) + {c[i]}
    {
      if b in bs && !b.free {
        var k :| 0 <= k < |bs| && bs[k] == b;
        assert if k < i then c[k] == b else if Splits(bs[i], size) then c[k + 1] == b else c[k] == b;
      }
      if b in c && !b.free {
        var k :| 0 <= k < |c| && c[k] == b;
        assert k == i || (if k < i || !Splits(bs[i], size) then bs[k] == b else bs[k - 1] == b);
      }
    }
  }

  lemma GrowLive(bs: Blocks, hi: nat, added: nat)
    requires added >= HEADER
    ensures Live(Grow(bs, hi, added)) == Live(bs)
  {
    var c := Grow(bs, hi, added);
    forall b
      ensures b in Live(c) <==> b in Live(bs)
    {
      if b in bs && !b.free {
        var k :| 0 <= k < |bs| && bs[k] == b;
        assert c[k] == b;
      }
      if b in c && !b.free {
        var k :| 0 <= k < |c| && c[k] == b;
        assert k < |bs| && bs[k] == b;
      }
    }
  }

  /** When everything has been released one free block is left. */
  lemma AllReleased(bs: Blocks, lo: nat, hi: nat)
    requires Tiled(bs, lo, hi) && Coalesced(bs) && Live(bs) == {} && bs != []
    ensures |bs| == 1 && bs[0].free && bs[0].addr == lo && bs[0].End() == hi
  {
    assert |bs| > 1 ==> !(bs[0].free && bs[0 + 1].free);
    forall k | 0 <= k < |bs|
      ensures bs[k].free
    {
      assert bs[k] in Live(bs) <==> !bs[k].free;
    }
  }

  /** Payloads of different live blocks share no byte. */
  lemma PayloadsDisjoint(bs: Blocks, lo: nat, hi: nat, a: Block, b: Block)
    requires Tiled(bs, lo, hi) && a in bs && b in bs && a != b
    ensures a.End() <= b.addr || b.End() <= a.addr
  {
    var i :| 0 <= i < |bs| && bs[i] == a;
    var j :| 0 <= j < |bs| && bs[j] == b;
    if i < j {
      Apart(bs, lo, hi, i, j);
    } else {
      Apart(bs, lo, hi, j, i);
    }
  }

  // ---- whole runs ----

  /** What a caller or kmalloc itself can do to the blocks; a step that does not apply changes nothing. */
  datatype Step = Taking(i: nat, size: nat) | Growing(added: nat) | Releasing(i: nat)

  datatype Row = Row(blocks: Blocks, end: nat)

  function Apply(r: Row, s: Step): Row {
    match s
    case Taking(i, size) =>
      if i < |r.blocks| && Fits(r.blocks[i], size) then r.(blocks := Allocate(r.blocks, i, size)) else r
    case Growing(added) => if added >= HEADER then Row(Grow(r.blocks, r.end, added), r.end + added) else r
    case Releasing(i) => if i < |r.blocks| && !r.blocks[i].free then r.(blocks := Release(r.blocks, i)) else r
  }

  function Run(r: Row, steps: seq<Step>): Row
    decreases |steps|
  {
    if steps == [] then r else Run(Apply(r, steps[0]), steps[1..])
  }

  ghost predicate RowOk(r: Row, lo: nat) { Tiled(r.blocks, lo, r.end) && Coalesced(r.blocks) }

  lemma ApplyKeeps(r: Row, lo: nat, s: Step)
    requires RowOk(r, lo)
    ensures RowOk(Apply(r, s), lo)
  {
    hide Tiled, Coalesced, Allocate, Grow, Release;
    match s {
      case Taking(i, size) =>
        if i < |r.blocks| && Fits(r.blocks[i], size) {
          AllocateKeeps(r.blocks, lo, r.end, i, size);
        }
      case Growing(added) =>
        if added >= HEADER {
          GrowKeeps(r.blocks, lo, r.end, added);
        }
      case Releasing(i) =>
        if i < |r.blocks| && !r.blocks[i].free {
          ReleaseKeeps(r.blocks, lo, r.end, i);
        }
    }
  }

  /** Through any run from the empty heap the blocks fill the heap and no two free ones touch. */
  lemma {:induction false} RunKeeps(r: Row, lo: nat, steps: seq<Step>)
    requires RowOk(r, lo)
    ensures RowOk(Run(r, steps), lo)
    decreases |steps|
  {
    hide RowOk, Apply;
    if steps != [] {
      ApplyKeeps(r, lo, steps[0]);
      RunKeeps(Apply(r, steps[0]), lo, steps[1..]);
    }
  }

  /** Live payloads never overlap in any run, and a run that ends with nothing live leaves one free block. */
  lemma HeapTheorem(lo: nat, steps: seq<Step>)
    ensures var r := Run(Row([], lo), steps);
            && (forall a, b :: a in Live(r.blocks) && b in Live(r.blocks) && a != b ==>
               a.End() <= b.addr || b.End() <= a.addr)
            && (Live(r.blocks) == {} && r.blocks != [] ==>
               |r.blocks| == 1 && r.blocks[0].free && r.blocks[0].addr == lo && r.blocks[0].End() == r.end)
  {
    hide Tiled, Coalesced, Run, Live;
    assert RowOk(Row([], lo), lo) by { Empty(lo); }
    RunKeeps(Row([], lo), lo, steps);
    var r := Run(Row([], lo), steps);
    forall a, b | a in Live(r.blocks) && b in Live(r.blocks) && a != b
      ensures a.End() <= b.addr || b.End() <= a.addr
    {
      LiveIn(r.blocks, a);
      LiveIn(r.blocks, b);
      PayloadsDisjoint(r.blocks, lo, r.end, a, b);
    }
    if Live(r.blocks) == {} && r.blocks != [] {
      AllReleased(r.blocks, lo, r.end);
    }
  }

  lemma Empty(lo: nat)
    ensures RowOk(Row([], lo), lo)
  {}

  lemma LiveIn(bs: Blocks, b: Block)
    requires b in Live(bs)
    ensures b in bs && !b.free
  {}
}
