// The heap's block list in memory: headers found by address, chained both ways.
module HeapLinks {
  import opened HeapBlocks

  datatype Magic = Allocated | Freed | Corrupt

  datatype Header = Header(magic: Magic, size: nat, free: bool, next: nat, prev: nat)

  type Headers = map<nat, Header>

  /** Address of block i, and 0 (NULL) beyond either end. */
  function AddrAt(bs: Blocks, i: int): nat { if 0 <= i < |bs| then bs[i].addr else 0 }

  function HeaderOf(bs: Blocks, i: nat): Header
    requires i < |bs|
  {
    Header(if bs[i].free then Freed else Allocated, bs[i].size, bs[i].free, AddrAt(bs, i + 1), AddrAt(bs, i - 1))
  }

  /** Memory holds the header of every block, and following next or prev visits the blocks in order. */
  ghost predicate Linked(h: Headers, head: nat, bs: Blocks) {
    head == AddrAt(bs, 0) && forall i :: 0 <= i < |bs| ==> LinkedAt(h, bs, i)
  }

  ghost predicate LinkedAt(h: Headers, bs: Blocks, i: nat)
    requires i < |bs|
  {
    bs[i].addr in h && h[bs[i].addr] == HeaderOf(bs, i)
  }

  /** The list can be walked: no block lies at NULL. */
  ghost predicate Chained(h: Headers, head: nat, bs: Blocks) {
    Linked(h, head, bs) && forall i :: 0 <= i < |bs| ==> bs[i].addr != 0
  }

  lemma ChainedAt(h: Headers, head: nat, bs: Blocks, i: nat)
    requires Chained(h, head, bs) && i < |bs|
    ensures bs[i].addr in h && h[bs[i].addr] == HeaderOf(bs, i) && bs[i].addr != 0
    ensures i + 1 < |bs| ==> bs[i + 1].addr != 0 && bs[i + 1].addr in h
    ensures head == AddrAt(bs, 0) != 0
  {
    assert LinkedAt(h, bs, i);
    if i + 1 < |bs| {
      assert LinkedAt(h, bs, i + 1);
    }
  }

  // ---- changes to one block ----

  function Mark(bs: Blocks, i: nat, free: bool): Blocks
    requires i < |bs|
  {
    bs[i := bs[i].(free := free)]
  }

  function MarkHeaders(h: Headers, a: nat, free: bool): Headers
    requires a in h
  {
    h[a := h[a].(magic := if free then Freed else Allocated, free := free)]
  }

  lemma LinkMark(h: Headers, head: nat, bs: Blocks, lo: nat, hi: nat, i: nat, free: bool)
    requires Linked(h, head, bs) && Tiled(bs, lo, hi) && i < |bs|
    ensures LinkedAt(h, bs, i) && Linked(MarkHeaders(h, bs[i].addr, free), head, Mark(bs, i, free))
  {
    hide Tiled;
    assert LinkedAt(h, bs, i);
    var g, c := MarkHeaders(h, bs[i].addr, free), Mark(bs, i, free);
    forall k | 0 <= k < |c|
      ensures LinkedAt(g, c, k)
    {
      assert LinkedAt(h, bs, k);
      if k != i && bs[k].addr == bs[i].addr {
        SameAddress(bs, lo, hi, k, i);
      }
    }
  }

  // ---- splitting ----

  /** Block i gives up what lies beyond `size` bytes to a new free block behind it. */
  function SplitAt(bs: Blocks, i: nat, size: nat): Blocks
    requires i < |bs| && Splits(bs[i], size)
  {
    var b := bs[i];
    bs[..i] + [b.(size := size), Block(b.addr + HEADER + size, b.size - size - HEADER, true)] + bs[i + 1..]
  }

  lemma SplitThenMark(bs: Blocks, i: nat, size: nat)
    requires i < |bs| && Splits(bs[i], size)
    ensures Mark(SplitAt(bs, i, size), i, false) == Allocate(bs, i, size)
  {}

  lemma SplitTiled(bs: Blocks, lo: nat, hi: nat, i: nat, size: nat)
    requires Tiled(bs, lo, hi) && i < |bs| && Splits(bs[i], size)
    ensures Tiled(SplitAt(bs, i, size), lo, hi)
  {
    var c := SplitAt(bs, i, size);
    assert forall k :: 0 <= k < i ==> c[k] == bs[k];
    assert forall k :: i + 2 <= k < |c| ==> c[k] == bs[k - 1];
    forall k | 0 <= k < |c| - 1
      ensures c[k + 1].addr == c[k].End()
    {
      if k < i {
        assert bs[k + 1].addr == bs[k].End();
      } else if k == i + 1 {
        assert bs[i + 1].addr == bs[i].End();
      } else if k > i + 1 {
        assert bs[(k - 1) + 1].addr == bs[k - 1].End();
      }
    }
  }

  /** The header writes of heap_split_block on the block at a, the new header going to n. */
  function SplitHeaders(h: Headers, a: nat, size: nat, n: nat): Headers {
    if a !in h || h[a].size < size + HEADER then h else
    var nx := h[a].next;
    var g := h[n := Header(Freed, h[a].size - size - HEADER, true, nx, a)];
    var g' := if nx != 0 && nx in g then g[nx := g[nx].(prev := n)] else g;
    g'[a := h[a].(size := size, next := n)]
  }

  lemma SplitAddrs(bs: Blocks, lo: nat, hi: nat, i: nat, size: nat, k: nat)
    requires Tiled(bs, lo, hi) && i < |bs| && Splits(bs[i], size) && k < |bs| && k != i
    ensures bs[k].addr != bs[i].addr && bs[k].addr != bs[i].addr + HEADER + size
    ensures k == i + 1 || bs[k].addr != AddrAt(bs, i + 1) || i + 1 == |bs|
  {
    if k < i {
      Apart(bs, lo, hi, k, i);
      if i + 1 < |bs| {
        Apart(bs, lo, hi, k, i + 1);
      }
    } else {
      Apart(bs, lo, hi, i, k);
      if k > i + 1 {
        Apart(bs, lo, hi, i + 1, k);
      }
    }
  }

  lemma LinkSplitAt(h: Headers, head: nat, bs: Blocks, lo: nat, hi: nat, i: nat, size: nat, k: nat)
    requires Linked(h, head, bs) && Tiled(bs, lo, hi) && lo > 0 && i < |bs| && Splits(bs[i], size)
    requires LinkedAt(h, bs, i) && (i + 1 < |bs| ==> LinkedAt(h, bs, i + 1))
    requires k < |SplitAt(bs, i, size)|
    ensures LinkedAt(SplitHeaders(h, bs[i].addr, size, bs[i].addr + HEADER + size), SplitAt(bs, i, size), k)
  {
    hide Tiled, Linked;
    var c := SplitAt(bs, i, size);
    if i + 1 < |bs| {
      SplitAddrs(bs, lo, hi, i, size, i + 1);
      InRange(bs, lo, hi, i + 1);
    }
    if k < i || k > i + 1 {
      var j := if k < i then k else k - 1;
      assert c[k] == bs[j];
      assert LinkedAt(h, bs, j) by { LinkedPart(h, head, bs, j); }
      SplitAddrs(bs, lo, hi, i, size, j);
    }
  }

  lemma LinkedPart(h: Headers, head: nat, bs: Blocks, i: nat)
    requires Linked(h, head, bs) && i < |bs|
    ensures LinkedAt(h, bs, i)
  {}

  lemma LinkSplit(h: Headers, head: nat, bs: Blocks, lo: nat, hi: nat, i: nat, size: nat)
    requires Linked(h, head, bs) && Tiled(bs, lo, hi) && lo > 0 && i < |bs| && Splits(bs[i], size)
    ensures LinkedAt(h, bs, i) && (i + 1 < |bs| ==> LinkedAt(h, bs, i + 1))
    ensures Linked(SplitHeaders(h, bs[i].addr, size, bs[i].addr + HEADER + size), head, SplitAt(bs, i, size))
  {
    hide Tiled, SplitHeaders, HeaderOf;
    LinkedPart(h, head, bs, i);
    if i + 1 < |bs| {
      LinkedPart(h, head, bs, i + 1);
    }
    var c, g := SplitAt(bs, i, size), SplitHeaders(h, bs[i].addr, size, bs[i].addr + HEADER + size);
    forall k | 0 <= k < |c|
      ensures LinkedAt(g, c, k)
    {
      LinkSplitAt(h, head, bs, lo, hi, i, size, k);
    }
  }

  // ---- merging ----

  /** The header writes by which the block at a swallows its successor. */
  function MergeHeaders(h: Headers, a: nat): Headers {
    if a !in h || h[a].next !in h then h else
    var nx := h[a].next;
    var far := h[nx].next;
    var g := h[a := h[a].(size := h[a].size + HEADER + h[nx].size, next := far)];
    if far != 0 && far in g then g[far := g[far].(prev := a)] else g
  }

  lemma LinkMergeAt(h: Headers, head: nat, bs: Blocks, lo: nat, hi: nat, i: nat, k: nat)
    requires Linked(h, head, bs) && Tiled(bs, lo, hi) && lo > 0 && i + 1 < |bs| && k < |bs| - 1
    ensures LinkedAt(MergeHeaders(h, bs[i].addr), Merge(bs, i), k)
  {
    hide Tiled, Linked;
    var c := Merge(bs, i);
    LinkedPart(h, head, bs, i);
    LinkedPart(h, head, bs, i + 1);
    AddrsDiffer(bs, lo, hi, i, i + 1);
    if i + 2 < |bs| {
      LinkedPart(h, head, bs, i + 2);
      AddrsDiffer(bs, lo, hi, i, i + 2);
      InRange(bs, lo, hi, i + 2);
    }
    InRange(bs, lo, hi, i + 1);
    if k != i {
      var j := if k < i then k else k + 1;
      assert c[k] == bs[j];
      LinkedPart(h, head, bs, j);
      AddrsDiffer(bs, lo, hi, i, j);
      if i + 2 < |bs| && j != i + 2 {
        AddrsDiffer(bs, lo, hi, i + 2, j);
      }
    }
  }

  lemma AddrsDiffer(bs: Blocks, lo: nat, hi: nat, i: nat, j: nat)
    requires Tiled(bs, lo, hi) && i < |bs| && j < |bs| && i != j
    ensures bs[i].addr != bs[j].addr
  {
    if bs[i].addr == bs[j].addr {
      SameAddress(bs, lo, hi, i, j);
    }
  }

  lemma LinkMerge(h: Headers, head: nat, bs: Blocks, lo: nat, hi: nat, i: nat)
    requires Linked(h, head, bs) && Tiled(bs, lo, hi) && lo > 0 && i + 1 < |bs|
    ensures Linked(MergeHeaders(h, bs[i].addr), head, Merge(bs, i))
  {
    hide Tiled, MergeHeaders, HeaderOf, LinkedAt;
    forall k | 0 <= k < |bs| - 1
      ensures LinkedAt(MergeHeaders(h, bs[i].addr), Merge(bs, i), k)
    {
      LinkMergeAt(h, head, bs, lo, hi, i, k);
    }
  }

  // ---- growing ----

  /** The header writes of heap_expand for `added` bytes at the old end, given the tail block's address. */
  function GrowHeaders(h: Headers, tail: nat, oldEnd: nat, added: nat): Headers
    requires added >= HEADER
  {
    if tail != 0 && tail in h && h[tail].free then h[tail := h[tail].(size := h[tail].size + added)]
    else
      var g := h[oldEnd := Header(Freed, added - HEADER, true, 0, tail)];
      if tail != 0 && tail in g then g[tail := g[tail].(next := oldEnd)] else g
  }

  lemma LinkGrowAt(h: Headers, head: nat, bs: Blocks, lo: nat, hi: nat, added: nat, k: nat)
    requires Linked(h, head, bs) && Tiled(bs, lo, hi) && lo > 0 && added >= HEADER && k < |Grow(bs, hi, added)|
    ensures LinkedAt(GrowHeaders(h, AddrAt(bs, |bs| - 1), hi, added), Grow(bs, hi, added), k)
  {
    hide Linked;
    var last := |bs| - 1;
    if bs != [] {
      LinkedPart(h, head, bs, last);
      InRange(bs, lo, hi, last);
    }
    if k < |bs| {
      LinkedPart(h, head, bs, k);
      InRange(bs, lo, hi, k);
      if k != last {
        AddrsDiffer(bs, lo, hi, k, last);
      }
    }
  }

  lemma LinkGrow(h: Headers, head: nat, bs: Blocks, lo: nat, hi: nat, added: nat)
    requires Linked(h, head, bs) && Tiled(bs, lo, hi) && lo > 0 && added >= HEADER
    ensures Linked(GrowHeaders(h, AddrAt(bs, |bs| - 1), hi, added), if bs == [] then hi else head, Grow(bs, hi, added))
  {
    hide Tiled, GrowHeaders, HeaderOf, LinkedAt;
    var c, g := Grow(bs, hi, added), GrowHeaders(h, AddrAt(bs, |bs| - 1), hi, added);
    forall k | 0 <= k < |c|
      ensures LinkedAt(g, c, k)
    {
      LinkGrowAt(h, head, bs, lo, hi, added, k);
    }
  }

  // ---- whole operations ----

  /** The header writes of taking the block at a for `size` bytes. */
  function TakeHeaders(h: Headers, a: nat, size: nat): Headers {
    if a !in h then h else
    var g := if h[a].size >= size + HEADER + MIN_SPLIT then SplitHeaders(h, a, size, a + HEADER + size) else h;
    if a in g then MarkHeaders(g, a, false) else g
  }

  lemma LinkTake(h: Headers, head: nat, bs: Blocks, lo: nat, hi: nat, i: nat, size: nat)
    requires Linked(h, head, bs) && Tiled(bs, lo, hi) && lo > 0 && i < |bs|
    ensures LinkedAt(h, bs, i) && Linked(TakeHeaders(h, bs[i].addr, size), head, Allocate(bs, i, size))
  {
    hide Tiled, Linked, SplitHeaders;
    LinkedPart(h, head, bs, i);
    if Splits(bs[i], size) {
      LinkSplit(h, head, bs, lo, hi, i, size);
      SplitTiled(bs, lo, hi, i, size);
      SplitThenMark(bs, i, size);
      var split := SplitHeaders(h, bs[i].addr, size, bs[i].addr + HEADER + size);
      LinkMark(split, head, SplitAt(bs, i, size), lo, hi, i, false);
    } else {
      LinkMark(h, head, bs, lo, hi, i, false);
    }
  }
}
