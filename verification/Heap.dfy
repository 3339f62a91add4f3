// kmalloc, kfree and heap_expand over memory (src/kernel/heap.c).
module Heap {
  import opened Basics
  import opened SeqArith
  import opened HeapBlocks
  import opened HeapLinks

  const WORD: nat := 0x1_0000_0000_0000_0000
  const PAGE: nat := 4096
  const HEAP_BASE: nat := 0xFFFF_FFFF_9000_0000
  const INITIAL_PAGES: nat := 4
  const MAX_PAGES: nat := 256
  const POISON: byte := 0xDD

  function Wrap64(x: int): nat { x % WORD }

  /** Rounding up on 64-bit words, as the source masks it: the sum may wrap. */
  function AlignPage(value: nat): nat { Wrap64(value + PAGE - 1) / PAGE * PAGE }

  function Align16(value: nat): nat { Wrap64(value + 15) / 16 * 16 }

  /** Where heap_expand puts the new end; it may wrap past the top of the address space. */
  function NewEnd(end: nat, required: nat): nat { AlignPage(Wrap64(end + required)) }

  predicate NoWrap(end: nat, required: nat) { end + required + PAGE - 1 < WORD }

  lemma NewEndReal(end: nat, required: nat)
    requires NoWrap(end, required)
    ensures end + required <= NewEnd(end, required) < end + required + PAGE
    ensures NewEnd(end, required) % PAGE == 0
  {}

  lemma NewEndWrapped(end: nat, required: nat)
    requires !NoWrap(end, required) && end % PAGE == 0 && end < WORD && required < WORD
    ensures NewEnd(end, required) <= end
  {
    var x := end + required;
    if x < WORD {
      assert Wrap64(x) == x && Wrap64(x + PAGE - 1) == x + PAGE - 1 - WORD;
    } else {
      assert Wrap64(x) == x - WORD;
      assert x - WORD < end;
    }
  }

  /** The guard in heap_expand refuses exactly the oversized requests unless the sum wraps to a small address. */
  lemma GuardExactly(end: nat, required: nat, limit: nat)
    requires end % PAGE == 0 && end <= limit < WORD && required < WORD
    ensures (NewEnd(end, required) <= limit <==> end + required <= limit / PAGE * PAGE)
            <==> NoWrap(end, required)
  {
    if NoWrap(end, required) {
      NewEndReal(end, required);
    } else {
      NewEndWrapped(end, required);
    }
  }

  /** A request of 0x7000_0000 bytes on the initial heap passes the guard though it cannot be met. */
  lemma GuardWraps()
    ensures var end := HEAP_BASE + INITIAL_PAGES * PAGE;
            NewEnd(end, 0x7000_0000 + HEADER) == 0x5000 <= HEAP_BASE + MAX_PAGES * PAGE
  {}

  // ---- payload bytes ----

  type Bytes = map<nat, byte>

  /** Memory once a header has been written at a: nothing is known of the 40 bytes as data. */
  function Clear(m: Bytes, a: nat): Bytes { map x | x in m && !(a <= x < a + HEADER) :: m[x] }

  ghost predicate SameData(m: Bytes, n: Bytes, b: Block) {
    forall x :: b.Payload() <= x < b.End() ==> (x in m <==> x in n) && (x in m ==> m[x] == n[x])
  }

  /** The payload of every block in `live` reads the same. */
  ghost predicate DataKept(m: Bytes, n: Bytes, live: set<Block>) {
    forall b :: b in live ==> SameData(m, n, b)
  }

  /** The bytes written by taking block i for `size` bytes: at most one header, inside that block. */
  function TakeBytes(m: Bytes, b: Block, size: nat): Bytes {
    if Splits(b, size) then Clear(m, b.addr + HEADER + size) else m
  }

  lemma TakeData(m: Bytes, bs: Blocks, lo: nat, hi: nat, i: nat, size: nat)
    requires Tiled(bs, lo, hi) && i < |bs| && bs[i].free
    ensures DataKept(m, TakeBytes(m, bs[i], size), Live(bs))
  {
    hide Tiled;
    forall b | b in Live(bs)
      ensures SameData(m, TakeBytes(m, bs[i], size), b)
    {
      PayloadsDisjoint(bs, lo, hi, b, bs[i]);
    }
  }

  lemma GrowData(m: Bytes, bs: Blocks, lo: nat, hi: nat)
    requires Tiled(bs, lo, hi)
    ensures DataKept(m, Clear(m, hi), Live(bs))
  {
    hide Tiled;
    forall b | b in Live(bs)
      ensures SameData(m, Clear(m, hi), b)
    {
      var k :| 0 <= k < |bs| && bs[k] == b;
      InRange(bs, lo, hi, k);
    }
  }

  /** Memory with `n` poison bytes from p on. */
  function Poisoned(m: Bytes, p: nat, n: nat): Bytes {
    if n == 0 then m else Poisoned(m, p, n - 1)[p + n - 1 := POISON]
  }

  /** Every byte of the freed payload reads as poison and no other byte changed. */
  lemma {:induction false} PoisonedAt(m: Bytes, p: nat, n: nat, x: nat)
    ensures x in Poisoned(m, p, n) <==> x in m || p <= x < p + n
    ensures x in Poisoned(m, p, n) ==> Poisoned(m, p, n)[x] == if p <= x < p + n then POISON else m[x]
  {
    if n > 0 {
      PoisonedAt(m, p, n - 1, x);
    }
  }

  lemma PoisonData(m: Bytes, bs: Blocks, lo: nat, hi: nat, i: nat)
    requires Tiled(bs, lo, hi) && i < |bs|
    ensures DataKept(m, Poisoned(m, bs[i].Payload(), bs[i].size), Live(bs) - {bs[i]})
  {
    hide Tiled, Poisoned;
    forall b | b in Live(bs) - {bs[i]}
      ensures SameData(m, Poisoned(m, bs[i].Payload(), bs[i].size), b)
    {
      PayloadsDisjoint(bs, lo, hi, b, bs[i]);
      forall x: nat | b.Payload() <= x < b.End()
        ensures x in m <==> x in Poisoned(m, bs[i].Payload(), bs[i].size)
        ensures x in m ==> m[x] == Poisoned(m, bs[i].Payload(), bs[i].size)[x]
      {
        PoisonedAt(m, bs[i].Payload(), bs[i].size, x);
      }
    }
  }

  // ---- the allocator ----

  datatype Bounds = Bounds(head: nat, start: nat, end: nat, limit: nat)

  ghost predicate BoundsOk(at: Bounds) {
    0 < at.start <= at.end <= at.limit < WORD && at.end % PAGE == 0
  }

  /** The header list in memory is a chain of blocks that fill the heap. */
  ghost predicate Shape(h: Headers, at: Bounds, bs: Blocks) {
    BoundsOk(at) && Linked(h, at.head, bs) && Tiled(bs, at.start, at.end)
  }

  /** Index of the first free block of at least `size` bytes, or the number of blocks. */
  function FirstFit(bs: Blocks, size: nat): (i: nat)
    ensures i <= |bs| && (i < |bs| ==> Fits(bs[i], size))
    ensures forall k :: 0 <= k < i ==> !Fits(bs[k], size)
  {
    if bs == [] then 0 else if Fits(bs[0], size) then 0 else 1 + FirstFit(bs[1..], size)
  }

  lemma FirstFitIs(bs: Blocks, size: nat, i: nat)
    requires i <= |bs| && (i < |bs| ==> Fits(bs[i], size)) && forall k :: 0 <= k < i ==> !Fits(bs[k], size)
    ensures FirstFit(bs, size) == i
  {}

  lemma Next(h: Headers, at: Bounds, bs: Blocks, i: nat)
    requires Shape(h, at, bs) && i < |bs|
    ensures bs[i].addr in h && h[bs[i].addr] == HeaderOf(bs, i) && bs[i].addr != 0
    ensures i + 1 < |bs| ==> bs[i + 1].addr != 0
  {
    LinkedPart(h, at.head, bs, i);
    InRange(bs, at.start, at.end, i);
    if i + 1 < |bs| {
      InRange(bs, at.start, at.end, i + 1);
    }
  }

  lemma ChainedHead(h: Headers, head: nat, bs: Blocks)
    requires Chained(h, head, bs)
    ensures head == AddrAt(bs, 0) && (head == 0 <==> bs == [])
  {}

  lemma ShapeChained(h: Headers, at: Bounds, bs: Blocks)
    requires Shape(h, at, bs)
    ensures Chained(h, at.head, bs)
  {
    hide Linked, Tiled;
    forall i | 0 <= i < |bs|
      ensures bs[i].addr != 0
    {
      InRange(bs, at.start, at.end, i);
    }
  }

  lemma HeadIs(h: Headers, at: Bounds, bs: Blocks)
    requires Shape(h, at, bs)
    ensures at.head == AddrAt(bs, 0) && (at.head == 0 <==> bs == [])
  {
    if bs != [] {
      InRange(bs, at.start, at.end, 0);
    }
  }

  /** heap_expand's page loop. */
  method MapPages(end: nat, newEnd: nat, maps: nat -> bool) returns (ok: bool)
    ensures ok <==> AllMap(end, newEnd, maps)
  {
    var page := end;
    while page < newEnd
      invariant page >= end && AllMap(end, newEnd, maps) == AllMap(page, newEnd, maps)
      decreases newEnd - page
    {
      if !maps(page) {
        return false;
      }
      page := page + PAGE;
    }
    return true;
  }

  predicate AllMap(page: nat, end: nat, maps: nat -> bool)
    decreases end - page
  {
    page < end ==> maps(page) && AllMap(page + PAGE, end, maps)
  }

  /** The tail's size never wraps, because the block ends inside the heap. */
  lemma TailSize(h: Headers, at: Bounds, bs: Blocks, newEnd: nat)
    requires Shape(h, at, bs) && at.end <= newEnd < WORD
    ensures bs != [] ==> bs[|bs| - 1].size + (newEnd - at.end) < WORD
  {}

  lemma ExpandKeeps(h: Headers, at: Bounds, bs: Blocks, m: Bytes, newEnd: nat)
    requires Shape(h, at, bs) && Coalesced(bs) && at.end + HEADER <= newEnd <= at.limit && newEnd % PAGE == 0
    ensures var c, g := Grow(bs, at.end, newEnd - at.end),
            GrowHeaders(h, AddrAt(bs, |bs| - 1), at.end, newEnd - at.end);
            Shape(g, at.(end := newEnd, head := if bs == [] then at.end else at.head), c) && Coalesced(c)
    ensures Live(Grow(bs, at.end, newEnd - at.end)) == Live(bs)
    ensures DataKept(m, Clear(m, at.end), Live(bs)) && DataKept(m, m, Live(bs))
    ensures bs != [] ==> bs[|bs| - 1].size + (newEnd - at.end) < WORD
    ensures bs == [] <==> AddrAt(bs, |bs| - 1) == 0
    ensures bs != [] ==> bs[|bs| - 1].addr in h && h[bs[|bs| - 1].addr] == HeaderOf(bs, |bs| - 1)
  {
    hide Linked, Tiled, Coalesced, GrowHeaders, Grow, Clear;
    LinkGrow(h, at.head, bs, at.start, at.end, newEnd - at.end);
    GrowKeeps(bs, at.start, at.end, newEnd - at.end);
    GrowLive(bs, at.end, newEnd - at.end);
    GrowData(m, bs, at.start, at.end);
    TailSize(h, at, bs, newEnd);
    if bs != [] {
      Next(h, at, bs, |bs| - 1);
    }
  }

  lemma NewEndAligned(end: nat, required: nat)
    ensures NewEnd(end, required) % PAGE == 0
  {}

  /** Two page-aligned ends differ by whole pages. */
  lemma Whole(h: Headers, at: Bounds, bs: Blocks, newEnd: nat)
    requires Shape(h, at, bs) && at.end < newEnd && newEnd % PAGE == 0
    ensures at.end + HEADER <= newEnd
  {}

  lemma TailKnown(h: Headers, at: Bounds, bs: Blocks)
    requires Shape(h, at, bs)
    ensures bs == [] <==> AddrAt(bs, |bs| - 1) == 0
    ensures bs != [] ==> AddrAt(bs, |bs| - 1) in h && at.head != 0
  {
    HeadIs(h, at, bs);
    if bs != [] {
      Next(h, at, bs, |bs| - 1);
    }
  }

  /** The 64-bit writes of heap_expand are the ones GrowHeaders makes without wrapping. */
  lemma GrowWrites(h: Headers, at: Bounds, bs: Blocks, newEnd: nat)
    requires Shape(h, at, bs) && at.end + HEADER <= newEnd <= at.limit
    ensures var t, added := AddrAt(bs, |bs| - 1), Wrap64(newEnd - at.end);
            && added == newEnd - at.end
            && GrowHeaders(h, t, at.end, added) ==
               if t != 0 && t in h && h[t].free then h[t := h[t].(size := Wrap64(h[t].size + added))]
               else
                 var g := h[at.end := Header(Freed, Wrap64(added - HEADER), true, 0, t)];
                 if t != 0 && t in g then g[t := g[t].(next := at.end)] else g
  {
    hide Tiled, Linked;
    TailSize(h, at, bs, newEnd);
    if bs != [] {
      Next(h, at, bs, |bs| - 1);
    }
  }

  /** The headers heap_expand writes: a free last block grows, otherwise a new one follows it. */
  function TailHeaders(h: Headers, tail: nat, end: nat, added: nat): Headers {
    if tail != 0 && tail in h && h[tail].free then h[tail := h[tail].(size := Wrap64(h[tail].size + added))]
    else
      var g := h[end := Header(Freed, Wrap64(added - HEADER), true, 0, tail)];
      if tail != 0 && tail in g then g[tail := g[tail].(next := end)] else g
  }

  /** Adding so many bytes to the last block, or as a new one, wraps no size. */
  ghost predicate Roomy(bs: Blocks, added: nat) {
    HEADER <= added < WORD && (bs != [] ==> bs[|bs| - 1].size + added < WORD)
  }

  /** Then what heap_expand writes links the row grown by them, also when they do not lie in the heap. */
  lemma ExpandLinks(h: Headers, at: Bounds, bs: Blocks, m: Bytes, added: nat)
    requires Shape(h, at, bs) && Roomy(bs, added)
    ensures TailHeaders(h, AddrAt(bs, |bs| - 1), at.end, added) == GrowHeaders(h, AddrAt(bs, |bs| - 1), at.end, added)
    ensures Chained(TailHeaders(h, AddrAt(bs, |bs| - 1), at.end, added), if bs == [] then at.end else at.head,
                    Grow(bs, at.end, added))
    ensures Live(Grow(bs, at.end, added)) == Live(bs)
    ensures DataKept(m, Clear(m, at.end), Live(bs)) && DataKept(m, m, Live(bs))
  {
    hide Linked, Tiled, Clear, Live, DataKept;
    LinkGrow(h, at.head, bs, at.start, at.end, added);
    GrowLive(bs, at.end, added);
    GrowData(m, bs, at.start, at.end);
    Unchanged(m, Live(bs));
    forall i | 0 <= i < |bs|
      ensures bs[i].addr != 0
    {
      InRange(bs, at.start, at.end, i);
    }
    if bs != [] {
      Next(h, at, bs, |bs| - 1);
    }
  }

  lemma WrapIs(x: nat)
    requires x < 2 * WORD
    ensures Wrap64(x) == if x < WORD then x else x - WORD
  {}

  lemma WrapBack(x: nat, y: nat)
    requires x < WORD && y < WORD
    ensures Wrap64(x - y) == if y <= x then x - y else x - y + WORD
  {}

  lemma AlignIs(value: nat, q: nat, m: nat)
    requires Wrap64(value + PAGE - 1) == q * PAGE + m && m < PAGE
    ensures AlignPage(value) == q * PAGE
  {
    DivIs(q * PAGE + m, PAGE, q, m);
  }

  /** Where the new end lies, in pages: e is the old end's page and r the request's pages. */
  lemma NewEndIs(end: nat, required: nat, e: nat, r: nat, m: nat)
    requires end == e * PAGE && required + PAGE - 1 == r * PAGE + m && m < PAGE && end < WORD && required < WORD
    ensures NewEnd(end, required) == if e + r < WORD / PAGE then (e + r) * PAGE else (e + r - WORD / PAGE) * PAGE
  {
    hide Wrap64, AlignPage;
    WrapIs(end + required);
    var v := Wrap64(end + required);
    if v + PAGE - 1 < 2 * WORD {
      WrapIs(v + PAGE - 1);
    }
    AlignIs(v, if e + r < WORD / PAGE then e + r else e + r - WORD / PAGE, m);
  }

  /** A wrapped expansion still adds the request rounded up to pages, in 64-bit arithmetic. */
  lemma WrappedAdds(end: nat, required: nat)
    requires end % PAGE == 0 && end < WORD && required + PAGE - 1 < WORD
    ensures required <= Wrap64(NewEnd(end, required) - end) < required + PAGE
  {
    hide Wrap64, NewEnd;
    var y := required + PAGE - 1;
    NewEndIs(end, required, end / PAGE, y / PAGE, y % PAGE);
    WrapBack(NewEnd(end, required), end);
  }

  lemma FitsIs(b: Block, size: nat)
    ensures Fits(b, size) <==> b.free && b.size >= size
  {}

  lemma NextKnown(h: Headers, at: Bounds, bs: Blocks, i: nat)
    requires Shape(h, at, bs) && i < |bs|
    ensures bs[i].addr in h && (h[bs[i].addr].next != 0 ==> h[bs[i].addr].next in h)
  {
    Next(h, at, bs, i);
    if i + 1 < |bs| {
      Next(h, at, bs, i + 1);
    }
  }

  lemma NewBlock(bs: Blocks, lo: nat, hi: nat, i: nat, b: Block)
    requires Tiled(bs, lo, hi) && i < |bs| && bs[i].free && b.addr == bs[i].addr && !b.free
    ensures b !in Live(bs)
  {
    if b in bs {
      var k :| 0 <= k < |bs| && bs[k] == b;
      SameAddress(bs, lo, hi, k, i);
    }
  }

  /** Growing by a request and its header leaves a block that fits the request. */
  lemma GrownFits(bs: Blocks, hi: nat, added: nat, size: nat)
    requires added >= size + HEADER
    ensures var c := Grow(bs, hi, added); FirstFit(c, size) < |c|
  {
    var c := Grow(bs, hi, added);
    assert Fits(c[|c| - 1], size);
  }

  /** kmalloc's rounding gives at least what was asked for exactly when it does not wrap; when it wraps it gives 0. */
  lemma Align16Exactly(size: nat)
    requires size < WORD
    ensures Align16(size) >= size <==> size + 15 < WORD
    ensures size + 15 < WORD ==> Align16(size) < size + 16 && Align16(size) % 16 == 0
    ensures size + 15 >= WORD ==> Align16(size) == 0
  {
    hide Wrap64;
    WrapIs(size + 15);
    var v := Wrap64(size + 15);
    var q, m := v / 16, v % 16;
    assert v == q * 16 + m && Align16(size) == q * 16;
  }

  /** heap_expand refuses: no room below the limit, or a page cannot be mapped. */
  predicate Refuses(end: nat, limit: nat, size: nat, maps: nat -> bool) {
    NewEnd(end, Wrap64(size + HEADER)) > limit || !AllMap(end, NewEnd(end, Wrap64(size + HEADER)), maps)
  }

  /** The search fails exactly when no free block is large enough; otherwise it finds the first that is. */
  lemma FirstFitExactly(bs: Blocks, size: nat)
    ensures var i := FirstFit(bs, size);
            && (i == |bs| <==> forall k :: 0 <= k < |bs| ==> !(bs[k].free && bs[k].size >= size))
            && (i < |bs| ==> bs[i].free && bs[i].size >= size)
            && forall k :: 0 <= k < i ==> !(bs[k].free && bs[k].size >= size)
  {
    if FirstFit(bs, size) < |bs| {
      assert Fits(bs[FirstFit(bs, size)], size);
    }
  }

  lemma {:induction false} AllMapExactly(page: nat, end: nat, maps: nat -> bool)
    ensures AllMap(page, end, maps) <==> forall j: nat :: page + j * PAGE < end ==> maps(page + j * PAGE)
    decreases end - page
  {
    if page < end {
      AllMapExactly(page + PAGE, end, maps);
      if AllMap(page, end, maps) {
        forall j: nat | page + j * PAGE < end
          ensures maps(page + j * PAGE)
        {
          assert j > 0 ==> page + j * PAGE == page + PAGE + (j - 1) * PAGE;
        }
      } else if maps(page) {
        var j: nat :| page + PAGE + j * PAGE < end && !maps(page + PAGE + j * PAGE);
        assert page + PAGE + j * PAGE == page + (j + 1) * PAGE;
      } else {
        assert page + 0 * PAGE == page;
      }
    }
  }

  /** Where nothing wraps, expansion is refused exactly for want of address space or of a page. */
  lemma RefusesExactly(end: nat, limit: nat, size: nat, maps: nat -> bool)
    requires end % PAGE == 0 && end <= limit < WORD && NoWrap(end, size + HEADER)
    ensures Refuses(end, limit, size, maps) <==>
            || end + size + HEADER > limit / PAGE * PAGE
            || exists j: nat :: j * PAGE < size + HEADER && !maps(end + j * PAGE)
  {
    hide NewEnd, AllMap;
    WrapIs(size + HEADER);
    GuardExactly(end, size + HEADER, limit);
    NewEndReal(end, size + HEADER);
    AllMapExactly(end, NewEnd(end, size + HEADER), maps);
    forall j: nat
      ensures end + j * PAGE < NewEnd(end, size + HEADER) <==> j * PAGE < size + HEADER
    {
      PageBefore(end, j, NewEnd(end, size + HEADER), size + HEADER);
    }
  }

  lemma PageBefore(end: nat, j: nat, top: nat, need: nat)
    requires end % PAGE == 0 && top % PAGE == 0 && end + need <= top < end + need + PAGE
    ensures end + j * PAGE < top <==> j * PAGE < need
  {
    var a, b := end / PAGE, top / PAGE;
    assert end == a * PAGE && top == b * PAGE;
  }

  /** A request that a block serves already, that heap_expand refuses, or whose sum stays below 2^64. */
  ghost predicate Answerable(bs: Blocks, at: Bounds, size: nat, maps: nat -> bool) {
    FirstFit(bs, size) < |bs| || Refuses(at.end, at.limit, size, maps) || NoWrap(at.end, size + HEADER)
  }

  /** In the kernel's heap every request below 0x6FEF0000 bytes, about 1.7 GiB, is one. */
  lemma AnswerableBelow(bs: Blocks, at: Bounds, size: nat, maps: nat -> bool)
    requires at.end <= at.limit == HEAP_BASE + MAX_PAGES * PAGE && size < 0x6FEF_0000
    ensures Answerable(bs, at, Align16(size), maps)
  {
    Align16Exactly(size);
    hide FirstFit, Align16, Refuses;
  }

  /** The request is not within a heap's size of 2^64. */
  predicate Returns(at: Bounds, size: nat) { size + HEADER + PAGE + (at.limit - at.start) <= WORD }

  /**
   * Above that kmalloc need not return: when the request with its header lies within a page of 2^64 and the last block
   * is free, heap_expand succeeds and changes nothing, so the search and the expansion go on for ever.
   */
  lemma NeverReturns(h: Headers, at: Bounds, bs: Blocks, size: nat)
    requires Shape(h, at, bs) && bs != [] && bs[|bs| - 1].free && size + HEADER < WORD < size + HEADER + PAGE
    ensures var t := AddrAt(bs, |bs| - 1);
            && NewEnd(at.end, Wrap64(size + HEADER)) == at.end && t in h && bs[|bs| - 1].size < WORD
            && TailHeaders(h, t, at.end, 0) == h
  {
    var r, last := size + HEADER, |bs| - 1;
    Next(h, at, bs, last);
    InRange(bs, at.start, at.end, last);
    hide Linked, Tiled;
    hide Wrap64, NewEnd;
    WrapIs(r);
    WrapIs(bs[last].size);
    NewEndIs(at.end, r, at.end / PAGE, WORD / PAGE, r + PAGE - 1 - WORD);
  }

  /** On the initial heap of 16 KiB a request of 0x7000_0000 bytes is not answerable, yet kmalloc returns a pointer. */
  lemma HugeAccepted(maps: nat -> bool)
    ensures var end := HEAP_BASE + INITIAL_PAGES * PAGE;
            var at := Bounds(HEAP_BASE, HEAP_BASE, end, HEAP_BASE + MAX_PAGES * PAGE);
            var bs := [Block(HEAP_BASE, INITIAL_PAGES * PAGE - HEADER, true)];
            && FirstFit(bs, 0x7000_0000) == |bs| && Align16(0x7000_0000) == 0x7000_0000
            && !Refuses(end, at.limit, 0x7000_0000, maps)
            && !Answerable(bs, at, 0x7000_0000, maps) && Returns(at, 0x7000_0000)
  {
    GuardWraps();
    var bs := [Block(HEAP_BASE, INITIAL_PAGES * PAGE - HEADER, true)];
    FirstFitIs(bs, 0x7000_0000, 1);
    hide NewEnd;
  }

  /** The blocks kmalloc chooses from: the present ones, or with the heap grown to `end`. */
  ghost function Candidates(bs: Blocks, size: nat, oldEnd: nat, end: nat): Blocks {
    if FirstFit(bs, size) < |bs| || end < oldEnd + HEADER then bs else Grow(bs, oldEnd, end - oldEnd)
  }

  /** The one expansion of a request that is not refused adds at least the request and its header, and wraps no size. */
  lemma Added(h: Headers, at: Bounds, bs: Blocks, n: nat, end: nat)
    requires Shape(h, at, bs) && end == NewEnd(at.end, Wrap64(n + HEADER)) <= at.limit
    requires NoWrap(at.end, n + HEADER) || Returns(at, n)
    ensures Roomy(bs, Wrap64(end - at.end)) && n + HEADER <= Wrap64(end - at.end)
    ensures if NoWrap(at.end, n + HEADER) then end >= at.end + HEADER else end <= at.end
  {
    hide Linked, Tiled, NewEnd;
    if bs != [] {
      InRange(bs, at.start, at.end, |bs| - 1);
    }
    if NoWrap(at.end, n + HEADER) {
      NewEndReal(at.end, n + HEADER);
    } else {
      NewEndWrapped(at.end, n + HEADER);
      WrappedAdds(at.end, n + HEADER);
    }
  }

  /** A request no block fits is refused or answered as the guard and the sum decide. */
  lemma Passes(bs: Blocks, at: Bounds, n: nat, maps: nat -> bool)
    requires FirstFit(bs, n) == |bs|
    ensures var end := NewEnd(at.end, Wrap64(n + HEADER));
            && (Refuses(at.end, at.limit, n, maps) <==> !(end <= at.limit && AllMap(at.end, end, maps)))
            && (Answerable(bs, at, n, maps) <==> Refuses(at.end, at.limit, n, maps) || NoWrap(at.end, n + HEADER))
            && (NoWrap(at.end, n + HEADER) ==>
                  Wrap64(n + HEADER) == n + HEADER && NoWrap(at.end, Wrap64(n + HEADER)))
  {
    hide NewEnd, AllMap, FirstFit;
  }

  lemma Fitting(bs: Blocks, at: Bounds, n: nat, maps: nat -> bool)
    requires FirstFit(bs, n) < |bs|
    ensures Answerable(bs, at, n, maps)
  {}

  lemma Chosen(bs: Blocks, was: Bounds, at: Bounds, n: nat, c: Blocks, grown: bool)
    requires at.end < WORD
    requires !grown ==> c == bs && (FirstFit(bs, n) < |bs| || at == was)
    requires grown ==> FirstFit(bs, n) == |bs| && at.end >= was.end + HEADER && HEADER <= Wrap64(at.end - was.end)
    requires grown ==> c == Grow(bs, was.end, Wrap64(at.end - was.end))
    ensures c == Candidates(bs, n, was.end, at.end)
  {
    if grown {
      assert Wrap64(at.end - was.end) == at.end - was.end;
    }
  }

  /** A request that fits a block of the heap is small. */
  lemma FitSmall(h: Headers, at: Bounds, bs: Blocks, n: nat, i: nat)
    requires Shape(h, at, bs) && i < |bs| && Fits(bs[i], n)
    ensures n + HEADER + MIN_SPLIT < WORD && at.end < WORD
  {
    InRange(bs, at.start, at.end, i);
  }

  /** When no block fitted, the one that does after growing is the last, and it runs past the old end. */
  lemma LastFits(h: Headers, at: Bounds, bs: Blocks, n: nat, added: nat)
    requires Shape(h, at, bs) && FirstFit(bs, n) == |bs| && n + HEADER <= added && Returns(at, n)
    ensures n + HEADER + MIN_SPLIT < WORD
    ensures var c := Grow(bs, at.end, added);
            FirstFit(c, n) == |c| - 1 && c[|c| - 1].Payload() + n > at.end
  {
    hide Linked;
    var c := Grow(bs, at.end, added);
    assert forall k :: 0 <= k < |c| - 1 ==> c[k] == bs[k];
    FirstFitIs(c, n, |c| - 1);
  }

  lemma RequestInRange(size: nat)
    ensures Align16(size) < WORD && 0 < Wrap64(Align16(size) + HEADER) < WORD
    ensures NoWrap(0, Align16(size) + HEADER) ==> Wrap64(Align16(size) + HEADER) == Align16(size) + HEADER
  {}

  lemma Unchanged(m: Bytes, live: set<Block>)
    ensures DataKept(m, m, live)
  {}

  lemma DataChain(a: Bytes, b: Bytes, c: Bytes, live: set<Block>)
    requires DataKept(a, b, live) && DataKept(b, c, live)
    ensures DataKept(a, c, live)
  {}

  lemma MergeBefore(bs: Blocks, i: nat)
    requires i + 1 < |bs|
    ensures var c := Merge(bs, i);
            |c| == |bs| - 1 && c[i].addr == bs[i].addr && forall k :: 0 <= k < i ==> c[k] == bs[k]
  {}

  lemma FirstHasNoPrev(h: Headers, at: Bounds, bs: Blocks, i: nat)
    requires Shape(h, at, bs) && i < |bs| && HeaderOf(bs, i).prev == 0
    ensures i == 0
  {
    if i > 0 {
      Next(h, at, bs, i - 1);
    }
  }

  /** kfree takes the block back: the pointer is a live block's payload. Anything else changes nothing. */
  ghost predicate Releases(bs: Blocks, at: Bounds, p: nat, i: nat) {
    p != 0 && at.start <= Wrap64(p - HEADER) < at.end && i < |bs| && bs[i].Payload() == p && !bs[i].free
  }

  /** The pointer of every live block is one that kfree releases, and of a free one is not. */
  lemma LiveReleased(h: Headers, at: Bounds, bs: Blocks, i: nat)
    requires Shape(h, at, bs) && i < |bs|
    ensures Releases(bs, at, bs[i].Payload(), i) <==> !bs[i].free
  {
    hide Wrap64;
    BlockAddr(h, at, bs, i);
    InRange(bs, at.start, at.end, i);
  }

  lemma BlockAddr(h: Headers, at: Bounds, bs: Blocks, i: nat)
    requires Shape(h, at, bs) && i < |bs|
    ensures bs[i].addr < WORD && Wrap64(bs[i].Payload() - HEADER) == bs[i].addr
  {
    InRange(bs, at.start, at.end, i);
  }

  lemma MarkKeeps(bs: Blocks, lo: nat, hi: nat, i: nat)
    requires Tiled(bs, lo, hi) && Coalesced(bs) && i < |bs|
    ensures Tiled(Mark(bs, i, true), lo, hi) && CoalescedBut(Mark(bs, i, true), i)
  {}

  lemma InitialEnd()
    ensures NoWrap(HEAP_BASE, INITIAL_PAGES * PAGE)
    ensures NewEnd(HEAP_BASE, INITIAL_PAGES * PAGE) == HEAP_BASE + INITIAL_PAGES * PAGE <= HEAP_BASE + MAX_PAGES * PAGE
  {}

  /** Splitting leaves the block its size, or what it had. */
  lemma SplitKeeps(h: Headers, a: nat, size: nat, n: nat)
    requires a in h && h[a].size >= size
    ensures a in SplitHeaders(h, a, size, n) && SplitHeaders(h, a, size, n)[a].size >= size
  {}

  /** Taking a block of a sound heap: the writes stay inside it and leave a sound heap with one more live block. */
  lemma TakeSound(h: Headers, at: Bounds, bs: Blocks, m: Bytes, i: nat, size: nat)
    requires Shape(h, at, bs) && Coalesced(bs) && i < |bs| && Fits(bs[i], size)
    ensures var c, a := Allocate(bs, i, size), bs[i].addr;
            && Wrap64(a + HEADER + size) == a + HEADER + size <= at.end
            && Shape(TakeHeaders(h, a, size), at, c) && Coalesced(c)
            && i < |c| && Live(c) == Live(bs) + {c[i]} && c[i] !in Live(bs) && c[i].addr == a && size <= c[i].size
            && a in h && h[a].size == bs[i].size
            && DataKept(m, TakeBytes(m, bs[i], size), Live(bs))
  {
    hide Linked, Tiled, Coalesced, Allocate, Live, DataKept, SplitHeaders, Clear, TakeHeaders, TakeBytes;
    Next(h, at, bs, i);
    InRange(bs, at.start, at.end, i);
    LinkTake(h, at.head, bs, at.start, at.end, i, size);
    AllocateKeeps(bs, at.start, at.end, i, size);
    AllocateLive(bs, i, size);
    TakeData(m, bs, at.start, at.end, i, size);
    NewBlock(bs, at.start, at.end, i, Allocate(bs, i, size)[i]);
  }

  class Allocator {
    var h: Headers
    var at: Bounds
    var bytes: Bytes
    ghost var blocks: Blocks

    ghost predicate Valid()
      reads this
    {
      Shape(h, at, blocks) && Coalesced(blocks)
    }

    /** heap_init: one free block of four pages, or an empty heap when they cannot all be mapped. */
    constructor (maps: nat -> bool)
      ensures Valid() && at.start == HEAP_BASE && at.limit == HEAP_BASE + MAX_PAGES * PAGE && Live(blocks) == {}
      ensures var end := HEAP_BASE + INITIAL_PAGES * PAGE;
              if AllMap(HEAP_BASE, end, maps) then
                at.end == end && blocks == [Block(HEAP_BASE, INITIAL_PAGES * PAGE - HEADER, true)]
              else at.end == HEAP_BASE && blocks == []
    {
      h, bytes, blocks := map[], map[], [];
      at := Bounds(0, HEAP_BASE, HEAP_BASE, HEAP_BASE + MAX_PAGES * PAGE);
      new;
      hide AllMap;
      InitialEnd();
      var _ := Expand(INITIAL_PAGES * PAGE, maps);
    }

    /** The last block's address, found by following next from the head. */
    method Tail() returns (tail: nat)
      requires Valid()
      ensures tail == AddrAt(blocks, |blocks| - 1)
    {
      hide Linked, LinkedAt, Tiled, Coalesced;
      tail := at.head;
      ghost var i := 0;
      assert blocks != [] ==> tail == blocks[0].addr by { HeadIs(h, at, blocks); }
      if tail == 0 {
        HeadIs(h, at, blocks);
        return;
      }
      HeadIs(h, at, blocks);
      Next(h, at, blocks, 0);
      while h[tail].next != 0
        invariant 0 <= i < |blocks| && tail == blocks[i].addr && tail in h && h[tail] == HeaderOf(blocks, i)
        decreases |blocks| - i
      {
        Next(h, at, blocks, i);
        tail := h[tail].next;
        i := i + 1;
        Next(h, at, blocks, i);
      }
      Next(h, at, blocks, i);
    }

    /**
     * The second half of heap_expand: the block list takes in everything up to the new end. It runs on a wrapped end
     * too, where the added size wraps.
     */
    method Extend(newEnd: nat)
      requires Valid() && newEnd <= at.limit && newEnd % PAGE == 0
      modifies this
      ensures at.end == newEnd && at.start == old(at.start) && at.limit == old(at.limit)
      ensures h == TailHeaders(old(h), AddrAt(old(blocks), |old(blocks)| - 1), old(at.end),
                               Wrap64(newEnd - old(at.end)))
      ensures Roomy(old(blocks), Wrap64(newEnd - old(at.end))) ==>
                && blocks == Grow(old(blocks), old(at.end), Wrap64(newEnd - old(at.end)))
                && Chained(h, at.head, blocks)
                && Live(blocks) == Live(old(blocks)) && DataKept(old(bytes), bytes, Live(blocks))
      ensures newEnd > old(at.end) ==> Valid() && Roomy(old(blocks), Wrap64(newEnd - old(at.end)))
    {
      hide Linked, Tiled, Coalesced, GrowHeaders, Grow, Clear, Live, DataKept, Shape, Chained;
      var tail := Tail();
      var oldEnd := at.end;
      var added := Wrap64(newEnd - oldEnd);
      ghost var grows := newEnd > oldEnd;
      TailKnown(h, at, blocks);
      if grows {
        Whole(h, at, blocks, newEnd);
        ExpandKeeps(h, at, blocks, bytes, newEnd);
        GrowWrites(h, at, blocks, newEnd);
      }
      ghost var roomy := Roomy(blocks, added);
      if roomy {
        ExpandLinks(h, at, blocks, bytes, added);
      }
      ghost var c := if roomy then Grow(blocks, oldEnd, added) else blocks;
      at := at.(end := newEnd);
      blocks := c;
      if tail != 0 && h[tail].free {
        h := h[tail := h[tail].(size := Wrap64(h[tail].size + added))];
      } else {
        bytes := Clear(bytes, oldEnd);
        h := h[oldEnd := Header(Freed, Wrap64(added - HEADER), true, 0, tail)];
        if tail != 0 {
          h := h[tail := h[tail].(next := oldEnd)];
        } else {
          at := at.(head := oldEnd);
        }
      }
    }

    /** heap_expand: `maps` tells for which pages a frame can be found and mapped. */
    method Expand(required: nat, maps: nat -> bool) returns (ok: bool)
      requires Valid() && 0 < required < WORD
      modifies this
      ensures ok <==> NewEnd(old(at.end), required) <= at.limit &&
                      AllMap(old(at.end), NewEnd(old(at.end), required), maps)
      ensures at.limit == old(at.limit) && at.start == old(at.start)
      ensures !ok ==> h == old(h) && at == old(at) && bytes == old(bytes) && blocks == old(blocks)
      ensures ok ==> at.end == NewEnd(old(at.end), required) &&
                     h == TailHeaders(old(h), AddrAt(old(blocks), |old(blocks)| - 1), old(at.end),
                                      Wrap64(at.end - old(at.end)))
      ensures ok && !NoWrap(old(at.end), required) ==> at.end <= old(at.end)
      ensures ok && Roomy(old(blocks), Wrap64(at.end - old(at.end))) ==>
                && blocks == Grow(old(blocks), old(at.end), Wrap64(at.end - old(at.end)))
                && Chained(h, at.head, blocks)
                && Live(blocks) == Live(old(blocks)) && DataKept(old(bytes), bytes, Live(blocks))
      ensures ok && NoWrap(old(at.end), required) ==>
                && Valid() && old(at.end) + required <= at.end == NewEnd(old(at.end), required)
                && Roomy(old(blocks), Wrap64(at.end - old(at.end)))
    {
      hide Linked, Tiled, Coalesced, Grow, Live, DataKept, NewEnd, AllMap, Roomy, Chained;
      var newEnd := NewEnd(at.end, required);
      if newEnd > at.limit {
        return false;
      }
      ok := MapPages(at.end, newEnd, maps);
      if !ok {
        return;
      }
      if NoWrap(at.end, required) {
        NewEndReal(at.end, required);
      } else {
        NewEndWrapped(at.end, required);
      }
      NewEndAligned(at.end, required);
      Extend(newEnd);
    }

    /** kmalloc's walk: the first free block of at least `size` bytes, or 0. */
    method Find(size: nat) returns (a: nat)
      requires Chained(h, at.head, blocks)
      ensures a == AddrAt(blocks, FirstFit(blocks, size)) && (a == 0 <==> FirstFit(blocks, size) == |blocks|)
    {
      hide FirstFit, Fits, Chained;
      a := at.head;
      ghost var i := 0;
      ChainedHead(h, at.head, blocks);
      while a != 0
        invariant 0 <= i <= |blocks| && a == AddrAt(blocks, i) && (a == 0 <==> i == |blocks|)
        invariant forall k :: 0 <= k < i ==> !Fits(blocks[k], size)
        decreases |blocks| - i
      {
        ChainedAt(h, at.head, blocks, i);
        assert Fits(blocks[i], size) <==> h[a].free && h[a].size >= size by { FitsIs(blocks[i], size); }
        if (h[a].magic == Allocated || h[a].magic == Freed) && h[a].free && h[a].size >= size {
          FirstFitIs(blocks, size, i);
          return;
        }
        a := h[a].next;
        i := i + 1;
      }
      FirstFitIs(blocks, size, i);
    }

    /** heap_split_block; the address of the new header may wrap. */
    method SplitBlock(a: nat, size: nat)
      requires a in h && (h[a].next != 0 ==> h[a].next in h) && size + HEADER + MIN_SPLIT < WORD
      modifies this
      ensures h == if old(h)[a].size >= size + HEADER + MIN_SPLIT
                   then SplitHeaders(old(h), a, size, Wrap64(a + HEADER + size)) else old(h)
      ensures bytes == if old(h)[a].size >= size + HEADER + MIN_SPLIT
                       then Clear(old(bytes), Wrap64(a + HEADER + size)) else old(bytes)
      ensures at == old(at) && blocks == old(blocks) && a in h
    {
      if h[a].size < Wrap64(size + HEADER + MIN_SPLIT) {
        return;
      }
      var n := Wrap64(a + HEADER + size);
      var before := h[a];
      bytes := Clear(bytes, n);
      h := h[n := Header(Freed, before.size - size - HEADER, true, before.next, a)];
      if before.next != 0 {
        h := h[before.next := h[before.next].(prev := n)];
      }
      h := h[a := before.(size := size, next := n)];
    }

    /** The block kmalloc found is split and marked allocated. */
    method Take(a: nat, size: nat, ghost i: nat)
      requires Chained(h, at.head, blocks) && i < |blocks| && blocks[i].addr == a && Fits(blocks[i], size)
      requires size + HEADER + MIN_SPLIT < WORD
      modifies this
      ensures at == old(at) && a in h && !h[a].free && h[a].size >= size
      ensures old(Valid()) ==>
                && Valid() && blocks == Allocate(old(blocks), i, size)
                && i < |blocks| && Live(blocks) == Live(old(blocks)) + {blocks[i]} && blocks[i] !in Live(old(blocks))
                && blocks[i].addr == a && size <= blocks[i].size && a + HEADER + size <= at.end
                && DataKept(old(bytes), bytes, Live(old(blocks)))
    {
      hide Linked, Tiled, Coalesced, Allocate, Live, DataKept, SplitHeaders, Clear, Chained, Shape;
      ChainedAt(h, at.head, blocks, i);
      ghost var sound := Valid();
      if sound {
        TakeSound(h, at, blocks, bytes, i, size);
      }
      SplitBlock(a, size);
      SplitKeeps(old(h), a, size, Wrap64(a + HEADER + size));
      if sound {
        blocks := Allocate(blocks, i, size);
      }
      h := h[a := h[a].(magic := Allocated, free := false)];
    }

    /**
     * kmalloc. A request the heap can answer gets a fresh block inside it. One whose wrapped sum passes the guard gets
     * a pointer too, to a block that runs past the end of the heap.
     */
    method Malloc(size: nat, maps: nat -> bool) returns (p: nat, ghost i: nat)
      requires Valid() && size < WORD
      requires Answerable(blocks, at, Align16(size), maps) || Returns(at, Align16(size))
      modifies this
      ensures p == 0 <==> size == 0 ||
                          (FirstFit(old(blocks), Align16(size)) == |old(blocks)| &&
                           Refuses(old(at.end), old(at.limit), Align16(size), maps))
      ensures p == 0 ==> h == old(h) && at == old(at) && bytes == old(bytes) && blocks == old(blocks)
      ensures p != 0 ==>
                (p + Align16(size) <= at.end <==> Answerable(old(blocks), old(at), Align16(size), maps))
      ensures p != 0 && !Answerable(old(blocks), old(at), Align16(size), maps) ==>
                && at.end <= old(at.end) && HEADER <= Wrap64(at.end - old(at.end))
                && var c := Grow(old(blocks), old(at.end), Wrap64(at.end - old(at.end)));
                   p == c[|c| - 1].Payload()
      ensures Answerable(old(blocks), old(at), Align16(size), maps) ==>
                && Valid() && DataKept(old(bytes), bytes, Live(old(blocks)))
                && (p != 0 ==>
                      && var from := Candidates(old(blocks), Align16(size), old(at.end), at.end);
                      && i == FirstFit(from, Align16(size)) < |from|
                      && blocks == Allocate(from, i, Align16(size))
                      && i < |blocks| && p == blocks[i].Payload() && blocks[i].size >= Align16(size)
                      && Live(blocks) == Live(old(blocks)) + {blocks[i]} && blocks[i] !in Live(old(blocks)))
    {
      hide Linked, Tiled, Coalesced, Allocate, Live, DataKept, Shape, Grow, FirstFit, AllMap, NewEnd, Align16;
      hide Chained, Roomy, Answerable, Refuses, NoWrap, Candidates, Returns;
      i := 0;
      Unchanged(bytes, Live(blocks));
      if size == 0 {
        return 0, 0;
      }
      var n := Align16(size);
      RequestInRange(size);
      ShapeChained(h, at, blocks);
      ghost var good := Answerable(blocks, at, n, maps);
      ghost var grown := false;
      if FirstFit(blocks, n) < |blocks| {
        Fitting(blocks, at, n, maps);
      }
      var a := Find(n);
      while a == 0
        invariant Chained(h, at.head, blocks) && (good ==> Valid())
        invariant a == AddrAt(blocks, FirstFit(blocks, n)) && (a == 0 <==> FirstFit(blocks, n) == |blocks|)
        invariant !grown ==> h == old(h) && at == old(at) && bytes == old(bytes) && blocks == old(blocks)
        invariant grown ==> a != 0 && FirstFit(old(blocks), n) == |old(blocks)|
        invariant grown ==> !Refuses(old(at.end), old(at.limit), n, maps)
        invariant grown ==> n + HEADER <= Wrap64(at.end - old(at.end))
        invariant grown ==> blocks == Grow(old(blocks), old(at.end), Wrap64(at.end - old(at.end)))
        invariant grown ==> if good then at.end >= old(at.end) + HEADER else at.end <= old(at.end)
        invariant !grown ==> a == 0 ==> FirstFit(old(blocks), n) == |old(blocks)|
        invariant Live(blocks) == Live(old(blocks)) && DataKept(old(bytes), bytes, Live(old(blocks)))
        decreases if grown then 0 else 1
      {
        Passes(blocks, at, n, maps);
        var ok := Expand(Wrap64(n + HEADER), maps);
        if !ok {
          return 0, 0;
        }
        grown := true;
        Added(old(h), old(at), old(blocks), n, at.end);
        GrownFits(old(blocks), old(at.end), Wrap64(at.end - old(at.end)), n);
        a := Find(n);
      }
      i := FirstFit(blocks, n);
      ghost var m := bytes;
      if good {
        FitSmall(h, at, blocks, n, i);
        Chosen(old(blocks), old(at), at, n, blocks, grown);
      } else {
        LastFits(old(h), old(at), old(blocks), n, Wrap64(at.end - old(at.end)));
      }
      Take(a, n, i);
      if good {
        DataChain(old(bytes), m, bytes, Live(old(blocks)));
      }
      p := a + HEADER;
    }

    /** heap_coalesce on the block at a. */
    method CoalesceAt(a: nat, ghost i: nat)
      requires Shape(h, at, blocks) && i < |blocks| && blocks[i].addr == a && blocks[i].free && CoalescedBut(blocks, i)
      modifies this
      ensures Valid() && at == old(at) && bytes == old(bytes) && blocks == Coalesce(old(blocks), i)
      decreases i
    {
      hide Linked, Tiled, Coalesced, Merge, MergeHeaders, CoalescedBut;
      Next(h, at, blocks, i);
      NextKnown(h, at, blocks, i);
      if h[a].next != 0 {
        Next(h, at, blocks, i + 1);
        NextKnown(h, at, blocks, i + 1);
        if h[h[a].next].free {
          LinkMerge(h, at.head, blocks, at.start, at.end, i);
          MergeKeeps(blocks, at.start, at.end, i);
          MergeBefore(blocks, i);
          Swallow(a);
          blocks := Merge(blocks, i);
          Next(h, at, blocks, i);
        }
      }
      OpenPair(blocks, i);
      if h[a].prev != 0 {
        Next(h, at, blocks, i - 1);
        if h[h[a].prev].free {
          CoalesceAt(h[a].prev, i - 1);
        }
      } else {
        FirstHasNoPrev(h, at, blocks, i);
      }
    }

    /** The block at a takes in its successor: the first half of heap_coalesce. */
    method Swallow(a: nat)
      requires a in h && h[a].next in h
      requires h[h[a].next].next != 0 ==> h[h[a].next].next in h
      modifies this
      ensures h == MergeHeaders(old(h), a) && at == old(at) && bytes == old(bytes) && blocks == old(blocks)
    {
      var next := h[a].next;
      h := h[a := h[a].(size := h[a].size + HEADER + h[next].size, next := h[next].next)];
      if h[a].next != 0 {
        var far := h[a].next;
        h := h[far := h[far].(prev := a)];
      }
    }

    /** kfree overwrites the payload it takes back. */
    method Poison(a: nat)
      requires a in h
      modifies this
      ensures h == old(h) && at == old(at) && blocks == old(blocks)
      ensures bytes == Poisoned(old(bytes), a + HEADER, h[a].size)
    {
      var i := 0;
      while i < h[a].size
        invariant h == old(h) && at == old(at) && blocks == old(blocks)
        invariant 0 <= i <= h[a].size && bytes == Poisoned(old(bytes), a + HEADER, i)
      {
        bytes := bytes[a + HEADER + i := POISON];
        i := i + 1;
      }
    }

    /**
     * kfree of any pointer: NULL, outside the heap, the payload of block i, or elsewhere in the heap, where `found` is
     * what the 40 bytes before it read as; those must not look like the header of an allocated block.
     */
    method Free(p: nat, found: Header, ghost i: nat)
      requires Valid() && p < WORD
      requires p != 0 && at.start <= Wrap64(p - HEADER) < at.end && !(i < |blocks| && blocks[i].Payload() == p) ==>
                 Wrap64(p - HEADER) !in h && (found.magic != Allocated || found.free)
      modifies this
      ensures Valid() && at == old(at)
      ensures Releases(old(blocks), old(at), p, i) ==>
                && blocks == Release(old(blocks), i)
                && Live(blocks) == Live(old(blocks)) - {old(blocks)[i]}
                && DataKept(old(bytes), bytes, Live(blocks))
                && bytes == Poisoned(old(bytes), p, old(blocks)[i].size)
      ensures !Releases(old(blocks), old(at), p, i) ==> h == old(h) && bytes == old(bytes) && blocks == old(blocks)
    {
      hide Linked, Tiled, Coalesced, Live, DataKept, Coalesce, Poisoned, LinkedAt;
      if p == 0 {
        return;
      }
      var a := Wrap64(p - HEADER);
      if a < at.start || a >= at.end {
        return;
      }
      var header := if a in h then h[a] else found;
      if i < |blocks| && blocks[i].Payload() == p {
        Next(h, at, blocks, i);
        BlockAddr(h, at, blocks, i);
      }
      if header.magic == Freed || header.free {
        return;
      }
      if header.magic != Allocated {
        return;
      }
      LinkMark(h, at.head, blocks, at.start, at.end, i, true);
      MarkKeeps(blocks, at.start, at.end, i);
      ReleaseLive(blocks, at.start, at.end, i);
      PoisonData(bytes, blocks, at.start, at.end, i);
      Poison(a);
      h := h[a := h[a].(magic := Freed, free := true)];
      blocks := Mark(blocks, i, true);
      CoalesceAt(a, i);
    }

    /** heap_validate on any list of headers that ends: it accepts exactly the intact ones. */
    method Validate(ghost addrs: seq<nat>) returns (ok: bool)
      requires NextChain(h, at.head, addrs)
      ensures ok <==> Intact(h, addrs)
    {
      var a := at.head;
      ghost var i := 0;
      while a != 0
        invariant 0 <= i <= |addrs| && a == (if i < |addrs| then addrs[i] else 0)
        invariant forall k :: 0 <= k < i ==> IntactAt(h, addrs, k)
        decreases |addrs| - i
      {
        assert NextAt(h, addrs, i) && (i + 1 < |addrs| ==> NextAt(h, addrs, i + 1));
        if h[a].magic != Allocated && h[a].magic != Freed {
          assert !IntactAt(h, addrs, i);
          return false;
        }
        if h[a].next != 0 && h[h[a].next].prev != a {
          assert !IntactAt(h, addrs, i);
          return false;
        }
        a := h[a].next;
        i := i + 1;
      }
      assert i < |addrs| ==> NextAt(h, addrs, i);
      return true;
    }
  }

  /** Following next from the head visits these addresses and ends. */
  ghost predicate NextChain(h: Headers, head: nat, addrs: seq<nat>) {
    && head == (if addrs == [] then 0 else addrs[0])
    && forall k :: 0 <= k < |addrs| ==> NextAt(h, addrs, k)
  }

  ghost predicate NextAt(h: Headers, addrs: seq<nat>, k: nat)
    requires k < |addrs|
  {
    addrs[k] != 0 && addrs[k] in h && h[addrs[k]].next == if k + 1 < |addrs| then addrs[k + 1] else 0
  }

  /** The magic number is one of the two, and the block behind points back. */
  ghost predicate IntactAt(h: Headers, addrs: seq<nat>, k: nat)
    requires k < |addrs|
  {
    && addrs[k] in h && h[addrs[k]].magic != Corrupt
    && (k + 1 < |addrs| ==> addrs[k + 1] in h && h[addrs[k + 1]].prev == addrs[k])
  }

  ghost predicate Intact(h: Headers, addrs: seq<nat>) {
    forall k :: 0 <= k < |addrs| ==> IntactAt(h, addrs, k)
  }

  ghost function Addresses(bs: Blocks): seq<nat> { seq(|bs|, i requires 0 <= i < |bs| => bs[i].addr) }

  /** So heap_validate finds nothing wrong in any state the allocator can reach. */
  lemma ReachableIntact(h: Headers, at: Bounds, bs: Blocks)
    requires Shape(h, at, bs)
    ensures NextChain(h, at.head, Addresses(bs)) && Intact(h, Addresses(bs))
  {
    hide Shape, HeaderOf;
    HeadIs(h, at, bs);
    var addrs := Addresses(bs);
    forall k | 0 <= k < |addrs|
      ensures NextAt(h, addrs, k) && IntactAt(h, addrs, k)
    {
      ReachableAt(h, at, bs, k);
    }
  }

  lemma ReachableAt(h: Headers, at: Bounds, bs: Blocks, k: nat)
    requires Shape(h, at, bs) && k < |bs|
    ensures NextAt(h, Addresses(bs), k) && IntactAt(h, Addresses(bs), k)
  {
    hide Shape;
    Next(h, at, bs, k);
    if k + 1 < |bs| {
      Next(h, at, bs, k + 1);
    }
  }
}
