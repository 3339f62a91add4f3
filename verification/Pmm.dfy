// The physical memory manager (src/kernel/memory.c): which frames are used, and how often each is referenced.
module Pmm {

  const PAGE_SIZE: nat := 4096
  const COUNT_MOD: nat := 0x1_0000_0000

  /** The used bitmap, one bit per frame, beside the reference counts; the first `reserved` frames are the kernel's. */
  datatype Frames = Frames(used: seq<bool>, refs: seq<nat>, reserved: nat)

  /** A frame is marked used exactly while it is referenced, and the kernel's frames always are. */
  ghost predicate Consistent(p: Frames) {
    && |p.used| == |p.refs| && p.reserved <= |p.refs|
    && forall i :: 0 <= i < |p.refs| ==>
      (p.used[i] <==> p.refs[i] > 0) && p.refs[i] < COUNT_MOD && (i < p.reserved ==> p.used[i])
  }

  /** Number of the lowest unused frame, or the frame count when there is none. */
  function FirstFree(used: seq<bool>): (i: nat)
    ensures i <= |used|
    ensures i < |used| ==> !used[i]
    ensures forall k :: 0 <= k < i ==> used[k]
  {
    if used == [] || !used[0] then 0 else 1 + FirstFree(used[1..])
  }

  function Take(p: Frames, i: nat): Frames
    requires i < |p.used| && i < |p.refs|
  {
    p.(used := p.used[i := true], refs := p.refs[i := 1])
  }

  /** Drops one reference; the last one releases the frame. Kernel frames and bad numbers are ignored. */
  function Drop(p: Frames, i: nat): Frames {
    if i >= |p.refs| || i >= |p.used| || i < p.reserved || p.refs[i] == 0 then p
    else if p.refs[i] == 1 then p.(refs := p.refs[i := 0], used := p.used[i := false])
    else p.(refs := p.refs[i := p.refs[i] - 1])
  }

  /** One reference more, in 32-bit arithmetic. */
  function Share(p: Frames, i: nat): Frames {
    if i >= |p.refs| then p else p.(refs := p.refs[i := (p.refs[i] + 1) % COUNT_MOD])
  }

  lemma DropKeeps(p: Frames, i: nat)
    requires Consistent(p)
    ensures Consistent(Drop(p, i))
  {}

  /** Sharing keeps the bitmap and the counts together exactly when the frame is in use and its count does not wrap. */
  lemma ShareKeepsIff(p: Frames, i: nat)
    requires Consistent(p) && i < |p.refs|
    ensures Consistent(Share(p, i)) <==> 0 < p.refs[i] < COUNT_MOD - 1
  {
    var q := Share(p, i);
    assert q.refs[i] == (p.refs[i] + 1) % COUNT_MOD && q.used[i] == p.used[i];
    assert forall k :: 0 <= k < |p.refs| && k != i ==> q.refs[k] == p.refs[k];
  }

  function Shares(p: Frames, i: nat, n: nat): Frames { if n == 0 then p else Share(Shares(p, i, n - 1), i) }

  lemma {:induction false} SharesCount(p: Frames, i: nat, n: nat)
    requires Consistent(p) && i < |p.refs| && p.refs[i] == 1
    ensures var q := Shares(p, i, n); |q.refs| == |p.refs| && q.used == p.used && q.refs[i] == (1 + n) % COUNT_MOD
  {
    if n > 0 {
      SharesCount(p, i, n - 1);
      assert ((n % COUNT_MOD) + 1) % COUNT_MOD == (1 + n) % COUNT_MOD;
    }
  }

  /** A frame shared 2^32 - 1 times is in use and counts no reference, so the next free of it is ignored. */
  lemma ShareWraps(p: Frames, i: nat)
    requires Consistent(p) && p.reserved <= i < |p.refs| && p.refs[i] == 1
    ensures var q := Shares(p, i, COUNT_MOD - 1);
            i < |q.refs| && i < |q.used| && q.used[i] && q.refs[i] == 0 && !Consistent(q) && Drop(q, i) == q
  {
    SharesCount(p, i, COUNT_MOD - 1);
    hide Shares;
  }

  /** A frame taken and dropped leaves the manager as it was. */
  lemma TakeDrop(p: Frames, i: nat)
    requires Consistent(p) && p.reserved <= i < |p.refs| && !p.used[i]
    ensures Drop(Take(p, i), i) == p
  {
    var q := Drop(Take(p, i), i);
    assert q.refs == p.refs && q.used == p.used;
  }

  class Manager {
    var frames: Frames

    ghost predicate Valid()
      reads this
    {
      Consistent(frames)
    }

    /** pmm_init: everything below the reserved end is used once, the rest is free. */
    constructor (total: nat, reservedEnd: nat)
      ensures Valid() && |frames.refs| == total
      ensures frames.reserved == if reservedEnd > total then total else reservedEnd
      ensures forall i :: 0 <= i < total ==> (frames.used[i] <==> i < reservedEnd) && frames.refs[i] <= 1
    {
      var reserved := if reservedEnd > total then total else reservedEnd;
      frames := Frames(seq(total, i => i < reserved), seq(total, i => if i < reserved then 1 else 0), reserved);
    }

    /** First fit; the result is a byte address, 0 when memory is exhausted. */
    method Alloc() returns (address: nat)
      requires Valid()
      modifies this
      ensures Valid()
      ensures var i := FirstFree(old(frames.used));
              if i == |old(frames.used)| then address == 0 && frames == old(frames)
              else address == i * PAGE_SIZE && frames == Take(old(frames), i)
    {
      var i := 0;
      while i < |frames.used|
        invariant 0 <= i <= |frames.used|
        invariant FirstFree(frames.used) == i + FirstFree(frames.used[i..])
      {
        if !frames.used[i] {
          frames := Take(frames, i);
          return i * PAGE_SIZE;
        }
        i := i + 1;
      }
      address := 0;
    }

    method Free(address: nat)
      requires Valid()
      modifies this
      ensures Valid()
      ensures frames == if address % PAGE_SIZE != 0 then old(frames) else Drop(old(frames), address / PAGE_SIZE)
    {
      if address % PAGE_SIZE != 0 {
        return;
      }
      var block := address / PAGE_SIZE;
      if block >= |frames.refs| || block < frames.reserved {
        return;
      }
      DropKeeps(frames, block);
      if frames.refs[block] > 0 {
        frames := frames.(refs := frames.refs[block := frames.refs[block] - 1]);
        if frames.refs[block] == 0 {
          frames := frames.(used := frames.used[block := false]);
        }
      }
    }

    method RefInc(address: nat)
      modifies this
      ensures frames == if address % PAGE_SIZE != 0 then old(frames) else Share(old(frames), address / PAGE_SIZE)
    {
      if address % PAGE_SIZE != 0 {
        return;
      }
      frames := Share(frames, address / PAGE_SIZE);
    }

    function RefGet(address: nat): nat
      reads this
    {
      if address % PAGE_SIZE != 0 || address / PAGE_SIZE >= |frames.refs| then 0
      else frames.refs[address / PAGE_SIZE]
    }
  }
}
