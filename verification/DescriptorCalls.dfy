// What each system call does to the descriptor slots, and exactly when it succeeds (src/kernel/kernel.c).
module DescriptorCalls {
  import opened Descriptors
  import opened DescriptorRuns

  /** Slot `fd` of task t is the first empty one from `min` on. */
  ghost predicate Lowest(k: Kernel, t: nat, min: nat, fd: nat)
    requires InRange(k, t)
  {
    && min <= fd < TASK_MAX_FDS && k.slots[TASK_MAX_FDS * t + fd] == 0
    && forall x :: TASK_MAX_FDS * t + min <= x < TASK_MAX_FDS * t + fd ==> k.slots[x] != 0
  }

  /** The task has no empty slot from `min` on. */
  ghost predicate Full(k: Kernel, t: nat, min: nat)
    requires InRange(k, t)
  {
    forall x :: TASK_MAX_FDS * t + min <= x < TASK_MAX_FDS * t + TASK_MAX_FDS ==> k.slots[x] != 0
  }

  lemma FreeSlotIs(k: Kernel, t: nat, min: nat)
    requires InRange(k, t) && min < TASK_MAX_FDS
    ensures var b := TASK_MAX_FDS * t;
            var i := FreeSlot(k.slots, b + min, b + TASK_MAX_FDS);
            if i == b + TASK_MAX_FDS then Full(k, t, min) else Lowest(k, t, min, i - b)
  {}

  lemma LowestNotFull(k: Kernel, t: nat, min: nat, fd: nat)
    requires InRange(k, t) && Lowest(k, t, min, fd)
    ensures !Full(k, t, min)
  {
    assert k.slots[TASK_MAX_FDS * t + fd] == 0;
  }

  lemma LowestOne(k: Kernel, t: nat, min: nat, x: nat, y: nat)
    requires InRange(k, t) && Lowest(k, t, min, x) && Lowest(k, t, min, y)
    ensures x == y
  {
    assert k.slots[TASK_MAX_FDS * t + x] == 0 && k.slots[TASK_MAX_FDS * t + y] == 0;
  }

  /** dup and F_DUPFD: the lowest empty slot names the description and no other slot changes. */
  lemma DupSucceeds(k: Kernel, t: nat, fd: nat, min: nat, r: nat)
    requires Inv(k) && InRange(k, t) && fd < TASK_MAX_FDS && min < TASK_MAX_FDS
    requires k.slots[TASK_MAX_FDS * t + fd] != 0 && Lowest(k, t, min, r)
    ensures var b := TASK_MAX_FDS * t;
            Dup(k, t, fd, min).slots == k.slots[b + r := k.slots[b + fd]]
  {
    hide Inv, Copied, FreeSlot;
    FreeSlotIs(k, t, min);
    LowestNotFull(k, t, min, r);
    var b := TASK_MAX_FDS * t;
    var i := FreeSlot(k.slots, b + min, b + TASK_MAX_FDS);
    LowestOne(k, t, min, r, i - b);
    CopySlots(k, b + fd, i);
  }

  /** dup fails on an empty slot or a full table, and then changes nothing. */
  lemma DupFails(k: Kernel, t: nat, fd: nat, min: nat)
    requires InRange(k, t)
    requires fd >= TASK_MAX_FDS || min >= TASK_MAX_FDS || k.slots[TASK_MAX_FDS * t + fd] == 0 || Full(k, t, min)
    ensures Dup(k, t, fd, min) == k
  {}

  /** dup2: the slot names the other's description, whatever it named before. */
  lemma Dup2Exactly(k: Kernel, t: nat, from: nat, to: nat)
    requires Inv(k) && InRange(k, t)
    ensures var b := TASK_MAX_FDS * t;
            if from < TASK_MAX_FDS && to < TASK_MAX_FDS && k.slots[b + from] != 0
            then Dup2(k, t, from, to).slots == k.slots[b + to := k.slots[b + from]]
            else Dup2(k, t, from, to) == k
  {
    hide Inv, Close, Copied;
    var b := TASK_MAX_FDS * t;
    if from < TASK_MAX_FDS && to < TASK_MAX_FDS && k.slots[b + from] != 0 && from != to {
      CloseKeeps(k, b + to);
      var c := Close(k, b + to);
      assert c.slots[b + from] == k.slots[b + from];
      CopySlots(c, b + from, b + to);
      assert c.slots[b + to := k.slots[b + from]] == k.slots[b + to := k.slots[b + from]];
    }
  }

  /** task_alloc_fd: the new description is in the lowest empty slot from 3 on, or is closed again. */
  lemma OpenExactly(k: Kernel, t: nat, r: nat)
    requires Inv(k) && InRange(k, t)
    ensures var l := Open(k, t);
            && (Lowest(k, t, FIRST_FD, r) ==>
                  && l.slots == k.slots[TASK_MAX_FDS * t + r := k.next]
                  && k.next in l.descs && l.descs[k.next] == Desc(Plain, 1))
            && (Full(k, t, FIRST_FD) ==> l.slots == k.slots && k.next !in l.descs)
  {
    hide Inv, FreeSlot;
    var a := Alloc(k, Plain);
    FreeSlotIs(a, t, FIRST_FD);
    if Lowest(k, t, FIRST_FD, r) {
      LowestNotFull(k, t, FIRST_FD, r);
      var b := TASK_MAX_FDS * t;
      LowestOne(a, t, FIRST_FD, r, FreeSlot(a.slots, b + FIRST_FD, b + TASK_MAX_FDS) - b);
    }
  }

  lemma CloseSlots(k: Kernel, i: nat)
    requires i < |k.slots|
    ensures Close(k, i).slots == k.slots[i := 0]
  {
    hide CloseEnd;
  }

  /** task_alloc_fd on a pipe end: the description goes into the lowest empty slot, if there is memory and a slot. */
  lemma EndPlaced(k: Kernel, t: nat, p: nat, reading: bool, memory: bool)
    requires InRange(k, t) && p in k.pipes
    ensures var l, i, full := OpenEnd(k, t, p, reading, memory), PlacedAt(k, t), TASK_MAX_FDS * t + TASK_MAX_FDS;
            && l.slots == (if memory && i < full then k.slots[i := k.next] else k.slots)
            && (memory && i < full ==>
                  && l.descs == k.descs[k.next := Desc(EndNode(p, reading), 1)] && l.next == k.next + 1
                  && l.pipes == k.pipes[p := if reading then k.pipes[p].(readDesc := k.next)
                                             else k.pipes[p].(writeDesc := k.next)])
  {
    hide FreeSlot, CloseEnd;
  }

  /** sys_pipe with memory and two empty slots: the lowest two name the two ends of a new pipe. */
  lemma PipeSucceeds(k: Kernel, t: nat, r: nat, w: nat)
    requires Inv(k) && InRange(k, t) && Lowest(k, t, FIRST_FD, r) && Lowest(k, t, r + 1, w)
    ensures var l, b := MakePipe(k, t, true, true), TASK_MAX_FDS * t;
            && l.slots == k.slots[b + r := k.next][b + w := k.next + 1]
            && k.next in l.descs && l.descs[k.next] == Desc(ReadEnd(k.nextPipe), 1)
            && k.next + 1 in l.descs && l.descs[k.next + 1] == Desc(WriteEnd(k.nextPipe), 1)
            && k.nextPipe in l.pipes && l.pipes[k.nextPipe] == PipeEnds(1, 1, k.next, k.next + 1)
  {
    Positive(k);
    hide Inv, FreeSlot, OpenEnd, Close, PlacedAt;
    var b, n := TASK_MAX_FDS * t, NewPipe(k);
    Placing(k, n, t, r);
    EndPlaced(n, t, k.nextPipe, true, true);
    var a := OpenEnd(n, t, k.nextPipe, true, true);
    assert Lowest(a, t, FIRST_FD, w);
    Placing(a, a, t, w);
    EndPlaced(a, t, k.nextPipe, false, true);
  }

  lemma Placing(k: Kernel, e: Kernel, t: nat, r: nat)
    requires InRange(k, t) && e.slots == k.slots && Lowest(k, t, FIRST_FD, r)
    ensures PlacedAt(k, t) == PlacedAt(e, t) == TASK_MAX_FDS * t + r
  {
    hide FreeSlot;
    FreeSlotIs(k, t, FIRST_FD);
    LowestNotFull(k, t, FIRST_FD, r);
    LowestOne(k, t, FIRST_FD, r, PlacedAt(k, t) - TASK_MAX_FDS * t);
  }

  /** Otherwise sys_pipe leaves every slot as it was. */
  lemma PipeFails(k: Kernel, t: nat, memoryR: bool, memoryW: bool)
    requires Inv(k) && InRange(k, t)
    requires !memoryR || !memoryW || Full(k, t, FIRST_FD) ||
             exists r: nat :: Lowest(k, t, FIRST_FD, r) && Full(k, t, r + 1)
    ensures MakePipe(k, t, memoryR, memoryW).slots == k.slots
  {
    Positive(k);
    PipeSlots(k, t, memoryR, memoryW);
    if memoryR && memoryW && !Full(k, t, FIRST_FD) {
      var r: nat :| Lowest(k, t, FIRST_FD, r) && Full(k, t, r + 1);
      Placing(k, k, t, r);
      SecondFull(k, t, r);
    } else if memoryR && memoryW {
      NoneLeft(k, t);
    }
  }

  lemma NoneLeft(k: Kernel, t: nat)
    requires InRange(k, t) && Full(k, t, FIRST_FD)
    ensures PlacedAt(k, t) == TASK_MAX_FDS * t + TASK_MAX_FDS
  {}

  lemma SecondFull(k: Kernel, t: nat, r: nat)
    requires InRange(k, t) && Lowest(k, t, FIRST_FD, r) && Full(k, t, r + 1) && k.next > 0
    ensures PlacedAt(k.(slots := k.slots[TASK_MAX_FDS * t + r := k.next]), t) == TASK_MAX_FDS * t + TASK_MAX_FDS
  {}

  /** sys_pipe succeeds exactly with memory for both ends and a slot for each; what it placed otherwise goes again. */
  lemma PipeSlots(k: Kernel, t: nat, memoryR: bool, memoryW: bool)
    requires Inv(k) && InRange(k, t)
    ensures var full, r := TASK_MAX_FDS * t + TASK_MAX_FDS, PlacedAt(k, t);
            var taken := memoryR && r < full;
            var w := PlacedAt(HalfPipe(k, t, memoryR), t);
            !(taken && memoryW && w < full) ==> MakePipe(k, t, memoryR, memoryW).slots == k.slots
  {
    hide Inv, FreeSlot, OpenEnd, Close;
    var n, p := NewPipe(k), k.nextPipe;
    EndPlaced(n, t, p, true, memoryR);
    var a := OpenEnd(n, t, p, true, memoryR);
    assert p in a.pipes by { StillThere(k, t, memoryR); }
    EndPlaced(a, t, p, false, memoryW);
    var e := OpenEnd(a, t, p, false, memoryW);
    var r, w := PlacedAt(k, t), PlacedAt(a, t);
    if r < |k.slots| {
      CloseSlots(e, r);
    }
    if w < |k.slots| {
      CloseSlots(e, w);
    }
  }

  /** A read end that found no slot leaves the pipe to its write end. */
  lemma StillThere(k: Kernel, t: nat, memory: bool)
    requires InRange(k, t)
    ensures k.nextPipe in OpenEnd(NewPipe(k), t, k.nextPipe, true, memory).pipes
  {
    hide FreeSlot;
  }

  lemma SecondLowest(k: Kernel, a: Kernel, t: nat, r: nat, w: nat, d: nat)
    requires InRange(k, t) && Lowest(k, t, FIRST_FD, r) && d != 0
    requires a.slots == k.slots[TASK_MAX_FDS * t + r := d] && Lowest(a, t, FIRST_FD, w)
    ensures r < w && Lowest(k, t, r + 1, w)
  {
    var b := TASK_MAX_FDS * t;
    assert a.slots[b + r] != 0 && a.slots[b + w] == 0;
    forall x | b + r + 1 <= x < b + w
      ensures k.slots[x] != 0
    {
      assert a.slots[x] != 0;
    }
  }

  /** The slots after sys_pipe's first half. */
  function HalfPipe(k: Kernel, t: nat, memoryR: bool): Kernel
    requires InRange(k, t)
  {
    var r := PlacedAt(k, t);
    if memoryR && r < TASK_MAX_FDS * t + TASK_MAX_FDS then k.(slots := k.slots[r := k.next]) else k
  }

  lemma HalfPlaced(k: Kernel, t: nat, memoryR: bool)
    requires InRange(k, t)
    ensures var a := OpenEnd(NewPipe(k), t, k.nextPipe, true, memoryR);
            |a.slots| == |k.slots| && PlacedAt(a, t) == PlacedAt(HalfPipe(k, t, memoryR), t)
  {
    hide OpenEnd, FreeSlot;
    EndPlaced(NewPipe(k), t, k.nextPipe, true, memoryR);
  }

  lemma BothPlaced(k: Kernel, t: nat)
    requires InRange(k, t) && k.next > 0
    ensures var b, full, r, w := TASK_MAX_FDS * t, TASK_MAX_FDS * t + TASK_MAX_FDS, PlacedAt(k, t),
                                 PlacedAt(HalfPipe(k, t, true), t);
            r < full && w < full ==> r < w && Lowest(k, t, FIRST_FD, r - b) && Lowest(k, t, r - b + 1, w - b)
  {
    hide FreeSlot, Lowest, Full;
    var b, a := TASK_MAX_FDS * t, HalfPipe(k, t, true);
    FreeSlotIs(k, t, FIRST_FD);
    FreeSlotIs(a, t, FIRST_FD);
    if PlacedAt(k, t) < b + TASK_MAX_FDS && PlacedAt(a, t) < b + TASK_MAX_FDS {
      SecondLowest(k, a, t, PlacedAt(k, t) - b, PlacedAt(a, t) - b, k.next);
    }
  }

  /** The two slots sys_pipe uses, in terms of its own steps. */
  lemma PipeResult(k: Kernel, t: nat, memoryR: bool, memoryW: bool)
    requires Inv(k) && InRange(k, t)
    ensures var b, full := TASK_MAX_FDS * t, TASK_MAX_FDS * t + TASK_MAX_FDS;
            var a := OpenEnd(NewPipe(k), t, k.nextPipe, true, memoryR);
            && |a.slots| == |k.slots|
            && var r, w := PlacedAt(k, t), PlacedAt(a, t);
               if memoryR && memoryW && r < full && w < full
               then r < w && Lowest(k, t, FIRST_FD, r - b) && Lowest(k, t, r - b + 1, w - b)
               else MakePipe(k, t, memoryR, memoryW).slots == k.slots
  {
    Positive(k);
    hide Inv, OpenEnd, PlacedAt, MakePipe, Lowest;
    HalfPlaced(k, t, memoryR);
    PipeSlots(k, t, memoryR, memoryW);
    BothPlaced(k, t);
  }
}
