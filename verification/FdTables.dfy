// Descriptor slots and descriptions as the kernel changes them, call by call (src/kernel/kernel.c,
// src/kernel/scheduler.c).
module FdTables {
  import opened Descriptors
  import opened DescriptorRuns
  import opened DescriptorCalls

  class Tables {
    const slots: array<nat>
    var descs: map<nat, Desc>
    var pipes: map<nat, PipeEnds>
    var next: nat
    var nextPipe: nat
    ghost var holds: multiset<nat>
    ghost var closes: map<nat, nat>

    ghost function View(): Kernel
      reads this, slots
    {
      Kernel(slots[..], holds, descs, closes, pipes, next, nextPipe)
    }

    /** The tables of n tasks before anything is open. */
    constructor (n: nat)
      ensures fresh(slots) && slots.Length == TASK_MAX_FDS * n && View() == Fresh(n) && Inv(View())
    {
      slots := new nat[TASK_MAX_FDS * n](_ => 0);
      descs, pipes, next, nextPipe, holds, closes := map[], map[], 1, 0, multiset{}, map[];
      new;
      assert slots[..] == Fresh(n).slots;
      FreshInv(n);
    }

    /** file_description_alloc. */
    method AllocDesc(node: Node) returns (d: nat)
      modifies this
      ensures View() == Alloc(old(View()), node) && d == old(next)
    {
      d := next;
      descs := descs[d := Desc(node, 1)];
      next := next + 1;
      holds := holds + multiset{d};
    }

    /** ref_count++ on a description. */
    method RefDesc(d: nat)
      requires d in descs
      modifies this
      ensures View() == Ref(old(View()), d)
    {
      descs := descs[d := descs[d].(refs := descs[d].refs + 1)];
      holds := holds + multiset{d};
    }

    /** pipe_node_close. */
    method CloseNode(node: Node)
      modifies this
      ensures View() == old(View()).(pipes := CloseEnd(old(pipes), node))
    {
      if node.Plain? || node.pipe !in pipes {
        return;
      }
      var p := pipes[node.pipe];
      if node.ReadEnd? && p.readers > 0 {
        p := p.(readers := p.readers - 1);
      }
      if node.WriteEnd? && p.writers > 0 {
        p := p.(writers := p.writers - 1);
      }
      if p.readers == 0 && p.writers == 0 {
        pipes := pipes - {node.pipe};
      } else {
        pipes := pipes[node.pipe := p];
      }
    }

    /** file_description_unref. */
    method UnrefDesc(d: nat)
      requires d in descs
      modifies this
      ensures View() == Unref(old(View()), d)
    {
      hide CloseEnd;
      var desc := descs[d];
      var count := if desc.refs > 0 then desc.refs - 1 else 0;
      holds := holds - multiset{d};
      if count > 0 {
        descs := descs[d := desc.(refs := count)];
      } else {
        CloseNode(desc.node);
        closes := closes[d := Closes(old(View()), d) + 1];
        descs := descs - {d};
      }
    }

    /** Puts a reference the caller holds into slot i. */
    method Put(i: nat, d: nat)
      requires i < slots.Length
      modifies this, slots
      ensures View() == Install(old(View()), i, d)
    {
      slots[i] := d;
      holds := holds - multiset{d};
    }

    /** The scan for an empty slot. */
    method FindSlot(lo: nat, hi: nat) returns (i: nat)
      requires lo <= hi <= slots.Length
      ensures i == FreeSlot(slots[..], lo, hi)
    {
      i := lo;
      while i < hi
        invariant lo <= i <= hi && FreeSlot(slots[..], lo, hi) == FreeSlot(slots[..], i, hi)
      {
        if slots[i] == 0 {
          return;
        }
        i := i + 1;
      }
    }

    /** sys_dup, and fcntl F_DUPFD from slot `min`. */
    method SysDup(t: nat, fd: int, min: int) returns (r: int)
      requires Inv(View()) && TASK_MAX_FDS * t + TASK_MAX_FDS <= slots.Length
      modifies this, slots
      ensures fd < 0 || min < 0 ==> View() == old(View()) && r == -1
      ensures fd >= 0 && min >= 0 ==> View() == Dup(old(View()), t, fd, min)
      ensures r < 0 ==> r == -1 && View() == old(View())
      ensures r < 0 <==> !(0 <= fd < TASK_MAX_FDS && 0 <= min < TASK_MAX_FDS) ||
                         old(slots[TASK_MAX_FDS * t + fd]) == 0 || Full(old(View()), t, min)
      ensures r >= 0 ==> min >= 0 && 0 <= fd < TASK_MAX_FDS && Lowest(old(View()), t, min, r) &&
                         slots[..] == old(slots[..])[TASK_MAX_FDS * t + r := old(slots[TASK_MAX_FDS * t + fd])]
    {
      hide Inv, Copied, FreeSlot, Lowest, Full;
      var b := TASK_MAX_FDS * t;
      if fd < 0 || fd >= TASK_MAX_FDS || min < 0 || min >= TASK_MAX_FDS || slots[b + fd] == 0 {
        return -1;
      }
      FreeSlotIs(View(), t, min);
      var i := FindSlot(b + min, b + TASK_MAX_FDS);
      if i == b + TASK_MAX_FDS {
        return -1;
      }
      LowestNotFull(View(), t, min, i - b);
      CopiedKeeps(View(), b + fd, i);
      CopySlot(b + fd, i);
      r := i - b;
    }

    /** sys_close of slot i. */
    method CloseSlot(i: nat) returns (ok: bool)
      requires Inv(View()) && i < slots.Length
      modifies this, slots
      ensures View() == Close(old(View()), i) && ok == (old(slots[i]) != 0)
    {
      hide Inv, Unref;
      if slots[i] == 0 {
        return false;
      }
      InSlot(View(), i);
      var d := slots[i];
      slots[i] := 0;
      holds := holds + multiset{d};
      UnrefDesc(d);
      ok := true;
    }

    /** sys_dup2. */
    method SysDup2(t: nat, from: int, to: int) returns (r: int)
      requires Inv(View()) && TASK_MAX_FDS * t + TASK_MAX_FDS <= slots.Length
      modifies this, slots
      ensures from < 0 || to < 0 ==> View() == old(View()) && r == -1
      ensures from >= 0 && to >= 0 ==> View() == Dup2(old(View()), t, from, to)
      ensures r == if 0 <= from < TASK_MAX_FDS && 0 <= to < TASK_MAX_FDS &&
                      old(slots[TASK_MAX_FDS * t + from]) != 0 then to else -1
      ensures r >= 0 ==> slots[..] == old(slots[..])[TASK_MAX_FDS * t + to := old(slots[TASK_MAX_FDS * t + from])]
    {
      hide Inv, Close, Copied;
      var b := TASK_MAX_FDS * t;
      if from < 0 || from >= TASK_MAX_FDS || to < 0 || to >= TASK_MAX_FDS || slots[b + from] == 0 {
        return -1;
      }
      Dup2Exactly(View(), t, from, to);
      if from == to {
        return to;
      }
      CloseKeeps(View(), b + to);
      if slots[b + to] != 0 {
        var _ := CloseSlot(b + to);
      } else {
        CloseIdle(View(), b + to);
      }
      CopiedKeeps(View(), b + from, b + to);
      CopySlot(b + from, b + to);
      r := to;
    }

    /** task_close_all_fds. */
    method CloseAll(t: nat)
      requires Inv(View()) && TASK_MAX_FDS * t + TASK_MAX_FDS <= slots.Length
      modifies this, slots
      ensures View() == CloseFrom(old(View()), t, 0)
    {
      hide Inv, Close;
      var i := 0;
      while i < TASK_MAX_FDS
        invariant 0 <= i <= TASK_MAX_FDS && Inv(View())
        invariant CloseFrom(View(), t, i) == CloseFrom(old(View()), t, 0)
      {
        CloseKeeps(View(), TASK_MAX_FDS * t + i);
        ghost var k := View();
        if slots[TASK_MAX_FDS * t + i] != 0 {
          var _ := CloseSlot(TASK_MAX_FDS * t + i);
        } else {
          CloseIdle(k, TASK_MAX_FDS * t + i);
        }
        assert View() == Close(k, TASK_MAX_FDS * t + i);
        i := i + 1;
      }
    }

    /** The descriptor loop of fork and of inherit_fds, into a task entry that is not in use. */
    method InheritFds(parent: nat, child: nat)
      requires Inv(View()) && parent != child
      requires TASK_MAX_FDS * parent + TASK_MAX_FDS <= slots.Length
      requires TASK_MAX_FDS * child + TASK_MAX_FDS <= slots.Length
      requires forall x :: TASK_MAX_FDS * child <= x < TASK_MAX_FDS * child + TASK_MAX_FDS ==> slots[x] == 0
      modifies this, slots
      ensures View() == Inherit(old(View()), parent, child, 0)
    {
      hide Inv, Copied, EmptyFrom, Inherit;
      var i := 0;
      assert EmptyFrom(View(), child, 0) by { StartsEmpty(View(), child); }
      while i < TASK_MAX_FDS
        invariant 0 <= i <= TASK_MAX_FDS && Inv(View()) && EmptyFrom(View(), child, i)
        invariant Inherit(View(), parent, child, i) == Inherit(old(View()), parent, child, 0)
      {
        InheritOne(View(), parent, child, i);
        CopySlot(TASK_MAX_FDS * parent + i, TASK_MAX_FDS * child + i);
        i := i + 1;
      }
      InheritEnds(View(), parent, child);
    }

    method CopySlot(from: nat, to: nat)
      requires Inv(View()) && from < slots.Length && to < slots.Length
      modifies this, slots
      ensures View() == Copied(old(View()), from, to)
    {
      hide Inv, Ref, Install;
      if slots[from] != 0 {
        InSlot(View(), from);
        var d := slots[from];
        RefDesc(d);
        Put(to, d);
      }
    }

    /** The slot search of task_alloc_fd for a description the caller holds. */
    method PlaceDesc(t: nat, d: nat) returns (fd: int)
      requires d in descs && TASK_MAX_FDS * t + TASK_MAX_FDS <= slots.Length
      modifies this, slots
      ensures View() == Place(old(View()), t, d)
      ensures fd == (if PlacedAt(old(View()), t) == TASK_MAX_FDS * t + TASK_MAX_FDS then -1
              else PlacedAt(old(View()), t) - TASK_MAX_FDS * t)
    {
      hide Unref, Install, FreeSlot;
      var b := TASK_MAX_FDS * t;
      var i := FindSlot(b + FIRST_FD, b + TASK_MAX_FDS);
      if i < b + TASK_MAX_FDS {
        Put(i, d);
        return i - b;
      }
      UnrefDesc(d);
      fd := -1;
    }

    /** task_alloc_fd on a node that is no pipe end. */
    method OpenNode(t: nat) returns (fd: int)
      requires TASK_MAX_FDS * t + TASK_MAX_FDS <= slots.Length
      modifies this, slots
      ensures View() == Open(old(View()), t)
      ensures fd == (if PlacedAt(old(View()), t) == TASK_MAX_FDS * t + TASK_MAX_FDS then -1
              else PlacedAt(old(View()), t) - TASK_MAX_FDS * t)
    {
      hide Place;
      var d := AllocDesc(Plain);
      fd := PlaceDesc(t, d);
    }

    /** task_alloc_fd on one end of a pipe; `memory` says whether its description can be allocated. */
    method OpenPipeEnd(t: nat, p: nat, reading: bool, memory: bool) returns (fd: int)
      requires TASK_MAX_FDS * t + TASK_MAX_FDS <= slots.Length && p in pipes
      modifies this, slots
      ensures View() == OpenEnd(old(View()), t, p, reading, memory)
      ensures fd == (if !memory || PlacedAt(old(View()), t) == TASK_MAX_FDS * t + TASK_MAX_FDS then -1
              else PlacedAt(old(View()), t) - TASK_MAX_FDS * t)
    {
      hide Place, PlacedAt;
      if !memory {
        return -1;
      }
      SameSlots(View(), t, p, reading);
      var d := AllocDesc(EndNode(p, reading));
      pipes := pipes[p := if reading then pipes[p].(readDesc := d) else pipes[p].(writeDesc := d)];
      fd := PlaceDesc(t, d);
    }

    /** sys_pipe once its blocks are allocated; on success the two descriptors, else -1. */
    method SysPipe(t: nat, memoryR: bool, memoryW: bool) returns (readFd: int, writeFd: int)
      requires Inv(View()) && TASK_MAX_FDS * t + TASK_MAX_FDS <= slots.Length
      modifies this, slots
      ensures View() == MakePipe(old(View()), t, memoryR, memoryW)
      ensures (readFd < 0) == (writeFd < 0)
      ensures readFd < 0 ==> slots[..] == old(slots[..])
      ensures readFd >= 0 ==>
                && memoryR && memoryW && 0 <= readFd < writeFd
                && Lowest(old(View()), t, FIRST_FD, readFd) && Lowest(old(View()), t, readFd + 1, writeFd)
    {
      hide Inv, OpenEnd, Close, PlacedAt, Lowest;
      var b, p := TASK_MAX_FDS * t, nextPipe;
      ghost var k := View();
      PipeSteps(k, t, memoryR, memoryW);
      PipeResult(k, t, memoryR, memoryW);
      pipes := pipes[p := PipeEnds(1, 1, 0, 0)];
      nextPipe := nextPipe + 1;
      readFd := OpenPipeEnd(t, p, true, memoryR);
      writeFd := OpenPipeEnd(t, p, false, memoryW);
      if readFd < 0 || writeFd < 0 {
        if readFd >= 0 {
          var _ := CloseSlot(b + readFd);
        }
        if writeFd >= 0 {
          var _ := CloseSlot(b + writeFd);
        }
        return -1, -1;
      }
    }

    /** task_get_file_description: a reference for the length of a system call. */
    method GetDescription(t: nat, fd: int) returns (d: nat)
      requires Inv(View()) && TASK_MAX_FDS * t + TASK_MAX_FDS <= slots.Length
      modifies this
      ensures 0 <= fd < TASK_MAX_FDS ==> d == slots[TASK_MAX_FDS * t + fd] && View() == Ref(old(View()), d)
      ensures !(0 <= fd < TASK_MAX_FDS) ==> d == 0 && View() == old(View())
    {
      hide Inv;
      if fd < 0 || fd >= TASK_MAX_FDS {
        return 0;
      }
      d := slots[TASK_MAX_FDS * t + fd];
      if d != 0 {
        InSlot(View(), TASK_MAX_FDS * t + fd);
        RefDesc(d);
      } else {
        ZeroUnknown(View());
      }
    }
  }

  lemma StartsEmpty(k: Kernel, t: nat)
    requires InRange(k, t) && forall x :: TASK_MAX_FDS * t <= x < TASK_MAX_FDS * t + TASK_MAX_FDS ==> k.slots[x] == 0
    ensures EmptyFrom(k, t, 0)
  {}

  lemma InheritEnds(k: Kernel, parent: nat, child: nat)
    ensures Inherit(k, parent, child, TASK_MAX_FDS) == k
  {}

  lemma ZeroUnknown(k: Kernel)
    requires Inv(k)
    ensures Ref(k, 0) == k
  {
    Parts(k, 0);
  }

  /** Allocating a description moves no slot. */
  lemma SameSlots(k: Kernel, t: nat, p: nat, reading: bool)
    requires InRange(k, t)
    ensures AllocEnd(k, p, reading).slots == k.slots && PlacedAt(AllocEnd(k, p, reading), t) == PlacedAt(k, t)
  {}

  /** What holds between the steps of sys_pipe. */
  lemma PipeSteps(k: Kernel, t: nat, memoryR: bool, memoryW: bool)
    requires Inv(k) && InRange(k, t)
    ensures var n := NewPipe(k);
            var a := OpenEnd(n, t, k.nextPipe, true, memoryR);
            && PlacedAt(n, t) == PlacedAt(k, t) && |a.slots| == |k.slots| && k.nextPipe in a.pipes
            && Inv(OpenEnd(a, t, k.nextPipe, false, memoryW)) &&
               |OpenEnd(a, t, k.nextPipe, false, memoryW).slots| == |k.slots|
            && Inv(Close(OpenEnd(a, t, k.nextPipe, false, memoryW), PlacedAt(k, t)))
  {
    hide Inv, OpenEnd, Close;
    var n := NewPipe(k);
    NewPipeKeeps(k);
    OpenEndKeeps(n, t, k.nextPipe, true, memoryR);
    OtherEnd(n, t, k.nextPipe, memoryR);
    var a := OpenEnd(n, t, k.nextPipe, true, memoryR);
    StaysOpen(n, t, k.nextPipe, memoryR);
    OpenEndKeeps(a, t, k.nextPipe, false, memoryW);
    CloseKeeps(OpenEnd(a, t, k.nextPipe, false, memoryW), PlacedAt(k, t));
  }

  /** While its writer counts, a pipe outlives a read end that found no slot. */
  lemma StaysOpen(k: Kernel, t: nat, p: nat, memory: bool)
    requires InRange(k, t) && p in k.pipes && k.pipes[p].writers > 0
    ensures p in OpenEnd(k, t, p, true, memory).pipes
  {
    hide FreeSlot;
  }

  lemma CloseIdle(k: Kernel, i: nat)
    requires i < |k.slots| && k.slots[i] == 0
    ensures Close(k, i) == k
  {}
}
